/**
 The fate of a bundle that is forwarded without a dispatcher: its pieces are handed
 to a transmission queue, results come back in any order, and a reference count
 decides when the bundle is declared forwarded or deleted (section 5.4 of RFC 9171).
 */
module BundleFate {
  import Bundle7
  import Fragmentation

  datatype Constraint = DispatchPending | ForwardPending | ReassemblyPending | FlagOwn

  datatype Verdict = Forwarded | Deleted

  datatype Fate = Fate(
    refcount: int, failed: bool, constraints: set<Constraint>, verdicts: seq<Verdict>, discards: nat)

  /** What `send_bundle` does: how many pieces it enqueues, and whether it reports success. */
  datatype Sending = NoLink | Sending(pieces: nat, ok: bool)

  /** The transmission task's report on one enqueued piece. */
  datatype Result = Result(piece: nat, success: bool)

  function SendBundle(b: Bundle7.Bundle, mbs: nat, mustNotFragment: bool, room: nat): Sending
    requires b.WellFormed()
  {
    if mbs != 0 && Bundle7.SerializedSize(b) > mbs then
      if mustNotFragment then Sending(0, false)
      else
        var r := Fragmentation.FragmentAndEnqueue(b, mbs, room);
        Sending(|r.sent|, r.ok)
    else if room > 0 then Sending(1, true)
    else Sending(0, false)
  }

  // ---- The handlers ----

  function Discarded(s: Fate): Fate {
    s.(discards := s.discards + 1)
  }

  function AfterDeletion(s: Fate): Fate {
    Discarded(s.(verdicts := s.verdicts + [Deleted], constraints := {}))
  }

  function AfterFailure(s: Fate): Fate {
    var marked := s.(failed := true);
    if s.refcount != 0 then marked else AfterDeletion(marked)
  }

  function AfterSuccess(s: Fate): Fate {
    if s.refcount != 0 then s
    else if s.failed then AfterFailure(s)
    else
      var left := s.constraints - {ForwardPending} - {FlagOwn};
      var kept := s.(verdicts := s.verdicts + [Forwarded], constraints := left);
      if left == {} then Discarded(kept) else kept
  }

  function AfterResult(s: Fate, success: bool): Fate {
    var released := s.(refcount := s.refcount - 1);
    if success then AfterSuccess(released) else AfterFailure(released)
  }

  function AfterForwarding(s: Fate, hopsLeft: bool, sending: Sending): Fate {
    if !hopsLeft then AfterDeletion(s)
    else
      var pending := s.(constraints := s.constraints + {ForwardPending} - {DispatchPending});
      match sending
      case NoLink => AfterFailure(pending)
      case Sending(pieces, ok) =>
        var counted := pending.(refcount := s.refcount + pieces);
        if ok then counted else AfterFailure(counted)
  }

  // ---- Runs: the bundle is forwarded, then every enqueued piece yields one result ----

  datatype Attempt = Attempt(own: bool, hopsLeft: bool, sending: Sending)

  datatype State = State(fate: Fate, outstanding: set<nat>)

  function Received(own: bool): Fate {
    Fate(0, false, {DispatchPending} + if own then {FlagOwn} else {}, [], 0)
  }

  function Pieces(n: nat): (r: set<nat>)
    ensures |r| == n && forall p: nat :: p in r <==> p < n
  {
    if n == 0 then {}
    else
      var fewer := Pieces(n - 1);
      assert n - 1 !in fewer;
      assert |fewer + {n - 1}| == |fewer| + 1;
      fewer + {n - 1}
  }

  function Begin(a: Attempt): State {
    State(AfterForwarding(Received(a.own), a.hopsLeft, a.sending),
          if a.hopsLeft && a.sending.Sending? then Pieces(a.sending.pieces) else {})
  }

  function Step(s: State, r: Result): State {
    State(AfterResult(s.fate, r.success), s.outstanding - {r.piece})
  }

  function Run(a: Attempt, results: seq<Result>): State {
    if results == [] then Begin(a)
    else Step(Run(a, results[..|results| - 1]), results[|results| - 1])
  }

  /** Results come for outstanding pieces only, in any order. */
  predicate Possible(a: Attempt, results: seq<Result>) {
    results == [] ||
    (Possible(a, results[..|results| - 1])
     && results[|results| - 1].piece in Run(a, results[..|results| - 1]).outstanding)
  }

  /** Everything was enqueued, and no result so far is a failure. */
  predicate AllWell(a: Attempt, results: seq<Result>) {
    a.hopsLeft && a.sending.Sending? && a.sending.ok && forall r :: r in results ==> r.success
  }

  /** Sending reported success although it had enqueued nothing. */
  predicate NothingSent(a: Attempt) {
    a.hopsLeft && a.sending == Sending(0, true)
  }

  // ---- The fate is decided once, when nothing is outstanding any more ----

  predicate Undecided(s: Fate, well: bool) {
    s.verdicts == [] && s.discards == 0 && (s.failed <==> !well)
  }

  predicate Decided(s: Fate, well: bool) {
    s.verdicts == [if well then Forwarded else Deleted] && s.discards == 1 && s.constraints == {}
  }

  /** What retains a bundle that is being forwarded; that it is our own only as long as that. */
  predicate Retained(s: Fate, own: bool) {
    s.constraints == if own then {ForwardPending, FlagOwn} else {ForwardPending}
  }

  /** Open pieces keep the bundle, and the last of them seals its fate. */
  predicate Consistent(s: State, own: bool, well: bool) {
    && s.fate.refcount == |s.outstanding|
    && if s.outstanding != {} then Undecided(s.fate, well) && Retained(s.fate, own)
       else Decided(s.fate, well)
  }

  lemma BeginIsConsistent(a: Attempt)
    requires !NothingSent(a)
    ensures Consistent(Begin(a), a.own, AllWell(a, []))
  {
    ForwardingRetains(a.own);
    hide Received;
    if a.hopsLeft && a.sending.Sending? {
      var pieces := Pieces(a.sending.pieces);
      assert pieces == {} <==> a.sending.pieces == 0;
    }
  }

  lemma ForwardingRetains(own: bool)
    ensures var s := Received(own);
      && s.refcount == 0 && !s.failed && s.verdicts == [] && s.discards == 0
      && Retained(s.(constraints := s.constraints + {ForwardPending} - {DispatchPending}), own)
  {
  }

  lemma ResultKeepsConsistent(s: State, r: Result, own: bool, well: bool)
    requires Consistent(s, own, well) && r.piece in s.outstanding
    ensures Consistent(Step(s, r), own, well && r.success)
  {
    assert |s.outstanding - {r.piece}| == |s.outstanding| - 1;
  }

  lemma AllWellStep(a: Attempt, results: seq<Result>)
    requires results != []
    ensures var n := |results| - 1;
      AllWell(a, results) <==> AllWell(a, results[..n]) && results[n].success
  {
    var n := |results| - 1;
    assert results == results[..n] + [results[n]];
  }

  /**
   In every run the reference count is the number of outstanding pieces, and the
   bundle is retained as pending until it is discarded, exactly once: when the last piece
   has come back. It is then declared forwarded if and only if everything was enqueued and transmitted.
   */
  lemma {:induction false} FateDecidedOnce(a: Attempt, results: seq<Result>)
    requires Possible(a, results) && !NothingSent(a)
    ensures Consistent(Run(a, results), a.own, AllWell(a, results))
  {
    if results == [] {
      BeginIsConsistent(a);
    } else {
      var n := |results| - 1;
      FateDecidedOnce(a, results[..n]);
      AllWellStep(a, results);
      ResultKeepsConsistent(Run(a, results[..n]), results[n], a.own, AllWell(a, results[..n]));
    }
  }

  /** With every piece back, the bundle is decided exactly unless sending succeeded with nothing. */
  lemma DecidedInTheEndExactly(a: Attempt, results: seq<Result>)
    requires Possible(a, results) && Run(a, results).outstanding == {}
    ensures Run(a, results).fate.discards == 1 <==> !NothingSent(a)
    ensures NothingSent(a) ==>
      results == [] && Run(a, results).fate.verdicts == [] && Retained(Run(a, results).fate, a.own)
  {
    if NothingSent(a) {
      NothingComesBack(a, results);
    } else {
      FateDecidedOnce(a, results);
    }
  }

  lemma {:induction false} NothingComesBack(a: Attempt, results: seq<Result>)
    requires Possible(a, results) && NothingSent(a)
    ensures results == []
  {
    if results != [] {
      NothingComesBack(a, results[..|results| - 1]);
    }
  }

  /** That happens exactly to a bundle that is too large although it has no payload. */
  lemma NothingSentExactly(b: Bundle7.Bundle, mbs: nat, mustNotFragment: bool, room: nat)
    requires b.WellFormed() && room > 0
    ensures SendBundle(b, mbs, mustNotFragment, room) == Sending(0, true) <==>
      mbs != 0 && Bundle7.SerializedSize(b) > mbs && !mustNotFragment && |b.payload.data| == 0
  {
    hide Bundle7.SerializedSize, Bundle7.MinSize;
    if |b.payload.data| > 0 {
      CutNeedsAPiece(b, mbs, room);
    }
  }

  lemma CutNeedsAPiece(b: Bundle7.Bundle, mbs: nat, room: nat)
    requires b.WellFormed() && |b.payload.data| > 0
    ensures var r := Fragmentation.FragmentAndEnqueue(b, mbs, room); r.ok ==> |r.sent| > 0
  {
    hide Bundle7.SerializedSize, Bundle7.MinSize, Fragmentation.Cut;
    Fragmentation.CutUnfolds(b, mbs, 0, Bundle7.FirstMinSize(b), room);
  }

  /**
   What sending comes to, given room for everything: a bundle within the limit, or without
   one, is enqueued whole; one above it is refused if it must not be fragmented or the limit
   is below the minimum of a first fragment, and otherwise, above that, enqueued in pieces.
   */
  lemma SendsExactly(b: Bundle7.Bundle, mbs: nat, mustNotFragment: bool, room: nat)
    requires b.WellFormed() && room > |b.payload.data| > 0 && (mbs != 0 ==> Fragmentation.InRange(b, mbs))
    ensures var r := SendBundle(b, mbs, mustNotFragment, room);
      if mbs == 0 || Bundle7.SerializedSize(b) <= mbs then r == Sending(1, true)
      else if mustNotFragment then r == Sending(0, false)
      else if mbs < Bundle7.FirstMinSize(b) then r == Sending(0, false)
      else if mbs > Bundle7.FirstMinSize(b) then r.ok && 2 <= r.pieces <= |b.payload.data|
      else r.pieces > 0
  {
    hide Bundle7.SerializedSize, Bundle7.MinSize, Fragmentation.FragmentAndEnqueue;
    if mbs != 0 && Bundle7.SerializedSize(b) > mbs && !mustNotFragment {
      if mbs < Bundle7.FirstMinSize(b) {
        Fragmentation.BelowMinimum(b, mbs, room);
      } else if mbs > Bundle7.FirstMinSize(b) {
        Fragmentation.CutIsGood(b, mbs, room);
        Fragmentation.CutInPieces(b, mbs, room);
      } else {
        Fragmentation.EmptyFirstFragment(b, mbs, room);
      }
    }
  }

  /** With a full queue nothing is enqueued, and sending fails unless there is nothing to be sent. */
  lemma FullQueueFails(b: Bundle7.Bundle, mbs: nat, mustNotFragment: bool)
    requires b.WellFormed()
    ensures var r := SendBundle(b, mbs, mustNotFragment, 0);
      r.pieces == 0 && (|b.payload.data| > 0 ==> !r.ok)
  {
    hide Bundle7.SerializedSize, Bundle7.MinSize, Fragmentation.Cut;
    if |b.payload.data| > 0 {
      Fragmentation.CutUnfolds(b, mbs, 0, Bundle7.FirstMinSize(b), 0);
    } else {
      Fragmentation.CutEnds(b, mbs, 0, Bundle7.FirstMinSize(b), 0);
    }
  }

  // ---- The code ----

  class ForwardedBundle {
    var refcount: int
    var failed: bool
    var constraints: set<Constraint>
    var verdicts: seq<Verdict>
    var discards: nat

    constructor (own: bool)
      ensures State() == Received(own)
    {
      refcount, failed, verdicts, discards := 0, false, [], 0;
      constraints := {DispatchPending} + if own then {FlagOwn} else {};
    }

    function State(): Fate
      reads this
    {
      Fate(refcount, failed, constraints, verdicts, discards)
    }

    method RemoveConstraint(c: Constraint, discard: bool)
      modifies this
      ensures State() ==
        var left := old(State()).(constraints := old(constraints) - {c});
        if discard && left.constraints == {} then Discarded(left) else left
    {
      constraints := constraints - {c};
      if discard && constraints == {} {
        discards := discards + 1;
      }
    }

    method Delete()
      modifies this
      ensures State() == AfterDeletion(old(State()))
    {
      verdicts := verdicts + [Deleted];
      constraints := {};
      discards := discards + 1;
    }

    method ForwardingFailed()
      modifies this
      ensures State() == AfterFailure(old(State()))
    {
      failed := true;
      if refcount != 0 {
        return;
      }
      Delete();
    }

    method ForwardingSuccess()
      modifies this
      ensures State() == AfterSuccess(old(State()))
    {
      if refcount != 0 {
        return;
      }
      if failed {
        ForwardingFailed();
        return;
      }
      verdicts := verdicts + [Forwarded];
      RemoveConstraint(ForwardPending, false);
      RemoveConstraint(FlagOwn, true);
    }

    method TransmissionResult(success: bool)
      modifies this
      ensures State() == AfterResult(old(State()), success)
    {
      refcount := refcount - 1;
      if success {
        ForwardingSuccess();
      } else {
        ForwardingFailed();
      }
    }

    method Forward(hopsLeft: bool, sending: Sending)
      modifies this
      ensures State() == AfterForwarding(old(State()), hopsLeft, sending)
    {
      if !hopsLeft {
        Delete();
        return;
      }
      constraints := constraints + {ForwardPending};
      RemoveConstraint(DispatchPending, false);
      var ok := false;
      if sending.Sending? {
        for i := 0 to sending.pieces
          invariant State() == old(State()).(refcount := old(refcount) + i,
            constraints := old(constraints) + {ForwardPending} - {DispatchPending})
        {
          refcount := refcount + 1;
        }
        ok := sending.ok;
      }
      if !ok {
        ForwardingFailed();
      }
    }
  }
}
