/**
 Local delivery of bundles and fragments: duplicate suppression, storing of
 fragments, reassembly and hand-over to the application (section 5.7 of RFC 5050,
 sections 5.7 to 5.9 of RFC 9171). A check in the code lacks a return; the functions come
 with it, as it is meant, and without it, as it is written.
 */
module LocalDelivery {
  import opened Bytes
  import opened KnownBundles
  import opened Reassembly

  datatype Delivery = Delivery(origin: Origin, data: seq<Byte>)

  /** A bundle for a local endpoint, the clock, and whether an agent is registered for the endpoint. */
  datatype Arrival = Arrival(now: nat, bundle: Bundle, hasAgent: bool)

  datatype Context = Context(
    known: seq<Known>, slots: seq<seq<Bundle>>, delivered: seq<Delivery>, released: seq<Bundle>)
  {
    predicate Valid() {
      forall slot :: slot in slots ==> |slot| > 0
    }

    function Release(b: Bundle): Context {
      this.(released := released + [b])
    }
  }

  const INIT := Context([], [], [], [])

  /** Index of the first slot whose fragments belong to `origin`, or the number of slots. */
  function FindSlot(slots: seq<seq<Bundle>>, origin: Origin): (i: nat)
    requires forall slot :: slot in slots ==> |slot| > 0
    ensures i <= |slots|
    ensures i < |slots| ==> slots[i][0].origin == origin
    ensures forall j :: 0 <= j < i ==> slots[j][0].origin != origin
  {
    if slots == [] then 0
    else if slots[0][0].origin == origin then 0
    else 1 + FindSlot(slots[1..], origin)
  }

  function AfterReassembly(c: Context, i: nat): Context
    requires c.Valid() && i < |c.slots|
  {
    var list := c.slots[i];
    if !GapScan(list, 0) then c
    else
      Context(AddReassembled(c.known, list[0]), c.slots[..i] + c.slots[i + 1..],
              c.delivered + [Delivery(list[0].origin, Assemble(list, Zeros(list[0].total)))],
              c.released + list)
  }

  function PutFragment(slots: seq<seq<Bundle>>, b: Bundle): (r: seq<seq<Bundle>>)
    requires forall slot :: slot in slots ==> |slot| > 0
    ensures forall slot :: slot in r ==> |slot| > 0
    ensures FindSlot(slots, b.origin) < |r|
  {
    var i := FindSlot(slots, b.origin);
    if i < |slots| then slots[i := AddFragment(slots[i], b)] else slots + [[b]]
  }

  function StoreFragment(c: Context, b: Bundle): Context
    requires c.Valid()
  {
    AfterReassembly(c.(slots := PutFragment(c.slots, b)), FindSlot(c.slots, b.origin))
  }

  /** A fragment of an ADU that was put together before is dropped. */
  function AfterAttempt(c: Context, b: Bundle): Context
    requires c.Valid()
  {
    if ReassembledIsKnown(c.known, b) then c.Release(b) else StoreFragment(c, b)
  }

  function Accept(c: Context, a: Arrival): Context
    requires c.Valid()
  {
    var b := a.bundle;
    if !b.isAdminRecord && !a.hasAgent then c.Release(b)
    else if b.isFragment then AfterAttempt(c, b)
    else c.(delivered := c.delivered + [Delivery(b.origin, b.payload)], released := c.released + [b])
  }

  function AfterDelivery(c: Context, a: Arrival): Context
    requires c.Valid()
  {
    var (isKnown, after) := Record(c.known, a.bundle, a.now);
    var recorded := c.(known := after);
    if isKnown then recorded.Release(a.bundle) else Accept(recorded, a)
  }

  lemma DeliverKeepsValid(c: Context, a: Arrival)
    requires c.Valid()
    ensures AfterDelivery(c, a).Valid()
  {
  }

  // ---- To the letter ----

  /** `bundle_attempt_reassembly` does not return behind the drop: the fragment is stored nevertheless. */
  function AttemptAsWritten(c: Context, b: Bundle): Context
    requires c.Valid()
  {
    StoreFragment(if ReassembledIsKnown(c.known, b) then c.Release(b) else c, b)
  }

  function AcceptAsWritten(c: Context, a: Arrival): Context
    requires c.Valid()
  {
    var b := a.bundle;
    if !b.isAdminRecord && !a.hasAgent then c.Release(b)
    else if b.isFragment then AttemptAsWritten(c, b)
    else c.(delivered := c.delivered + [Delivery(b.origin, b.payload)], released := c.released + [b])
  }

  function AfterDeliveryAsWritten(c: Context, a: Arrival): (r: Context)
    requires c.Valid()
    ensures r.Valid()
  {
    var (isKnown, after) := Record(c.known, a.bundle, a.now);
    var recorded := c.(known := after);
    if isKnown then recorded.Release(a.bundle) else AcceptAsWritten(recorded, a)
  }

  function RunAsWritten(arrivals: seq<Arrival>): (c: Context)
    ensures c.Valid()
  {
    if arrivals == [] then INIT
    else AfterDeliveryAsWritten(RunAsWritten(arrivals[..|arrivals| - 1]), arrivals[|arrivals| - 1])
  }

  /** Without an agent nothing but administrative records is delivered or stored; a bundle is known all the same. */
  lemma WithoutAgent(c: Context, a: Arrival)
    requires c.Valid() && !a.hasAgent && a.now <= a.bundle.Deadline()
    ensures var r, b := AfterDeliveryAsWritten(c, a), a.bundle;
      && (!b.isAdminRecord ==>
            && r.delivered == c.delivered && r.slots == c.slots && r.released == c.released + [b]
            && Finds(r.known, b.Id(), b.Deadline()))
      && (b.isAdminRecord && !b.isFragment && !Finds(c.known, b.Id(), b.Deadline()) ==>
            r.delivered == c.delivered + [Delivery(b.origin, b.payload)])
  {
    var b := a.bundle;
    RecordFindsExactly(c.known, b, a.now);
    RecordedIsFound(c.known, Known(b.Id(), b.Deadline()), a.now);
  }

  /** Once recorded, a bundle is found. */
  lemma {:induction false} RecordedIsFound(list: seq<Known>, entry: Known, now: nat)
    requires now <= entry.deadline
    ensures Finds(Search(list, entry, now).1, entry.id, entry.deadline)
  {
    var after := Search(list, entry, now).1;
    if list == [] || list[0].id == entry.id {
      FindsTail(after, entry.id, entry.deadline);
    } else if list[0].deadline < now {
      RecordedIsFound(list[1..], entry, now);
    } else if list[0].deadline > entry.deadline {
      FindsTail(after, entry.id, entry.deadline);
    } else {
      RecordedIsFound(list[1..], entry, now);
      FindsTail(after, entry.id, entry.deadline);
      assert after[1..] == Search(list[1..], entry, now).1;
    }
  }

  // ---- Runs ----

  /** The context after a run of arrivals. */
  function Run(arrivals: seq<Arrival>): (c: Context)
    ensures c.Valid()
  {
    if arrivals == [] then INIT
    else
      var before := Run(arrivals[..|arrivals| - 1]);
      DeliverKeepsValid(before, arrivals[|arrivals| - 1]);
      AfterDelivery(before, arrivals[|arrivals| - 1])
  }

  // ---- Every bundle is either stored or released, once ----

  function Stored(slots: seq<seq<Bundle>>): multiset<Bundle> {
    if slots == [] then multiset{} else multiset(slots[0]) + Stored(slots[1..])
  }

  lemma {:induction false} AddCounts(list: seq<Bundle>, b: Bundle)
    ensures multiset(AddFragment(list, b)) == multiset(list) + multiset{b}
    ensures |AddFragment(list, b)| > 0
  {
    if list != [] && list[0].offset <= b.offset {
      AddCounts(list[1..], b);
      assert list == [list[0]] + list[1..];
    }
  }

  lemma {:induction false} StoredSplit(slots: seq<seq<Bundle>>, i: nat)
    requires i < |slots|
    ensures Stored(slots) == Stored(slots[..i] + slots[i + 1..]) + multiset(slots[i])
  {
    if i == 0 {
      assert slots[..0] + slots[1..] == slots[1..];
    } else {
      StoredSplit(slots[1..], i - 1);
      var without := slots[..i] + slots[i + 1..];
      assert without[1..] == slots[1..][..i - 1] + slots[1..][i..];
    }
  }

  lemma {:induction false} StoredAppend(slots: seq<seq<Bundle>>, slot: seq<Bundle>)
    ensures Stored(slots + [slot]) == Stored(slots) + multiset(slot)
  {
    StoredSplit(slots + [slot], |slots|);
    assert (slots + [slot])[..|slots|] + (slots + [slot])[|slots| + 1..] == slots;
  }

  lemma PutCounts(slots: seq<seq<Bundle>>, b: Bundle)
    requires forall slot :: slot in slots ==> |slot| > 0
    ensures Stored(PutFragment(slots, b)) == Stored(slots) + multiset{b}
  {
    var i := FindSlot(slots, b.origin);
    if i < |slots| {
      var r := slots[i := AddFragment(slots[i], b)];
      AddCounts(slots[i], b);
      StoredSplit(slots, i);
      StoredSplit(r, i);
      assert r[..i] + r[i + 1..] == slots[..i] + slots[i + 1..];
    } else {
      StoredAppend(slots, [b]);
      assert multiset([b]) == multiset{b};
    }
  }

  lemma ReassemblyConserves(c: Context, i: nat)
    requires c.Valid() && i < |c.slots|
    ensures var r := AfterReassembly(c, i);
      Stored(r.slots) + multiset(r.released) == Stored(c.slots) + multiset(c.released)
  {
    StoredSplit(c.slots, i);
    assert multiset(c.released + c.slots[i]) == multiset(c.released) + multiset(c.slots[i]);
  }

  /** One arrival adds its bundle to the stored or to the released ones, and none gets lost. */
  lemma DeliverConserves(c: Context, a: Arrival)
    requires c.Valid()
    ensures var r := AfterDelivery(c, a);
      Stored(r.slots) + multiset(r.released) == Stored(c.slots) + multiset(c.released) + multiset{a.bundle}
  {
    var b := a.bundle;
    var recorded := c.(known := Record(c.known, b, a.now).1);
    assert multiset(c.released + [b]) == multiset(c.released) + multiset{b};
    if !Record(c.known, b, a.now).0 && b.isFragment {
      PutCounts(c.slots, b);
      ReassemblyConserves(recorded.(slots := PutFragment(c.slots, b)), FindSlot(c.slots, b.origin));
    }
  }

  function Bundles(arrivals: seq<Arrival>): multiset<Bundle> {
    if arrivals == [] then multiset{}
    else Bundles(arrivals[..|arrivals| - 1]) + multiset{arrivals[|arrivals| - 1].bundle}
  }

  /** Over every run, each received bundle is stored or has been released, exactly once. */
  lemma {:induction false} NothingLostOrFreedTwice(arrivals: seq<Arrival>)
    ensures Stored(Run(arrivals).slots) + multiset(Run(arrivals).released) == Bundles(arrivals)
  {
    if arrivals != [] {
      var n := |arrivals| - 1;
      NothingLostOrFreedTwice(arrivals[..n]);
      DeliverConserves(Run(arrivals[..n]), arrivals[n]);
    }
  }

  // ---- The code ----

  /** A new fragment's place is behind a fragment with no larger offset. */
  lemma StepOverFragment(list: seq<Bundle>, b: Bundle, i: nat)
    requires i < |list| && list[i].offset <= b.offset
    ensures list[..i] + AddFragment(list[i..], b) == list[..i + 1] + AddFragment(list[i + 1..], b)
  {
    assert list[i..][0] == list[i] && list[i..][1..] == list[i + 1..];
    assert list[..i + 1] == list[..i] + [list[i]];
    assert AddFragment(list[i..], b) == [list[i]] + AddFragment(list[i + 1..], b);
  }

  class BundleProcessor {
    var known: seq<Known>
    var slots: seq<seq<Bundle>>
    var delivered: seq<Delivery>
    var released: seq<Bundle>

    constructor ()
      ensures State() == INIT
    {
      known, slots, delivered, released := [], [], [], [];
    }

    function State(): Context
      reads this
    {
      Context(known, slots, delivered, released)
    }

    method RecordAddAndCheckKnown(b: Bundle, now: nat) returns (isKnown: bool)
      modifies this`known
      ensures (isKnown, known) == Record(old(known), b, now)
    {
      var deadline := b.Deadline();
      if deadline < now {
        return true;
      }
      ghost var entry := Known(b.Id(), deadline);
      ghost var (found, after) := Search(known, entry, now);
      var i := 0;
      while i < |known|
        invariant 0 <= i <= |known|
        invariant Search(known[i..], entry, now).0 == found
        invariant after == known[..i] + Search(known[i..], entry, now).1
        decreases |known| - i
      {
        ghost var rest := known[i..];
        assert rest[0] == known[i] && rest[1..] == known[i + 1..];
        if known[i].id == b.Id() {
          assert known[..i] + known[i..] == known;
          return true;
        } else if known[i].deadline < now {
          ghost var front := known[..i];
          known := known[..i] + known[i + 1..];
          assert known[..i] == front && known[i..] == rest[1..];
          continue;
        } else if known[i].deadline > deadline {
          assert Search(rest, entry, now) == (false, [entry] + rest);
          break;
        }
        ghost var tail := Search(rest[1..], entry, now).1;
        assert known[..i] + ([known[i]] + tail) == known[..i + 1] + tail;
        i := i + 1;
      }
      if i == |known| {
        assert known[i..] == [] && [entry] + known[i..] == [entry];
      }
      assert Search(known[i..], entry, now) == (false, [entry] + known[i..]);
      assert known[..i] + [entry] + known[i..] == known[..i] + ([entry] + known[i..]);
      known := known[..i] + [Known(b.Id(), deadline)] + known[i..];
      return false;
    }

    method ReassembledIsKnown(b: Bundle) returns (isKnown: bool)
      ensures isKnown == KnownBundles.ReassembledIsKnown(known, b)
    {
      var i := 0;
      while i < |known|
        invariant 0 <= i <= |known|
        invariant KnownBundles.ReassembledIsKnown(known, b) == KnownBundles.ReassembledIsKnown(known[i..], b)
      {
        assert known[i..][0] == known[i] && known[i..][1..] == known[i + 1..];
        if known[i].id == b.WholeId() {
          return true;
        } else if known[i].deadline > b.Deadline() {
          return false;
        }
        i := i + 1;
      }
      return false;
    }

    method AddReassembledAsKnown(b: Bundle)
      modifies this`known
      ensures known == AddReassembled(old(known), b)
    {
      var entry := Known(b.WholeId(), b.Deadline());
      var i := 0;
      while i < |known| && known[i].deadline <= entry.deadline
        invariant 0 <= i <= |known|
        invariant Insert(known, entry) == known[..i] + Insert(known[i..], entry)
      {
        assert known[i..][0] == known[i] && known[i..][1..] == known[i + 1..];
        i := i + 1;
      }
      known := known[..i] + [entry] + known[i..];
    }

    method AddToReassemblyList(k: nat, b: Bundle)
      requires k < |slots|
      modifies this`slots
      ensures slots == old(slots)[k := AddFragment(old(slots)[k], b)]
    {
      var list := slots[k];
      var i := 0;
      while i < |list| && list[i].offset <= b.offset
        invariant 0 <= i <= |list|
        invariant slots == old(slots)
        invariant AddFragment(list, b) == list[..i] + AddFragment(list[i..], b)
      {
        StepOverFragment(list, b, i);
        i := i + 1;
      }
      assert AddFragment(list[i..], b) == [b] + list[i..];
      assert list[..i] + [b] + list[i..] == list[..i] + ([b] + list[i..]);
      slots := slots[k := list[..i] + [b] + list[i..]];
    }

    method CanReassemble(list: seq<Bundle>) returns (complete: bool)
      ensures complete == GapScan(list, 0)
    {
      var i, pos := 0, 0;
      while i < |list|
        invariant 0 <= i <= |list| && 0 <= pos
        invariant GapScan(list, 0) == GapScan(list[i..], pos)
      {
        assert list[i..][0] == list[i] && list[i..][1..] == list[i + 1..];
        if list[i].offset > pos {
          return false;
        }
        pos := Add64(list[i].offset, |list[i].payload|);
        if pos >= list[i].total {
          return true;
        }
        i := i + 1;
      }
      return false;
    }

    /** `memcpy` of `n` bytes of `data`, from `off` on, to position `pos` of the buffer. */
    static method CopyBytes(buffer: array<Byte>, pos: nat, data: seq<Byte>, off: nat, n: nat)
      requires pos + n <= buffer.Length && off + n <= |data|
      modifies buffer
      ensures buffer[..] == old(buffer[..pos]) + data[off..off + n] + old(buffer[pos + n..])
    {
      for k := 0 to n
        invariant forall j :: 0 <= j < buffer.Length && !(pos <= j < pos + k) ==> buffer[j] == old(buffer[j])
        invariant forall j :: pos <= j < pos + k ==> buffer[j] == data[off + (j - pos)]
      {
        buffer[pos + k] := data[off + k];
      }
    }

    static method CopyFragment(b: Bundle, buffer: array<Byte>, pos: nat) returns (next: nat)
      requires pos <= buffer.Length < U64_LIMIT
      modifies buffer
      ensures next <= buffer.Length
      ensures Copy(next, buffer[..]) == CopyOne(b, Copy(pos, old(buffer[..])))
    {
      ghost var before := buffer[..];
      var off := Sub64(pos, b.offset);
      next := pos;
      if off < |b.payload| {
        var n := Min(|b.payload| - off, buffer.Length - pos);
        assert before[..pos] == buffer[..pos] && before[pos + n..] == buffer[pos + n..];
        CopyBytes(buffer, pos, b.payload, off, n);
        next := pos + n;
      }
    }

    method CopyFragments(list: seq<Bundle>, buffer: array<Byte>)
      requires buffer.Length < U64_LIMIT
      modifies buffer, this`released
      ensures buffer[..] == CopyAll(list, Copy(0, old(buffer[..]))).buffer
      ensures released == old(released) + list
    {
      hide CopyOne;
      var i, pos := 0, 0;
      while i < |list|
        invariant 0 <= i <= |list| && 0 <= pos <= buffer.Length
        invariant CopyAll(list, Copy(0, old(buffer[..]))) == CopyAll(list[i..], Copy(pos, buffer[..]))
        invariant released == old(released) + list[..i]
      {
        assert list[i..][0] == list[i] && list[i..][1..] == list[i + 1..];
        var b := list[i];
        pos := CopyFragment(b, buffer, pos);
        released := released + [b];
        assert list[..i + 1] == list[..i] + [b];
        i := i + 1;
      }
      assert list[..|list|] == list;
    }

    method TryReassemble(k: nat)
      requires State().Valid() && k < |slots|
      modifies this
      ensures State() == AfterReassembly(old(State()), k)
    {
      var list := slots[k];
      var complete := CanReassemble(list);
      if !complete {
        return;
      }
      var head := list[0];
      var buffer := new Byte[head.total](_ => 0);
      assert buffer[..] == Zeros(head.total);
      AddReassembledAsKnown(head);
      CopyFragments(list, buffer);
      slots := slots[..k] + slots[k + 1..];
      delivered := delivered + [Delivery(head.origin, buffer[..])];
    }

    /** The walk over the lists: the fragment goes to the list of its ADU, or starts a new one. */
    method FindAndStore(b: Bundle)
      requires State().Valid()
      modifies this
      ensures State() == StoreFragment(old(State()), b)
    {
      var k := 0;
      while k < |slots|
        invariant 0 <= k <= FindSlot(slots, b.origin)
      {
        if slots[k][0].origin == b.origin {
          AddToReassemblyList(k, b);
          TryReassemble(k);
          return;
        }
        k := k + 1;
      }
      slots := slots + [[]];
      AddToReassemblyList(k, b);
      assert AddFragment([], b) == [b];
      assert slots == old(slots) + [[b]];
      TryReassemble(k);
    }

    /** The drop does not return. */
    method AttemptReassembly(b: Bundle)
      requires State().Valid()
      modifies this
      ensures State() == AttemptAsWritten(old(State()), b)
    {
      var isKnown := ReassembledIsKnown(b);
      if isKnown {
        released := released + [b];
      }
      FindAndStore(b);
    }

    method DeliverLocal(a: Arrival)
      requires State().Valid()
      modifies this
      ensures State() == AfterDeliveryAsWritten(old(State()), a)
      ensures State().Valid()
    {
      var b := a.bundle;
      var isKnown := RecordAddAndCheckKnown(b, a.now);
      if isKnown || (!b.isAdminRecord && !a.hasAgent) {
        released := released + [b];
      } else if b.isFragment {
        AttemptReassembly(b);
      } else {
        released := released + [b];
        delivered := delivered + [Delivery(b.origin, b.payload)];
      }
    }
  }
}
