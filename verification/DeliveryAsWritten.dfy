/**
 Local delivery to the letter. The check for a delivered original does not return, so a
 fragment that comes late is released and stored as well, and late fragments can put a
 delivered ADU together again. Runs without such a fragment are as meant; fragments of
 one cut never are such fragments.
 */
module DeliveryAsWritten {
  import opened Bytes
  import opened KnownBundles
  import opened Reassembly
  import opened LocalDelivery
  import opened DeliveryTracks
  import opened ExactlyOnce
  import B = Bundle7
  import C = EndToEnd

  // ---- Exactly the late fragments make a difference ----

  /** A new, unexpired fragment of an ADU that is known as delivered, on its way to the fragment lists. */
  predicate Late(c: Context, a: Arrival) {
    var b := a.bundle;
    var (isKnown, after) := Record(c.known, b, a.now);
    !isKnown && (b.isAdminRecord || a.hasAgent) && b.isFragment && ReassembledIsKnown(after, b)
  }

  function Held(c: Context): multiset<Bundle> {
    Stored(c.slots) + multiset(c.released)
  }

  lemma AttemptCounts(c: Context, b: Bundle)
    requires c.Valid()
    ensures Held(AttemptAsWritten(c, b)) ==
      Held(c) + multiset{b} + if ReassembledIsKnown(c.known, b) then multiset{b} else multiset{}
  {
    var before := if ReassembledIsKnown(c.known, b) then c.Release(b) else c;
    assert multiset(c.released + [b]) == multiset(c.released) + multiset{b};
    PutCounts(c.slots, b);
    ReassemblyConserves(before.(slots := PutFragment(c.slots, b)), FindSlot(c.slots, b.origin));
  }

  /** One arrival is held once, or twice if it is a late fragment: released, and stored nevertheless. */
  lemma ArrivalCounts(c: Context, a: Arrival)
    requires c.Valid()
    ensures Held(AfterDeliveryAsWritten(c, a)) ==
      Held(c) + multiset{a.bundle} + if Late(c, a) then multiset{a.bundle} else multiset{}
  {
    hide AttemptAsWritten;
    var b := a.bundle;
    var recorded := c.(known := Record(c.known, b, a.now).1);
    assert multiset(c.released + [b]) == multiset(c.released) + multiset{b};
    AttemptCounts(recorded, b);
  }

  /** A step is as meant exactly if its fragment is not late. */
  lemma StepIsIntendedExactly(c: Context, a: Arrival)
    requires c.Valid()
    ensures AfterDeliveryAsWritten(c, a) == AfterDelivery(c, a) <==> !Late(c, a)
  {
    if Late(c, a) {
      ArrivalCounts(c, a);
      DeliverConserves(c, a);
      assert |Held(AfterDeliveryAsWritten(c, a))| == |Held(c)| + 2;
      assert |Held(AfterDelivery(c, a))| == |Held(c)| + 1;
    }
  }

  ghost predicate NoneLate(arrivals: seq<Arrival>) {
    forall k :: 0 <= k < |arrivals| ==> !Late(Run(arrivals[..k]), arrivals[k])
  }

  lemma NoneLateStep(arrivals: seq<Arrival>)
    requires arrivals != []
    ensures var n := |arrivals| - 1;
      NoneLate(arrivals) <==> NoneLate(arrivals[..n]) && !Late(Run(arrivals[..n]), arrivals[n])
  {
    hide Late, Run;
    var n := |arrivals| - 1;
    forall k | 0 <= k < n ensures arrivals[..n][..k] == arrivals[..k] && arrivals[..n][k] == arrivals[k] {
    }
  }

  lemma {:induction false} IntendedHolds(arrivals: seq<Arrival>)
    ensures |Held(Run(arrivals))| == |arrivals|
  {
    if arrivals != [] {
      IntendedHolds(arrivals[..|arrivals| - 1]);
      DeliverConserves(Run(arrivals[..|arrivals| - 1]), arrivals[|arrivals| - 1]);
    }
  }

  lemma {:induction false} AsWrittenHolds(arrivals: seq<Arrival>)
    ensures |Held(RunAsWritten(arrivals))| >= |arrivals|
    ensures RunAsWritten(arrivals) == Run(arrivals) || |Held(RunAsWritten(arrivals))| > |arrivals|
    ensures RunAsWritten(arrivals) == Run(arrivals) <==> NoneLate(arrivals)
  {
    hide AfterDeliveryAsWritten, AfterDelivery, Late, Held, NoneLate;
    if arrivals == [] {
      NothingIsLate();
    } else {
      var n := |arrivals| - 1;
      var front, a := arrivals[..n], arrivals[n];
      AsWrittenHolds(front);
      NoneLateStep(arrivals);
      ArrivalCounts(RunAsWritten(front), a);
      StepIsIntendedExactly(Run(front), a);
      IntendedHolds(front);
      IntendedHolds(arrivals);
      ArrivalCounts(Run(front), a);
    }
  }

  lemma NothingIsLate()
    ensures NoneLate([])
  {
  }

  /** Over every run the code does what is meant exactly if no late fragment arrives. */
  lemma RunIsIntendedExactly(arrivals: seq<Arrival>)
    ensures RunAsWritten(arrivals) == Run(arrivals) <==>
      forall k :: 0 <= k < |arrivals| ==> !Late(Run(arrivals[..k]), arrivals[k])
  {
    hide Late, Run, RunAsWritten;
    AsWrittenHolds(arrivals);
  }

  /** Every bundle received is released or stored exactly once, exactly if no late fragment arrives. */
  lemma FreedOnceExactly(arrivals: seq<Arrival>)
    ensures Held(RunAsWritten(arrivals)) == Bundles(arrivals) <==> NoneLate(arrivals)
  {
    hide Late, Run, RunAsWritten, Held, NoneLate, Bundles;
    AsWrittenHolds(arrivals);
    NothingLostOrFreedTwice(arrivals);
    BundlesSize(arrivals);
    HeldMeans(Run(arrivals));
  }

  lemma HeldMeans(c: Context)
    ensures Held(c) == Stored(c.slots) + multiset(c.released)
  {
  }

  lemma {:induction false} BundlesSize(arrivals: seq<Arrival>)
    ensures |Bundles(arrivals)| == |arrivals|
  {
    if arrivals != [] {
      BundlesSize(arrivals[..|arrivals| - 1]);
    }
  }

  // ---- One ADU at a time ----

  /** The step of a track without the return. */
  function StepAsWritten(t: Track, a: Arrival): Track {
    var b := a.bundle;
    if Expired(a) || Key(b) in t.seen then t
    else
      var seen := t.(seen := t.seen + {Key(b)});
      if !b.isAdminRecord && !a.hasAgent then seen
      else if b.isFragment then AfterScan(seen, AddFragment(seen.stored, b))
      else seen.(delivered := seen.delivered + [b.payload])
  }

  function TrackAsWritten(arrivals: seq<Arrival>, origin: Origin): Track {
    if arrivals == [] then NEW
    else
      var n := |arrivals| - 1;
      var before := TrackAsWritten(arrivals[..n], origin);
      if arrivals[n].bundle.origin == origin then StepAsWritten(before, arrivals[n]) else before
  }

  /** A new, unexpired fragment, while the set holds the whole ADU. */
  predicate LateInTrack(t: Track, a: Arrival) {
    var b := a.bundle;
    && !Expired(a) && Key(b) !in t.seen && (b.isAdminRecord || a.hasAgent) && b.isFragment
    && (0, b.total as nat) in t.seen + {Key(b)}
  }

  lemma LateIsLateInTrack(world: World, c: Context, a: Arrival, t: Track, last: nat)
    requires Sound(world, c) && Belongs(world, a.bundle) && last <= a.now
    requires Agrees(world, c, a.bundle.origin, t, last)
    ensures Late(c, a) <==> LateInTrack(t, a)
  {
    var b := a.bundle;
    RecordRefines(world, c.known, b, t.seen, last, a.now);
    var (isKnown, after) := Record(c.known, b, a.now);
    if !isKnown {
      ReassembledIsMembership(world, after, b, t.seen + {Key(b)}, a.now);
    }
  }

  lemma StoringRefines(world: World, c: Context, b: Bundle, o: Origin, t: Track, now: nat)
    requires Sound(world, c) && Belongs(world, b) && o in world && Agrees(world, c, o, t, now)
    ensures var r := StoreFragment(c, b);
      && Sound(world, r)
      && Agrees(world, r, o, if o == b.origin then AfterScan(t, AddFragment(t.stored, b)) else t, now)
  {
    PutChangesOneSlot(c.slots, b, o);
    PutBelongs(world, c, b);
    var put := c.(slots := PutFragment(c.slots, b));
    var list := AddFragment(t.stored, b);
    var u := if o == b.origin then t.(stored := list) else t;
    assert Agrees(world, put, o, u, now);
    ReassemblyRefines(world, put, FindSlot(c.slots, b.origin), o, u, now);
  }

  lemma ReleaseRefines(world: World, c: Context, b: Bundle, o: Origin, t: Track, now: nat)
    requires Sound(world, c) && o in world && Agrees(world, c, o, t, now)
    ensures Sound(world, c.Release(b)) && Agrees(world, c.Release(b), o, t, now)
  {
  }

  /** One arrival is one step of its track, and leaves the others alone. */
  lemma ArrivalRefinesAsWritten(world: World, c: Context, a: Arrival, o: Origin, t: Track, own: Track, last: nat)
    requires Sound(world, c) && Belongs(world, a.bundle) && last <= a.now
    requires o in world && Agrees(world, c, o, t, last) && Agrees(world, c, a.bundle.origin, own, last)
    ensures Sound(world, AfterDeliveryAsWritten(c, a))
    ensures var u := if o == a.bundle.origin then StepAsWritten(t, a) else t;
      Agrees(world, AfterDeliveryAsWritten(c, a), o, u, a.now)
  {
    hide StoreFragment, AfterScan, AddFragment, Record, ReassembledIsKnown, SlotOf, Deliveries, KnownInWorld;
    var b := a.bundle;
    RecordRefines(world, c.known, b, own.seen, last, a.now);
    if o == b.origin {
      RecordRefines(world, c.known, b, t.seen, last, a.now);
    } else {
      RecordKeepsOthers(world, c.known, b, o, t.seen, last, a.now);
    }
    var (isKnown, after) := Record(c.known, b, a.now);
    var recorded := c.(known := after);
    var u := if o == b.origin && !isKnown then t.(seen := t.seen + {Key(b)}) else t;
    assert Agrees(world, recorded, o, u, a.now);
    assert Sound(world, recorded);
    ReleaseRefines(world, recorded, b, o, u, a.now);
    StoringRefines(world, recorded, b, o, u, a.now);
    StoringRefines(world, recorded.Release(b), b, o, u, a.now);
    DeliveriesAppend(c.delivered, Delivery(b.origin, b.payload), o);
  }

  /** Over every run the code as written is, for each ADU, its track. */
  lemma {:induction false} RunRefinesAsWritten(world: World, arrivals: seq<Arrival>, o: Origin)
    requires Plausible(world, arrivals) && o in world
    ensures Sound(world, RunAsWritten(arrivals))
    ensures Agrees(world, RunAsWritten(arrivals), o, TrackAsWritten(arrivals, o), Last(arrivals))
  {
    hide AfterDeliveryAsWritten, StepAsWritten, Agrees, Sound;
    if arrivals == [] {
      StartRefines(world, o);
    } else {
      var n := |arrivals| - 1;
      var front, a := arrivals[..n], arrivals[n];
      assert a in arrivals;
      BelongsMeans(world, a.bundle);
      RunRefinesAsWritten(world, front, o);
      RunRefinesAsWritten(world, front, a.bundle.origin);
      ArrivalRefinesAsWritten(world, RunAsWritten(front), a, o, TrackAsWritten(front, o),
                              TrackAsWritten(front, a.bundle.origin), Last(front));
    }
  }

  lemma BelongsMeans(world: World, b: Bundle)
    requires Belongs(world, b)
    ensures b.origin in world
  {
  }

  ghost predicate NoneLateFor(arrivals: seq<Arrival>, o: Origin) {
    forall k :: 0 <= k < |arrivals| && arrivals[k].bundle.origin == o ==>
      !LateInTrack(TrackOf(arrivals[..k], o), arrivals[k])
  }

  lemma NoneLateForFront(arrivals: seq<Arrival>, o: Origin)
    requires arrivals != [] && NoneLateFor(arrivals, o)
    ensures NoneLateFor(arrivals[..|arrivals| - 1], o)
  {
    hide LateInTrack, TrackOf;
    var n := |arrivals| - 1;
    forall k | 0 <= k < n ensures arrivals[..n][..k] == arrivals[..k] && arrivals[..n][k] == arrivals[k] {
    }
  }

  lemma {:induction false} SameTrack(arrivals: seq<Arrival>, o: Origin)
    requires NoneLateFor(arrivals, o)
    ensures TrackAsWritten(arrivals, o) == TrackOf(arrivals, o)
  {
    hide NoneLateFor, AfterScan, AddFragment;
    if arrivals != [] {
      var n := |arrivals| - 1;
      NoneLateForFront(arrivals, o);
      SameTrack(arrivals[..n], o);
      if arrivals[n].bundle.origin == o {
        NotLate(arrivals, o, n);
      }
    }
  }

  lemma NotLate(arrivals: seq<Arrival>, o: Origin, k: nat)
    requires NoneLateFor(arrivals, o) && k < |arrivals| && arrivals[k].bundle.origin == o
    ensures !LateInTrack(TrackOf(arrivals[..k], o), arrivals[k])
  {
  }

  /** Without a late fragment of an ADU, whatever happens to other ADUs, its deliveries are as meant. */
  lemma DeliveriesAsMeant(world: World, arrivals: seq<Arrival>, o: Origin)
    requires Plausible(world, arrivals) && o in world && NoneLateFor(arrivals, o)
    ensures Deliveries(RunAsWritten(arrivals).delivered, o) == Deliveries(Run(arrivals).delivered, o)
  {
    hide NoneLateFor;
    RunRefinesAsWritten(world, arrivals, o);
    RunRefinesTracks(world, arrivals, o);
    SameTrack(arrivals, o);
  }

  // ---- Fragments of one cut ----

  lemma FrontIsGenuine(world: World, arrivals: seq<Arrival>, k: nat, o: Origin)
    requires k <= |arrivals| && GenuineRun(world, arrivals) && Deliverable(arrivals, o)
    ensures GenuineRun(world, arrivals[..k]) && Deliverable(arrivals[..k], o)
    ensures Pieces(arrivals[..k], o) <= Pieces(arrivals, o)
  {
    hide Genuine;
    assert forall d :: d in arrivals[..k] ==> d in arrivals;
  }

  /** A piece that has come is in the set of its track. */
  lemma PieceIsSeen(t: Track, pieces: set<Bundle>, adu: seq<Byte>, b: Bundle)
    requires Follows(t, pieces, adu)
    ensures b in pieces ==> Key(b) in t.seen
    ensures (0, |adu|) in t.seen ==> Complete(pieces, adu)
  {
  }

  /** When the ADU is complete every piece of the cut has been seen, so none is new. */
  lemma PieceIsNotLate(world: World, t: Track, pieces: set<Bundle>, a: Arrival, cut: seq<B.Bundle>, i: nat)
    requires Genuine(world, a.bundle) && i < |cut| && C.Carries(a.bundle, cut[i])
    requires C.CutOf(cut, world[a.bundle.origin].data) && C.FromCut(pieces, cut)
    requires Follows(t, pieces, world[a.bundle.origin].data)
    ensures !LateInTrack(t, a)
  {
    hide Complete, C.CutOf, C.FromCut, Follows;
    var b, adu := a.bundle, world[a.bundle.origin].data;
    PieceIsSeen(t, pieces, adu, b);
    if Complete(pieces, adu) {
      C.CompleteHasArrived(pieces, cut, adu);
      assert C.Arrived(pieces, cut[i]);
      var d :| d in pieces && C.Carries(d, cut[i]);
      PieceIsSeen(t, pieces, adu, d);
      assert Key(b) in t.seen;
    }
  }

  lemma CutIsNeverLate(world: World, arrivals: seq<Arrival>, o: Origin, cut: seq<B.Bundle>)
    requires GenuineRun(world, arrivals) && o in world && Deliverable(arrivals, o)
    requires C.CutOf(cut, world[o].data) && C.FromCut(Pieces(arrivals, o), cut)
    ensures NoneLateFor(arrivals, o)
  {
    hide Complete, C.CutOf, Follows, C.Carries, Genuine, TrackOf;
    forall k | 0 <= k < |arrivals| && arrivals[k].bundle.origin == o
      ensures !LateInTrack(TrackOf(arrivals[..k], o), arrivals[k])
    {
      var front, a := arrivals[..k], arrivals[k];
      assert a in arrivals;
      FrontIsGenuine(world, arrivals, k, o);
      TrackFollows(world, front, o);
      if !Expired(a) {
        assert a.bundle in Pieces(arrivals, o);
        var i :| 0 <= i < |cut| && C.Carries(a.bundle, cut[i]);
        PieceIsNotLate(world, TrackOf(front, o), Pieces(front, o), a, cut, i);
      }
    }
  }

  /**
   For the code as written: of an ADU that was cut, fragments cut again included, the pieces
   may come in any order and any number, next to whatever comes of other ADUs; it is
   delivered once, with its bytes, exactly if every piece has come in time.
   */
  lemma EndToEndAsWritten(world: World, arrivals: seq<Arrival>, o: Origin, cut: seq<B.Bundle>)
    requires GenuineRun(world, arrivals) && o in world && Deliverable(arrivals, o)
    requires C.CutOf(cut, world[o].data) && |world[o].data| > 0
    requires C.FromCut(Pieces(arrivals, o), cut)
    ensures Deliveries(RunAsWritten(arrivals).delivered, o) ==
      if C.AllArrived(Pieces(arrivals, o), cut) then [world[o].data] else []
  {
    hide GenuineRun, Deliverable, C.CutOf, C.FromCut, C.AllArrived, Plausible, Run, RunAsWritten, NoneLateFor, Pieces;
    CutIsNeverLate(world, arrivals, o, cut);
    GenuineIsPlausible(world, arrivals);
    DeliveriesAsMeant(world, arrivals, o);
    C.EndToEndExactlyOnce(world, arrivals, o, cut);
  }

  // ---- A run with two late fragments ----

  lemma TwoFragmentsScan(first: Bundle, second: Bundle, adu: seq<Byte>)
    requires SliceOf(first, adu) && SliceOf(second, adu)
    requires 0 == first.offset < second.offset <= End(first) < End(second) == |adu|
    ensures AddFragment([], first) == [first] && AddFragment([first], second) == [first, second]
    ensures !GapScan([first], 0) && GapScan([first, second], 0)
    ensures Assemble([first, second], Zeros(first.total)) == adu
  {
    var list := [first, second];
    assert AddFragment([], second) == [second];
    assert list[1..] == [second];
    assert Add64(first.offset, |first.payload|) == End(first);
    assert Add64(second.offset, |second.payload|) == End(second);
    assert !GapScan([], End(first));
    ReassemblySound(list, Zeros(first.total), adu);
  }

  /** An ADU that comes whole, and then in two fragments, each in time. */
  predicate WholeThenHalves(world: World, whole: Arrival, first: Arrival, second: Arrival) {
    var o := whole.bundle.origin;
    && GenuineRun(world, [whole, first, second])
    && first.bundle.origin == o && second.bundle.origin == o
    && !whole.bundle.isFragment && first.bundle.isFragment && second.bundle.isFragment
    && whole.hasAgent && first.hasAgent && second.hasAgent
    && !Expired(whole) && !Expired(first) && !Expired(second)
    && 0 == first.bundle.offset < second.bundle.offset <= End(first.bundle) < End(second.bundle)
  }

  /** From the very start, three arrivals make the code deliver an ADU twice. */
  lemma DeliveredAgain(world: World, whole: Arrival, first: Arrival, second: Arrival)
    requires WholeThenHalves(world, whole, first, second)
    requires End(second.bundle) == |whole.bundle.payload|
    ensures var o, adu, arrivals := whole.bundle.origin, whole.bundle.payload, [whole, first, second];
      && o in world
      && Deliveries(Run(arrivals).delivered, o) == [adu]
      && Deliveries(RunAsWritten(arrivals).delivered, o) == [adu, adu]
  {
    hide Run, RunAsWritten, GapScan, AddFragment, Assemble, Agrees, Sound;
    var o, adu, arrivals := whole.bundle.origin, whole.bundle.payload, [whole, first, second];
    assert whole in arrivals && first in arrivals && second in arrivals;
    GenuineIsPlausible(world, arrivals);
    RunRefinesTracks(world, arrivals, o);
    RunRefinesAsWritten(world, arrivals, o);
    TracksGive(world, arrivals, o);
    TwoFragmentsScan(first.bundle, second.bundle, adu);
    assert arrivals[..2] == [whole, first] && arrivals[..2][..1] == [whole];
    var t1 := Track({(0, |adu|)}, [], [adu]);
    TracksOfWhole(whole);
    assert TrackOf([whole, first], o).delivered == [adu];
    var w := TrackAsWritten([whole, first], o);
    assert w == Track(t1.seen + {Key(first.bundle)}, [first.bundle], [adu]);
    assert TrackAsWritten(arrivals, o) == StepAsWritten(w, second);
  }

  lemma TracksOfWhole(whole: Arrival)
    requires !whole.bundle.isFragment && whole.hasAgent && !Expired(whole) && whole.bundle.offset == 0
    ensures var t := Track({(0, |whole.bundle.payload|)}, [], [whole.bundle.payload]); var o := whole.bundle.origin;
      TrackOf([whole], o) == t && TrackAsWritten([whole], o) == t
  {
    var o, b := whole.bundle.origin, whole.bundle;
    assert [whole][..0] == [] && {} + {Key(b)} == {(0, |b.payload|)} && [] + [b.payload] == [b.payload];
    assert TrackOf([whole][..0], o) == NEW && TrackAsWritten([whole][..0], o) == NEW;
  }

  lemma TracksGive(world: World, arrivals: seq<Arrival>, o: Origin)
    requires Plausible(world, arrivals) && o in world
    requires Agrees(world, Run(arrivals), o, TrackOf(arrivals, o), Last(arrivals))
    requires Agrees(world, RunAsWritten(arrivals), o, TrackAsWritten(arrivals, o), Last(arrivals))
    ensures Deliveries(Run(arrivals).delivered, o) == TrackOf(arrivals, o).delivered
    ensures Deliveries(RunAsWritten(arrivals).delivered, o) == TrackAsWritten(arrivals, o).delivered
  {
  }
}
