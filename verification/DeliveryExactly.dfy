/**
 What the code as written delivers of an ADU, exactly, with nested fragments and late
 ones: once if it ever was complete and in order, and once more for each late fragment
 that completes it again.
 */
module DeliveryExactly {
  import opened Bytes
  import opened KnownBundles
  import opened Reassembly
  import opened LocalDelivery
  import opened DeliveryTracks
  import opened ExactlyOnce
  import opened DeliveryAsWritten

  // ---- When an ADU is complete ----

  /** The fragments of an ADU that came in time, each once, sorted by offset as they came. */
  ghost function Fragments(arrivals: seq<Arrival>, o: Origin): seq<Bundle> {
    if arrivals == [] then []
    else
      var n := |arrivals| - 1;
      var before, a := Fragments(arrivals[..n], o), arrivals[n];
      if a.bundle.origin == o && !Expired(a) && a.bundle.isFragment && !HeldAs(before, Key(a.bundle)) then
        AddFragment(before, a.bundle)
      else before
  }

  /** The list has every byte, and no fragment ends in front of its successor before the end is reached. */
  ghost predicate PutsTogether(list: seq<Bundle>, adu: seq<Byte>) {
    list != [] && Covers(list, 0, |adu|) && !Stops(list, |adu|)
  }

  predicate CameWhole(arrivals: seq<Arrival>, o: Origin) {
    exists a :: a in arrivals && a.bundle.origin == o && !Expired(a) && !a.bundle.isFragment
  }

  ghost predicate Completed(arrivals: seq<Arrival>, o: Origin, adu: seq<Byte>) {
    CameWhole(arrivals, o) || PutsTogether(Fragments(arrivals, o), adu)
  }

  /** A whole copy came in time, or at some time the fragments could be put together. */
  ghost predicate EverCompleted(arrivals: seq<Arrival>, o: Origin, adu: seq<Byte>) {
    exists k :: 0 <= k <= |arrivals| && Completed(arrivals[..k], o, adu)
  }

  lemma EverStep(arrivals: seq<Arrival>, o: Origin, adu: seq<Byte>)
    requires arrivals != []
    ensures EverCompleted(arrivals, o, adu) <==>
      EverCompleted(arrivals[..|arrivals| - 1], o, adu) || Completed(arrivals, o, adu)
  {
    hide Completed;
    var n := |arrivals| - 1;
    assert arrivals[..n + 1] == arrivals;
    if EverCompleted(arrivals, o, adu) {
      var k :| 0 <= k <= n + 1 && Completed(arrivals[..k], o, adu);
      assert k <= n ==> arrivals[..n][..k] == arrivals[..k];
    }
    if EverCompleted(arrivals[..n], o, adu) {
      var k :| 0 <= k <= n && Completed(arrivals[..n][..k], o, adu);
      assert arrivals[..n][..k] == arrivals[..k];
    }
  }

  lemma NowIsEver(arrivals: seq<Arrival>, o: Origin, adu: seq<Byte>)
    requires Completed(arrivals, o, adu)
    ensures EverCompleted(arrivals, o, adu)
  {
    hide Completed;
    assert arrivals[..|arrivals|] == arrivals;
  }

  /** Proper fragments of an ADU, sorted. */
  predicate ProperList(list: seq<Bundle>, adu: seq<Byte>) {
    Slices(list, adu) && SortedByOffset(list) && forall b :: b in list ==> Key(b) != (0, |adu|)
  }

  lemma ScanPutsTogether(list: seq<Bundle>, adu: seq<Byte>)
    requires ProperList(list, adu)
    ensures GapScan(list, 0) <==> PutsTogether(list, adu)
  {
    if list != [] {
      assert SliceOf(list[0], adu);
      if GapScan(list, 0) {
        ScanCovers(list, 0, adu);
      }
      if Covers(list, 0, |adu|) {
        ScanExactly(list, adu);
      }
    }
  }

  /** What a track holds as long as its ADU was never complete. */
  ghost predicate Collects(t: Track, list: seq<Bundle>, adu: seq<Byte>) {
    && (0, |adu|) !in t.seen && t.stored == list && ProperList(list, adu)
    && forall key: (nat, nat) :: key in t.seen <==> HeldAs(list, key)
  }

  lemma FragmentCollects(t: Track, b: Bundle, adu: seq<Byte>)
    requires Collects(t, t.stored, adu) && b.isFragment && SliceOf(b, adu) && Key(b) != (0, |adu|)
    requires Key(b) !in t.seen
    ensures var list := AddFragment(t.stored, b); var u := AfterScan(t.(seen := t.seen + {Key(b)}), list);
      if PutsTogether(list, adu) then (0, |adu|) in u.seen else Collects(u, list, adu)
  {
    var list := AddFragment(t.stored, b);
    AddKeeps(t.stored, b);
    ScanPutsTogether(list, adu);
    if GapScan(list, 0) {
      assert SliceOf(list[0], adu);
    } else {
      var u := AfterScan(t.(seen := t.seen + {Key(b)}), list);
      forall key: (nat, nat) ensures key in u.seen <==> HeldAs(list, key) {
        if key == Key(b) {
          assert b in list;
        } else if HeldAs(t.stored, key) {
          var d :| d in t.stored && Key(d) == key;
          assert d in list;
        }
      }
    }
  }

  lemma {:induction false} TrackCollects(world: World, arrivals: seq<Arrival>, o: Origin)
    requires GenuineRun(world, arrivals) && o in world && Deliverable(arrivals, o)
    ensures var t, adu := TrackOf(arrivals, o), world[o].data;
      if EverCompleted(arrivals, o, adu) then (0, |adu|) in t.seen
      else Collects(t, Fragments(arrivals, o), adu) && !CameWhole(arrivals, o)
  {
    var adu := world[o].data;
    if arrivals == [] {
      assert Fragments([], o) == [] && arrivals[..0] == [];
      assert forall key: (nat, nat) :: !HeldAs([], key);
    } else {
      hide EverCompleted, CameWhole, AfterScan, AddFragment, PutsTogether;
      var n := |arrivals| - 1;
      var front, a := arrivals[..n], arrivals[n];
      assert a in arrivals;
      assert forall d :: d in front ==> d in arrivals;
      TrackCollects(world, front, o);
      EverStep(arrivals, o, adu);
      WholeStep(arrivals, o);
      if !EverCompleted(front, o, adu) {
        if Completed(front, o, adu) {
          NowIsEver(front, o, adu);
        }
        CollectStep(world, arrivals, o);
      }
    }
  }

  lemma WholeStep(arrivals: seq<Arrival>, o: Origin)
    requires arrivals != []
    ensures var n := |arrivals| - 1; var a := arrivals[n];
      CameWhole(arrivals, o) <==>
        CameWhole(arrivals[..n], o) || (a.bundle.origin == o && !Expired(a) && !a.bundle.isFragment)
  {
    var n := |arrivals| - 1;
    assert arrivals == arrivals[..n] + [arrivals[n]];
  }

  lemma CollectStep(world: World, arrivals: seq<Arrival>, o: Origin)
    requires arrivals != [] && GenuineRun(world, arrivals) && o in world && Deliverable(arrivals, o)
    requires var n := |arrivals| - 1;
      && Collects(TrackOf(arrivals[..n], o), Fragments(arrivals[..n], o), world[o].data)
      && !Completed(arrivals[..n], o, world[o].data)
    ensures var t, adu := TrackOf(arrivals, o), world[o].data;
      if Completed(arrivals, o, adu) then (0, |adu|) in t.seen
      else Collects(t, Fragments(arrivals, o), adu)
  {
    var n, adu := |arrivals| - 1, world[o].data;
    var front, a := arrivals[..n], arrivals[n];
    var t, b := TrackOf(front, o), a.bundle;
    assert a in arrivals;
    assert Genuine(world, b);
    WholeStep(arrivals, o);
    hide GapScan, PutsTogether, AddFragment, AfterScan, Collects, CameWhole, GenuineRun, Genuine;
    GenuineMeans(world, b);
    if b.origin == o && !Expired(a) {
      CollectsMeans(t, Fragments(front, o), adu, Key(b));
      if b.isFragment && Key(b) !in t.seen {
        FragmentCollects(t, b, adu);
      }
    }
  }

  lemma GenuineMeans(world: World, b: Bundle)
    requires Genuine(world, b)
    ensures b.origin in world
    ensures var adu := world[b.origin].data;
      if b.isFragment then SliceOf(b, adu) && Key(b) != (0, |adu|) && b.total == |adu| else Key(b) == (0, |adu|)
  {
  }

  lemma CollectsMeans(t: Track, list: seq<Bundle>, adu: seq<Byte>, key: (nat, nat))
    requires Collects(t, list, adu)
    ensures t.stored == list && (0, |adu|) !in t.seen && (key in t.seen <==> HeldAs(list, key))
  {
  }

  // ---- What is delivered once more ----

  /** A late fragment with which the fragments of the track can be put together. */
  predicate CompletesAgain(t: Track, a: Arrival) {
    LateInTrack(t, a) && GapScan(AddFragment(t.stored, a.bundle), 0)
  }

  function TimesAgain(arrivals: seq<Arrival>, o: Origin): nat {
    if arrivals == [] then 0
    else
      var n := |arrivals| - 1;
      TimesAgain(arrivals[..n], o) +
      if arrivals[n].bundle.origin == o && CompletesAgain(TrackAsWritten(arrivals[..n], o), arrivals[n]) then 1 else 0
  }

  function Repeated(adu: seq<Byte>, n: nat): seq<seq<Byte>> {
    seq(n, _ => adu)
  }

  /** How the track without the return stands to the one with it. */
  predicate Ahead(w: Track, t: Track, adu: seq<Byte>, n: nat) {
    && w.seen == t.seen && Slices(w.stored, adu)
    && ((0, |adu|) !in t.seen ==> w == t)
    && w.delivered == t.delivered + Repeated(adu, n)
  }

  lemma ScanDelivers(t: Track, list: seq<Bundle>, adu: seq<Byte>)
    requires Slices(list, adu)
    ensures AfterScan(t, list) ==
      if GapScan(list, 0) then Track(t.seen + {(0, |adu|)}, [], t.delivered + [adu]) else t.(stored := list)
  {
    if GapScan(list, 0) {
      assert SliceOf(list[0], adu);
      ReassemblySound(list, Zeros(AduLength(list)), adu);
    }
  }

  lemma StepAhead(world: World, w: Track, t: Track, a: Arrival, n: nat)
    requires Genuine(world, a.bundle) && Ahead(w, t, world[a.bundle.origin].data, n)
    ensures Ahead(StepAsWritten(w, a), TrackStep(t, a), world[a.bundle.origin].data,
                  n + if CompletesAgain(w, a) then 1 else 0)
  {
    var b, adu := a.bundle, world[a.bundle.origin].data;
    GenuineMeans(world, b);
    AddMembers(w.stored, b);
    hide GapScan, AddFragment, AfterScan, Genuine, SliceOf;
    if b.isFragment {
      assert Slices(AddFragment(w.stored, b), adu);
      ScanDelivers(w.(seen := w.seen + {Key(b)}), AddFragment(w.stored, b), adu);
      if (0, |adu|) in t.seen {
        AgainStep(w, t, b, adu, n);
      }
    } else if w == t {
      NoneAgain(w, adu, n);
    }
  }

  lemma NoneAgain(w: Track, adu: seq<Byte>, n: nat)
    requires w.delivered == w.delivered + Repeated(adu, n)
    ensures n == 0
  {
    assert |w.delivered + Repeated(adu, n)| == |w.delivered| + n;
  }

  lemma AgainStep(w: Track, t: Track, b: Bundle, adu: seq<Byte>, n: nat)
    requires w.delivered == t.delivered + Repeated(adu, n)
    ensures w.delivered + [adu] == t.delivered + Repeated(adu, n + 1)
  {
  }

  lemma {:induction false} TrackIsAhead(world: World, arrivals: seq<Arrival>, o: Origin)
    requires GenuineRun(world, arrivals) && o in world
    ensures Ahead(TrackAsWritten(arrivals, o), TrackOf(arrivals, o), world[o].data, TimesAgain(arrivals, o))
  {
    hide StepAsWritten, TrackStep, Genuine, CompletesAgain;
    if arrivals != [] {
      var n := |arrivals| - 1;
      TrackIsAhead(world, arrivals[..n], o);
      assert arrivals[n] in arrivals;
      if arrivals[n].bundle.origin == o {
        StepAhead(world, TrackAsWritten(arrivals[..n], o), TrackOf(arrivals[..n], o), arrivals[n],
                  TimesAgain(arrivals[..n], o));
      }
    } else {
      assert [] + Repeated(world[o].data, 0) == [];
    }
  }

  // ---- The deliveries ----

  /**
   For every run of the code as written and every ADU, however its fragments overlap, nest
   or repeat: it is delivered, with its bytes, once if it ever was complete, and once more
   for each late fragment that completes it again.
   */
  lemma DeliveredExactly(world: World, arrivals: seq<Arrival>, o: Origin)
    requires GenuineRun(world, arrivals) && o in world && Deliverable(arrivals, o)
    ensures var adu := world[o].data;
      && Deliveries(RunAsWritten(arrivals).delivered, o) ==
           (if EverCompleted(arrivals, o, adu) then [adu] else []) + Repeated(adu, TimesAgain(arrivals, o))
      && (!EverCompleted(arrivals, o, adu) ==> TimesAgain(arrivals, o) == 0)
  {
    hide GenuineRun, Deliverable, EverCompleted, Run, RunAsWritten, Collects;
    GenuineIsPlausible(world, arrivals);
    RunRefinesTracks(world, arrivals, o);
    RunRefinesAsWritten(world, arrivals, o);
    TracksGive(world, arrivals, o);
    TrackIsAhead(world, arrivals, o);
    TrackCollects(world, arrivals, o);
    TrackFollows(world, arrivals, o);
    var t, adu := TrackOf(arrivals, o), world[o].data;
    DeliveredIfSeen(t, Pieces(arrivals, o), adu);
    if !EverCompleted(arrivals, o, adu) {
      CollectsMeans(t, Fragments(arrivals, o), adu, (0, 0));
      NoneAgain(t, adu, TimesAgain(arrivals, o));
    }
  }

  lemma DeliveredIfSeen(t: Track, pieces: set<Bundle>, adu: seq<Byte>)
    requires Follows(t, pieces, adu)
    ensures t.delivered == if (0, |adu|) in t.seen then [adu] else []
  {
  }

  /** The deliveries are as meant exactly if no late fragment completes the ADU again. */
  lemma DeliveriesAsMeantExactly(world: World, arrivals: seq<Arrival>, o: Origin)
    requires GenuineRun(world, arrivals) && o in world
    ensures Deliveries(RunAsWritten(arrivals).delivered, o) == Deliveries(Run(arrivals).delivered, o)
      <==> TimesAgain(arrivals, o) == 0
  {
    hide GenuineRun, Run, RunAsWritten;
    GenuineIsPlausible(world, arrivals);
    RunRefinesTracks(world, arrivals, o);
    RunRefinesAsWritten(world, arrivals, o);
    TracksGive(world, arrivals, o);
    TrackIsAhead(world, arrivals, o);
    var t, n := TrackOf(arrivals, o), TimesAgain(arrivals, o);
    assert |t.delivered + Repeated(world[o].data, n)| == |t.delivered| + n;
    assert n == 0 ==> t.delivered + Repeated(world[o].data, n) == t.delivered;
  }

  /** Without nesting an ADU is ever complete exactly if all its bytes came in time. */
  lemma CompletedIfAllCame(world: World, arrivals: seq<Arrival>, o: Origin)
    requires GenuineRun(world, arrivals) && o in world && Deliverable(arrivals, o)
    requires NonNested(Pieces(arrivals, o))
    ensures EverCompleted(arrivals, o, world[o].data) <==> Complete(Pieces(arrivals, o), world[o].data)
  {
    hide GenuineRun, Deliverable, EverCompleted, Collects, Follows, NonNested, Complete;
    TrackCollects(world, arrivals, o);
    TrackFollows(world, arrivals, o);
    PiecesAreGenuine(world, arrivals, o);
    var t, adu, pieces := TrackOf(arrivals, o), world[o].data, Pieces(arrivals, o);
    TrackAnswers(world, t, pieces, o);
    DeliveredIfSeen(t, pieces, adu);
    if !EverCompleted(arrivals, o, adu) {
      CollectsMeans(t, Fragments(arrivals, o), adu, (0, 0));
    }
  }

  lemma EverMeansComplete(world: World, arrivals: seq<Arrival>, o: Origin)
    requires GenuineRun(world, arrivals) && o in world && Deliverable(arrivals, o)
    ensures EverCompleted(arrivals, o, world[o].data) ==> Complete(Pieces(arrivals, o), world[o].data)
  {
    hide GenuineRun, Deliverable, EverCompleted, Collects, Complete;
    TrackCollects(world, arrivals, o);
    TrackFollows(world, arrivals, o);
  }

  /** Whatever nests or comes late, nothing is delivered before every byte has come. */
  lemma DeliveredOnlyIfAllCame(world: World, arrivals: seq<Arrival>, o: Origin)
    requires GenuineRun(world, arrivals) && o in world && Deliverable(arrivals, o)
    requires Deliveries(RunAsWritten(arrivals).delivered, o) != []
    ensures Complete(Pieces(arrivals, o), world[o].data)
  {
    hide *;
    DeliveredExactly(world, arrivals, o);
    EverMeansComplete(world, arrivals, o);
    NothingRepeated(world[o].data);
  }

  lemma NothingRepeated(adu: seq<Byte>)
    ensures [] + Repeated(adu, 0) == []
  {
  }

  lemma FrontIsRun(world: World, arrivals: seq<Arrival>, a: Arrival, o: Origin)
    requires GenuineRun(world, arrivals + [a]) && Deliverable(arrivals + [a], o)
    ensures GenuineRun(world, arrivals) && Deliverable(arrivals, o)
  {
    hide Genuine;
    var all := arrivals + [a];
    assert forall d :: d in arrivals ==> d in all;
    assert forall i :: 0 <= i < |arrivals| ==> all[i] == arrivals[i];
  }

  /**
   An arrival delivers an ADU if it completes it for the first time, and if it is a late
   fragment that completes it again; no other does.
   */
  lemma DeliveredByArrival(world: World, arrivals: seq<Arrival>, a: Arrival, o: Origin)
    requires GenuineRun(world, arrivals + [a]) && o in world && Deliverable(arrivals + [a], o)
    ensures var adu, all := world[o].data, arrivals + [a];
      var first := EverCompleted(all, o, adu) && !EverCompleted(arrivals, o, adu);
      var again := a.bundle.origin == o && CompletesAgain(TrackAsWritten(arrivals, o), a);
      && !(first && again)
      && Deliveries(RunAsWritten(all).delivered, o) ==
           Deliveries(RunAsWritten(arrivals).delivered, o) + if first || again then [adu] else []
  {
    hide GenuineRun, Deliverable, EverCompleted, RunAsWritten, CompletesAgain, Completed;
    var adu, all := world[o].data, arrivals + [a];
    assert all[..|arrivals|] == arrivals && all[|arrivals|] == a;
    FrontIsRun(world, arrivals, a, o);
    EverStep(all, o, adu);
    DeliveredExactly(world, arrivals, o);
    DeliveredExactly(world, all, o);
    var n := TimesAgain(arrivals, o);
    if EverCompleted(arrivals, o, adu) {
      assert [adu] + Repeated(adu, n + 1) == [adu] + Repeated(adu, n) + [adu];
    } else {
      if a.bundle.origin == o {
        NotLateYet(world, arrivals, a, o);
      }
      NothingRepeated(adu);
    }
  }

  lemma NotLateYet(world: World, arrivals: seq<Arrival>, a: Arrival, o: Origin)
    requires GenuineRun(world, arrivals + [a]) && o in world && Deliverable(arrivals + [a], o)
    requires !EverCompleted(arrivals, o, world[o].data) && a.bundle.origin == o
    ensures !CompletesAgain(TrackAsWritten(arrivals, o), a)
  {
    hide EverCompleted, GenuineRun, Deliverable, GapScan, AddFragment, Genuine;
    FrontIsRun(world, arrivals, a, o);
    TrackCollects(world, arrivals, o);
    TrackIsAhead(world, arrivals, o);
    LastIsGenuine(world, arrivals, a);
    GenuineMeans(world, a.bundle);
    CollectsMeans(TrackOf(arrivals, o), Fragments(arrivals, o), world[o].data, (0, 0));
  }

  lemma LastIsGenuine(world: World, arrivals: seq<Arrival>, a: Arrival)
    requires GenuineRun(world, arrivals + [a])
    ensures Genuine(world, a.bundle)
  {
    hide Genuine;
    assert a in arrivals + [a];
  }

  /** Permuting the arrivals, or repeating some, does not change whether an ADU is delivered. */
  lemma OrderDoesNotMatter(world: World, arrivals: seq<Arrival>, others: seq<Arrival>, o: Origin)
    requires GenuineRun(world, arrivals) && GenuineRun(world, others) && o in world
    requires Deliverable(arrivals, o) && Deliverable(others, o)
    requires Pieces(arrivals, o) == Pieces(others, o) && NonNested(Pieces(arrivals, o))
    ensures Deliveries(RunAsWritten(arrivals).delivered, o) == [] <==>
      Deliveries(RunAsWritten(others).delivered, o) == []
  {
    hide *;
    DeliveredExactly(world, arrivals, o);
    DeliveredExactly(world, others, o);
    CompletedIfAllCame(world, arrivals, o);
    CompletedIfAllCame(world, others, o);
    NothingRepeated(world[o].data);
  }
}
