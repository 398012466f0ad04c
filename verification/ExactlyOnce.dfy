/**
 Delivery over whole runs, with the return that is meant. Arrivals of all ADUs
 interleave in any order, with duplicates, whole bundles next to fragments, and copies
 that come too late; each ADU is delivered at most once, with its own bytes, and without
 nesting exactly once if all of them came.
 */
module ExactlyOnce {
  import opened Bytes
  import opened KnownBundles
  import opened Reassembly
  import opened LocalDelivery
  import opened DeliveryTracks

  /** A bundle that carries its ADU, whole or as a proper fragment. */
  predicate Genuine(world: World, b: Bundle) {
    && Belongs(world, b)
    && var adu := world[b.origin].data;
      if b.isFragment then SliceOf(b, adu) && Key(b) != (0, |adu|)
      else |adu| < U64_LIMIT && b.offset == 0 && b.payload == adu
  }

  predicate GenuineRun(world: World, arrivals: seq<Arrival>) {
    && (forall a :: a in arrivals ==> Genuine(world, a.bundle))
    && (forall i, j :: 0 <= i < j < |arrivals| ==> arrivals[i].now <= arrivals[j].now)
  }

  /** The bundles of one ADU that came before its deadline; neither order nor repetition shows. */
  function Pieces(arrivals: seq<Arrival>, o: Origin): set<Bundle> {
    set a | a in arrivals && a.bundle.origin == o && !Expired(a) :: a.bundle
  }

  ghost predicate Has(pieces: set<Bundle>, x: nat) {
    exists b :: b in pieces && b.offset <= x < End(b)
  }

  /** Something has come, and every byte has come. */
  ghost predicate Complete(pieces: set<Bundle>, adu: seq<Byte>) {
    pieces != {} && forall x :: 0 <= x < |adu| ==> Has(pieces, x)
  }

  /** No fragment lies inside another one. */
  predicate NonNested(pieces: set<Bundle>) {
    forall b, d :: b in pieces && d in pieces && b.isFragment && d.isFragment && b.offset <= d.offset
      ==> End(b) <= End(d)
  }

  predicate Deliverable(arrivals: seq<Arrival>, o: Origin) {
    forall a :: a in arrivals && a.bundle.origin == o ==> a.bundle.isAdminRecord || a.hasAgent
  }

  lemma PiecesStep(arrivals: seq<Arrival>, o: Origin)
    requires arrivals != []
    ensures var n := |arrivals| - 1; var a := arrivals[n];
      Pieces(arrivals, o) ==
        Pieces(arrivals[..n], o) + if a.bundle.origin == o && !Expired(a) then {a.bundle} else {}
  {
    var n := |arrivals| - 1;
    assert arrivals == arrivals[..n] + [arrivals[n]];
  }

  // ---- Safety: at most once, and only the right bytes ----

  predicate Safe(t: Track, adu: seq<Byte>) {
    && Slices(t.stored, adu)
    && (t.delivered == [] || t.delivered == [adu])
    && ((0, |adu|) !in t.seen ==> t.delivered == [] && !GapScan(t.stored, 0))
  }

  lemma ScanKeepsSafe(t: Track, list: seq<Bundle>, adu: seq<Byte>)
    requires Slices(list, adu) && t.delivered == []
    ensures Safe(AfterScan(t, list), adu)
  {
    if GapScan(list, 0) {
      assert SliceOf(list[0], adu);
      ReassemblySound(list, Zeros(AduLength(list)), adu);
    }
  }

  lemma StepKeepsSafe(world: World, t: Track, a: Arrival)
    requires Genuine(world, a.bundle)
    requires Safe(t, world[a.bundle.origin].data)
    ensures Safe(TrackStep(t, a), world[a.bundle.origin].data)
  {
    var b, adu := a.bundle, world[a.bundle.origin].data;
    if b.isFragment {
      AddMembers(t.stored, b);
      if (0, |adu|) !in t.seen {
        ScanKeepsSafe(t.(seen := t.seen + {Key(b)}), AddFragment(t.stored, b), adu);
      }
    }
  }

  lemma GenuineIsPlausible(world: World, arrivals: seq<Arrival>)
    requires GenuineRun(world, arrivals)
    ensures Plausible(world, arrivals)
  {
  }

  lemma {:induction false} TrackIsSafe(world: World, arrivals: seq<Arrival>, o: Origin)
    requires GenuineRun(world, arrivals) && o in world
    ensures Safe(TrackOf(arrivals, o), world[o].data)
  {
    if arrivals != [] {
      var n := |arrivals| - 1;
      TrackIsSafe(world, arrivals[..n], o);
      assert arrivals[n] in arrivals;
      if arrivals[n].bundle.origin == o {
        StepKeepsSafe(world, TrackOf(arrivals[..n], o), arrivals[n]);
      }
    }
  }

  /** No ADU is delivered twice or with wrong bytes, however its fragments overlap or nest. */
  lemma DeliveredAtMostOnce(world: World, arrivals: seq<Arrival>, o: Origin)
    requires GenuineRun(world, arrivals) && o in world
    ensures var log := Deliveries(Run(arrivals).delivered, o);
      log == [] || log == [world[o].data]
  {
    TrackIsSafe(world, arrivals, o);
    RunRefinesTracks(world, arrivals, o);
  }

  // ---- Exactly once, at the completing arrival ----

  ghost predicate HeldAs(list: seq<Bundle>, key: (nat, nat)) {
    exists b :: b in list && Key(b) == key
  }

  /** What a track knows about the pieces that have come, as long as all of them can be delivered. */
  ghost predicate Follows(t: Track, pieces: set<Bundle>, adu: seq<Byte>) {
    && Safe(t, adu) && SortedByOffset(t.stored)
    && (forall b :: b in t.stored ==> b in pieces && b.isFragment)
    && (forall b :: b in pieces ==> Key(b) in t.seen)
    && ((0, |adu|) !in t.seen ==> forall key :: key in t.seen ==> HeldAs(t.stored, key))
    && ((0, |adu|) in t.seen ==> t.delivered == [adu] && Complete(pieces, adu))
  }

  lemma CompleteGrows(pieces: set<Bundle>, more: set<Bundle>, adu: seq<Byte>)
    requires Complete(pieces, adu) && pieces <= more
    ensures Complete(more, adu)
  {
    forall x | 0 <= x < |adu| ensures Has(more, x) {
      assert Has(pieces, x);
    }
  }

  lemma ScanCompletes(list: seq<Bundle>, pieces: set<Bundle>, adu: seq<Byte>)
    requires Slices(list, adu) && GapScan(list, 0)
    requires forall b :: b in list ==> b in pieces
    ensures Complete(pieces, adu)
  {
    assert list[0] in pieces;
    ScanCovers(list, 0, adu);
    forall x | 0 <= x < |adu| ensures Has(pieces, x) {
      assert CoveredBy(list, x);
    }
  }

  lemma WholeCompletes(b: Bundle, pieces: set<Bundle>, adu: seq<Byte>)
    requires b in pieces && b.offset == 0 && b.payload == adu
    ensures Complete(pieces, adu)
  {
    forall x | 0 <= x < |adu| ensures Has(pieces, x) {
      assert b.offset <= x < End(b);
    }
  }

  lemma FragmentFollows(t: Track, b: Bundle, pieces: set<Bundle>, adu: seq<Byte>)
    requires Follows(t, pieces, adu) && (0, |adu|) !in t.seen
    requires b.isFragment && SliceOf(b, adu) && Key(b) != (0, |adu|)
    ensures Follows(AfterScan(t.(seen := t.seen + {Key(b)}), AddFragment(t.stored, b)), pieces + {b}, adu)
  {
    var list := AddFragment(t.stored, b);
    var seen := t.(seen := t.seen + {Key(b)});
    AddKeeps(t.stored, b);
    ScanKeepsSafe(seen, list, adu);
    if GapScan(list, 0) {
      ScanCompletes(list, pieces + {b}, adu);
    } else {
      forall key | key in seen.seen ensures HeldAs(list, key) {
        if key == Key(b) {
          assert b in list;
        } else {
          assert HeldAs(t.stored, key);
        }
      }
    }
  }

  lemma StepFollows(world: World, t: Track, a: Arrival, pieces: set<Bundle>)
    requires Genuine(world, a.bundle) && !Expired(a) && (a.bundle.isAdminRecord || a.hasAgent)
    requires Follows(t, pieces, world[a.bundle.origin].data)
    ensures Follows(TrackStep(t, a), pieces + {a.bundle}, world[a.bundle.origin].data)
  {
    var b, adu := a.bundle, world[a.bundle.origin].data;
    StepKeepsSafe(world, t, a);
    if (0, |adu|) in t.seen {
      CompleteGrows(pieces, pieces + {b}, adu);
    } else if Key(b) in t.seen {
    } else if b.isFragment {
      FragmentFollows(t, b, pieces, adu);
    } else {
      WholeCompletes(b, pieces + {b}, adu);
    }
  }

  lemma {:induction false} TrackFollows(world: World, arrivals: seq<Arrival>, o: Origin)
    requires GenuineRun(world, arrivals) && o in world && Deliverable(arrivals, o)
    ensures Follows(TrackOf(arrivals, o), Pieces(arrivals, o), world[o].data)
  {
    hide Follows, TrackStep, Genuine;
    if arrivals == [] {
      assert Pieces([], o) == {};
      NewFollows(world[o].data);
    } else {
      var n := |arrivals| - 1;
      TrackFollows(world, arrivals[..n], o);
      assert arrivals[n] in arrivals;
      PiecesStep(arrivals, o);
      assert Pieces(arrivals[..n], o) + {} == Pieces(arrivals[..n], o);
      if arrivals[n].bundle.origin == o {
        if Expired(arrivals[n]) {
          ExpiredChangesNothing(TrackOf(arrivals[..n], o), arrivals[n]);
        } else {
          StepFollows(world, TrackOf(arrivals[..n], o), arrivals[n], Pieces(arrivals[..n], o));
        }
      }
    }
  }

  lemma NewFollows(adu: seq<Byte>)
    ensures Follows(NEW, {}, adu)
  {
  }

  lemma ExpiredChangesNothing(t: Track, a: Arrival)
    requires Expired(a)
    ensures TrackStep(t, a) == t
  {
  }

  lemma PiecesAreGenuine(world: World, arrivals: seq<Arrival>, o: Origin)
    requires GenuineRun(world, arrivals)
    ensures forall b :: b in Pieces(arrivals, o) ==> Genuine(world, b) && b.origin == o
  {
  }

  /** If all bytes are there and nothing nests, the stored fragments pass the scan. */
  lemma CompletePassesScan(list: seq<Bundle>, pieces: set<Bundle>, adu: seq<Byte>)
    requires Slices(list, adu) && SortedByOffset(list)
    requires forall b :: b in list ==> b in pieces && b.isFragment
    requires forall b :: b in pieces ==> HeldAs(list, Key(b))
    requires NonNested(pieces) && Complete(pieces, adu) && |adu| > 0
    ensures GapScan(list, 0)
  {
    forall x | 0 <= x < |adu| ensures CoveredBy(list, x) {
      assert Has(pieces, x);
      var b :| b in pieces && b.offset <= x < End(b);
      assert HeldAs(list, Key(b));
    }
    forall i, j | 0 <= i < j < |list| ensures list[i].offset <= list[j].offset && End(list[i]) <= End(list[j]) {
      assert list[i] in pieces && list[j] in pieces;
    }
    ScanComplete(list, 0, adu);
  }

  /**
   For every run and every ADU whose fragments do not nest: once all its bytes have
   come in time it has been delivered exactly once, with exactly its bytes, and
   before that not at all.
   */
  lemma DeliveredExactlyOnce(world: World, arrivals: seq<Arrival>, o: Origin)
    requires GenuineRun(world, arrivals) && o in world && Deliverable(arrivals, o)
    requires NonNested(Pieces(arrivals, o))
    ensures Deliveries(Run(arrivals).delivered, o) ==
      if Complete(Pieces(arrivals, o), world[o].data) then [world[o].data] else []
  {
    hide Agrees, Follows, GenuineRun;
    var t, pieces, adu := TrackOf(arrivals, o), Pieces(arrivals, o), world[o].data;
    GenuineIsPlausible(world, arrivals);
    RunRefinesTracks(world, arrivals, o);
    AgreesOnDeliveries(world, arrivals, o);
    TrackFollows(world, arrivals, o);
    PiecesAreGenuine(world, arrivals, o);
    TrackAnswers(world, t, pieces, o);
  }

  lemma AgreesOnDeliveries(world: World, arrivals: seq<Arrival>, o: Origin)
    requires o in world && Agrees(world, Run(arrivals), o, TrackOf(arrivals, o), Last(arrivals))
    ensures Deliveries(Run(arrivals).delivered, o) == TrackOf(arrivals, o).delivered
  {
  }

  lemma TrackAnswers(world: World, t: Track, pieces: set<Bundle>, o: Origin)
    requires o in world && Follows(t, pieces, world[o].data) && NonNested(pieces)
    requires forall b :: b in pieces ==> Genuine(world, b) && b.origin == o
    ensures t.delivered == if Complete(pieces, world[o].data) then [world[o].data] else []
  {
    var adu := world[o].data;
    if (0, |adu|) !in t.seen && Complete(pieces, adu) {
      var b :| b in pieces;
      assert Genuine(world, b) && HeldAs(t.stored, Key(b));
      CompletePassesScan(t.stored, pieces, adu);
    }
  }
}
