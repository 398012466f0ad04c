/**
 The simple form of local delivery: per ADU, a set of the pieces seen, the
 fragments kept and the deliveries made. The bundle processor, with one list of
 known bundles sorted and purged by deadline and one list of slots for all ADUs,
 behaves like these independent tracks.
 */
module DeliveryTracks {
  import opened Bytes
  import opened KnownBundles
  import opened Reassembly
  import opened LocalDelivery

  datatype Track = Track(seen: set<(nat, nat)>, stored: seq<Bundle>, delivered: seq<seq<Byte>>)

  const NEW := Track({}, [], [])

  function Key(b: Bundle): (nat, nat) {
    (b.offset, |b.payload|)
  }

  predicate Expired(a: Arrival) {
    a.bundle.Deadline() < a.now
  }

  function AduLength(list: seq<Bundle>): U64 {
    if list == [] then 0 else list[0].total
  }

  /** The fragments are kept until the scan finds the ADU complete. */
  function AfterScan(t: Track, list: seq<Bundle>): Track {
    if !GapScan(list, 0) then t.(stored := list)
    else Track(t.seen + {(0, AduLength(list) as nat)}, [], t.delivered + [Assemble(list, Zeros(AduLength(list)))])
  }

  function TrackFragment(t: Track, b: Bundle): Track {
    if (0, b.total as nat) in t.seen then t else AfterScan(t, AddFragment(t.stored, b))
  }

  function TrackStep(t: Track, a: Arrival): Track {
    var b := a.bundle;
    if Expired(a) || Key(b) in t.seen then t
    else
      var seen := t.(seen := t.seen + {Key(b)});
      if !b.isAdminRecord && !a.hasAgent then seen
      else if b.isFragment then TrackFragment(seen, b)
      else seen.(delivered := seen.delivered + [b.payload])
  }

  function TrackOf(arrivals: seq<Arrival>, origin: Origin): Track {
    if arrivals == [] then NEW
    else
      var n := |arrivals| - 1;
      var before := TrackOf(arrivals[..n], origin);
      if arrivals[n].bundle.origin == origin then TrackStep(before, arrivals[n]) else before
  }

  // ---- What the processor holds for one ADU ----

  predicate Tidy(slots: seq<seq<Bundle>>) {
    && (forall slot :: slot in slots ==> |slot| > 0)
    && (forall i, j :: 0 <= i < j < |slots| ==> slots[i][0].origin != slots[j][0].origin)
  }

  function SlotOf(slots: seq<seq<Bundle>>, origin: Origin): seq<Bundle>
    requires forall slot :: slot in slots ==> |slot| > 0
  {
    var i := FindSlot(slots, origin);
    if i < |slots| then slots[i] else []
  }

  function Deliveries(log: seq<Delivery>, origin: Origin): seq<seq<Byte>> {
    if log == [] then []
    else
      var n := |log| - 1;
      Deliveries(log[..n], origin) + if log[n].origin == origin then [log[n].data] else []
  }

  lemma DeliveriesAppend(log: seq<Delivery>, d: Delivery, origin: Origin)
    ensures Deliveries(log + [d], origin) ==
      Deliveries(log, origin) + if d.origin == origin then [d.data] else []
  {
    assert (log + [d])[..|log|] == log;
  }

  lemma SlotIs(slots: seq<seq<Bundle>>, i: nat)
    requires Tidy(slots) && i < |slots|
    ensures SlotOf(slots, slots[i][0].origin) == slots[i]
  {
  }

  lemma SlotReplaced(slots: seq<seq<Bundle>>, i: nat, slot: seq<Bundle>, origin: Origin)
    requires Tidy(slots) && i < |slots| && |slot| > 0 && slot[0].origin == slots[i][0].origin
    ensures Tidy(slots[i := slot])
    ensures SlotOf(slots[i := slot], origin) == if origin == slot[0].origin then slot else SlotOf(slots, origin)
  {
    var r := slots[i := slot];
    var j, k := FindSlot(slots, origin), FindSlot(r, origin);
    if k < |r| && k != i {
      assert slots[k] == r[k];
    }
    if j < |slots| && j != i {
      assert r[j] == slots[j];
    }
    if origin == slot[0].origin {
      SlotIs(r, i);
    }
  }

  lemma TidyAppended(slots: seq<seq<Bundle>>, slot: seq<Bundle>)
    requires Tidy(slots) && |slot| > 0 && FindSlot(slots, slot[0].origin) == |slots|
    ensures Tidy(slots + [slot])
  {
    hide FindSlot;
    var r: seq<seq<Bundle>> := slots + [slot];
    assert forall s :: s in r ==> |s| > 0;
    forall i: nat, j: nat | i < j < |r| ensures r[i][0].origin != r[j][0].origin {
      assert r[i] == slots[i] && slots[i] in slots;
      assert j < |slots| ==> r[j] == slots[j];
    }
  }

  lemma SlotAppended(slots: seq<seq<Bundle>>, slot: seq<Bundle>, origin: Origin)
    requires Tidy(slots) && |slot| > 0 && FindSlot(slots, slot[0].origin) == |slots|
    ensures Tidy(slots + [slot])
    ensures SlotOf(slots + [slot], origin) == if origin == slot[0].origin then slot else SlotOf(slots, origin)
  {
    var r := slots + [slot];
    TidyAppended(slots, slot);
    var j := FindSlot(slots, origin);
    if j < |slots| {
      SlotIs(r, j);
      assert r[j] == slots[j];
    } else if origin == slot[0].origin {
      SlotIs(r, |slots|);
    }
  }

  lemma SlotRemoved(slots: seq<seq<Bundle>>, i: nat, origin: Origin)
    requires Tidy(slots) && i < |slots|
    ensures var r := slots[..i] + slots[i + 1..];
      && Tidy(r)
      && SlotOf(r, origin) == if origin == slots[i][0].origin then [] else SlotOf(slots, origin)
  {
    var r := slots[..i] + slots[i + 1..];
    assert forall k :: 0 <= k < |r| ==> r[k] == slots[if k < i then k else k + 1];
    assert Tidy(r);
    var j, k := FindSlot(slots, origin), FindSlot(r, origin);
    if k < |r| {
      SlotIs(r, k);
      SlotIs(slots, if k < i then k else k + 1);
    }
    if j < |slots| && j != i {
      SlotIs(r, if j < i then j else j - 1);
    }
  }

  // ---- The refinement ----

  /** What the network holds: at most one ADU per origin, with one version and lifetime. */
  datatype Adu = Adu(version: nat, lifetime: nat, data: seq<Byte>)

  type World = map<Origin, Adu>

  function DeadlineOf(world: World, o: Origin): nat
    requires o in world
  {
    o.creation + world[o].lifetime
  }

  predicate Belongs(world: World, b: Bundle) {
    && b.origin in world && b.origin.creation != 0
    && b.version == world[b.origin].version && b.lifetime == world[b.origin].lifetime
  }

  function Entry(world: World, o: Origin, key: (nat, nat)): Known
    requires o in world
  {
    Known(BundleId(world[o].version, o, key.0, key.1), DeadlineOf(world, o))
  }

  predicate KnownInWorld(world: World, known: seq<Known>) {
    && Sorted(known)
    && forall e :: e in known ==> e.id.origin in world && e == Entry(world, e.id.origin, (e.id.offset, e.id.length))
  }

  /** The entries for one origin: all of them were seen, and until the deadline none is missing. */
  ghost predicate KnownAgrees(world: World, known: seq<Known>, o: Origin, seen: set<(nat, nat)>, now: nat)
    requires o in world
  {
    && (forall k: (nat, nat) :: Entry(world, o, k) in known ==> k in seen)
    && (now <= DeadlineOf(world, o) ==> forall k: (nat, nat) :: k in seen ==> Entry(world, o, k) in known)
  }

  ghost predicate Agrees(world: World, c: Context, o: Origin, t: Track, now: nat)
    requires o in world && c.Valid()
  {
    && KnownAgrees(world, c.known, o, t.seen, now)
    && SlotOf(c.slots, o) == t.stored
    && Deliveries(c.delivered, o) == t.delivered
  }

  predicate Sound(world: World, c: Context) {
    && KnownInWorld(world, c.known) && Tidy(c.slots)
    && forall slot, b :: slot in c.slots && b in slot ==> Belongs(world, b)
  }

  /** Recording an arrival: the answer is membership in the set, and the set grows by the new key. */
  lemma RecordRefines(world: World, known: seq<Known>, b: Bundle, seen: set<(nat, nat)>, last: nat, now: nat)
    requires KnownInWorld(world, known) && Belongs(world, b) && last <= now
    requires KnownAgrees(world, known, b.origin, seen, last)
    ensures var (isKnown, after) := Record(known, b, now);
      && (isKnown <==> b.Deadline() < now || Key(b) in seen)
      && KnownInWorld(world, after)
      && KnownAgrees(world, after, b.origin, if isKnown then seen else seen + {Key(b)}, now)
  {
    var entry := Known(b.Id(), b.Deadline());
    assert entry == Entry(world, b.origin, Key(b));
    if now <= b.Deadline() {
      RecordFindsExactly(known, b, now);
      FindsIsMembership(known, b.Id(), b.Deadline());
      SearchKeeps(known, entry, now);
    }
  }

  lemma RecordKeepsOthers(world: World, known: seq<Known>, b: Bundle, o: Origin, seen: set<(nat, nat)>,
                          last: nat, now: nat)
    requires KnownInWorld(world, known) && Belongs(world, b) && last <= now
    requires o in world && o != b.origin && KnownAgrees(world, known, o, seen, last)
    ensures KnownAgrees(world, Record(known, b, now).1, o, seen, now)
  {
    var entry := Known(b.Id(), b.Deadline());
    if now <= b.Deadline() {
      SearchKeeps(known, entry, now);
      assert forall k: (nat, nat) :: Entry(world, o, k) != entry;
    }
  }

  lemma ReassembledIsMembership(world: World, known: seq<Known>, b: Bundle, seen: set<(nat, nat)>, now: nat)
    requires KnownInWorld(world, known) && Belongs(world, b) && now <= b.Deadline()
    requires KnownAgrees(world, known, b.origin, seen, now)
    ensures ReassembledIsKnown(known, b) <==> (0, b.total as nat) in seen
  {
    assert Known(b.WholeId(), b.Deadline()) == Entry(world, b.origin, (0, b.total as nat));
    ReassembledFindsExactly(known, b);
    FindsIsMembership(known, b.WholeId(), b.Deadline());
  }

  lemma AddReassembledRefines(world: World, known: seq<Known>, b: Bundle, o: Origin, seen: set<(nat, nat)>, now: nat)
    requires KnownInWorld(world, known) && Belongs(world, b)
    requires o in world && KnownAgrees(world, known, o, seen, now)
    ensures KnownInWorld(world, AddReassembled(known, b))
    ensures KnownAgrees(world, AddReassembled(known, b), o,
                        if o == b.origin then seen + {(0, b.total as nat)} else seen, now)
  {
    var entry := Known(b.WholeId(), b.Deadline());
    assert entry == Entry(world, b.origin, (0, b.total as nat));
    InsertKeeps(known, entry);
  }

  lemma {:induction false} AddMembers(list: seq<Bundle>, b: Bundle)
    ensures forall d :: d in AddFragment(list, b) <==> d == b || d in list
    ensures |AddFragment(list, b)| > 0
    ensures AddFragment(list, b)[0] == if |list| > 0 && list[0].offset <= b.offset then list[0] else b
  {
    if list != [] && list[0].offset <= b.offset {
      AddMembers(list[1..], b);
      assert list == [list[0]] + list[1..];
    }
  }

  /** Putting a fragment away changes the slot of its own ADU only. */
  lemma PutChangesOneSlot(slots: seq<seq<Bundle>>, b: Bundle, o: Origin)
    requires Tidy(slots)
    ensures var r := PutFragment(slots, b);
      && Tidy(r)
      && SlotOf(r, o) == (if o == b.origin then AddFragment(SlotOf(slots, o), b) else SlotOf(slots, o))
      && r[FindSlot(slots, b.origin)] == AddFragment(SlotOf(slots, b.origin), b)
      && r[FindSlot(slots, b.origin)][0].origin == b.origin
  {
    hide SlotOf, AddFragment;
    var i := FindSlot(slots, b.origin);
    var list := AddFragment(SlotOf(slots, b.origin), b);
    AddMembers(SlotOf(slots, b.origin), b);
    SlotContent(slots, b.origin);
    if i < |slots| {
      SlotReplaced(slots, i, list, o);
    } else {
      AddToNone(b);
      SlotAppended(slots, list, o);
    }
  }

  lemma AddToNone(b: Bundle)
    ensures AddFragment([], b) == [b]
  {
  }

  lemma SlotContent(slots: seq<seq<Bundle>>, o: Origin)
    requires Tidy(slots)
    ensures forall slot :: slot in slots ==> |slot| > 0
    ensures var i := FindSlot(slots, o);
      SlotOf(slots, o) == if i < |slots| then slots[i] else []
    ensures |SlotOf(slots, o)| > 0 ==> SlotOf(slots, o)[0].origin == o
  {
  }

  lemma PutBelongs(world: World, c: Context, b: Bundle)
    requires Sound(world, c) && Belongs(world, b)
    ensures Sound(world, c.(slots := PutFragment(c.slots, b)))
  {
    hide Belongs, KnownInWorld, AddFragment;
    PutChangesOneSlot(c.slots, b, b.origin);
    var slots := PutFragment(c.slots, b);
    AddMembers(SlotOf(c.slots, b.origin), b);
    SlotContent(c.slots, b.origin);
    forall slot, d | slot in slots && d in slot ensures Belongs(world, d) {
      if slot !in c.slots && d != b {
        AddToNone(b);
        assert d in SlotOf(c.slots, b.origin);
        assert SlotOf(c.slots, b.origin) in c.slots;
      }
    }
  }

  lemma ReassemblyRefines(world: World, c: Context, i: nat, o: Origin, t: Track, now: nat)
    requires Sound(world, c) && i < |c.slots| && o in world
    requires Agrees(world, c, o, t, now)
    ensures var r := AfterReassembly(c, i);
      && Sound(world, r)
      && Agrees(world, r, o, if o == c.slots[i][0].origin then AfterScan(t, c.slots[i]) else t, now)
  {
    var list := c.slots[i];
    SlotIs(c.slots, i);
    if GapScan(list, 0) {
      assert list in c.slots && list[0] in list;
      AddReassembledRefines(world, c.known, list[0], o, t.seen, now);
      SlotRemoved(c.slots, i, o);
      DeliveriesAppend(c.delivered, Delivery(list[0].origin, Assemble(list, Zeros(list[0].total))), o);
    }
  }

  /** One arrival is one step of the track of its ADU. */
  lemma ArrivalRefines(world: World, c: Context, a: Arrival, t: Track, last: nat)
    requires Sound(world, c) && Belongs(world, a.bundle) && last <= a.now
    requires Agrees(world, c, a.bundle.origin, t, last)
    ensures Sound(world, c.(known := Record(c.known, a.bundle, a.now).1))
    ensures Sound(world, AfterDelivery(c, a))
    ensures Agrees(world, AfterDelivery(c, a), a.bundle.origin, TrackStep(t, a), a.now)
  {
    var b := a.bundle;
    var o := b.origin;
    RecordRefines(world, c.known, b, t.seen, last, a.now);
    var (isKnown, after) := Record(c.known, b, a.now);
    if !isKnown && (b.isAdminRecord || a.hasAgent) {
      var recorded := c.(known := after);
      var seen := t.(seen := t.seen + {Key(b)});
      assert Agrees(world, recorded, o, seen, a.now);
      if b.isFragment {
        ReassembledIsMembership(world, after, b, seen.seen, a.now);
        if !ReassembledIsKnown(after, b) {
          PutChangesOneSlot(c.slots, b, o);
          PutBelongs(world, recorded, b);
          var put := recorded.(slots := PutFragment(c.slots, b));
          var list := AddFragment(t.stored, b);
          assert Agrees(world, put, o, seen.(stored := list), a.now);
          ReassemblyRefines(world, put, FindSlot(c.slots, o), o, seen.(stored := list), a.now);
        }
      } else {
        DeliveriesAppend(c.delivered, Delivery(o, b.payload), o);
      }
    }
  }

  /** One arrival leaves the tracks of all other ADUs alone. */
  lemma ArrivalKeepsOthers(world: World, c: Context, a: Arrival, o: Origin, t: Track, last: nat)
    requires Sound(world, c) && Belongs(world, a.bundle) && last <= a.now
    requires o in world && o != a.bundle.origin && Agrees(world, c, o, t, last)
    requires Sound(world, c.(known := Record(c.known, a.bundle, a.now).1))
    ensures Agrees(world, AfterDelivery(c, a), o, t, a.now)
  {
    var b := a.bundle;
    RecordKeepsOthers(world, c.known, b, o, t.seen, last, a.now);
    var recorded := c.(known := Record(c.known, b, a.now).1);
    assert Agrees(world, recorded, o, t, a.now);
    PutChangesOneSlot(c.slots, b, o);
    PutBelongs(world, recorded, b);
    var put := recorded.(slots := PutFragment(c.slots, b));
    assert Agrees(world, put, o, t, a.now);
    ReassemblyRefines(world, put, FindSlot(c.slots, b.origin), o, t, a.now);
    DeliveriesAppend(c.delivered, Delivery(b.origin, b.payload), o);
  }

  function Last(arrivals: seq<Arrival>): nat {
    if arrivals == [] then 0 else arrivals[|arrivals| - 1].now
  }

  /** The clock never runs backwards and every bundle belongs to an ADU of the world. */
  predicate Plausible(world: World, arrivals: seq<Arrival>) {
    && (forall a :: a in arrivals ==> Belongs(world, a.bundle))
    && (forall i, j :: 0 <= i < j < |arrivals| ==> arrivals[i].now <= arrivals[j].now)
  }

  lemma StartRefines(world: World, o: Origin)
    requires o in world
    ensures Sound(world, INIT) && Agrees(world, INIT, o, NEW, 0)
  {
  }

  /** Over every run the processor is, for each ADU, its track. */
  lemma {:induction false} RunRefinesTracks(world: World, arrivals: seq<Arrival>, o: Origin)
    requires Plausible(world, arrivals) && o in world
    ensures Sound(world, Run(arrivals))
    ensures Agrees(world, Run(arrivals), o, TrackOf(arrivals, o), Last(arrivals))
  {
    hide AfterDelivery, TrackStep, Agrees, Sound, Record;
    if arrivals == [] {
      StartRefines(world, o);
    } else {
      var n := |arrivals| - 1;
      var front, a := arrivals[..n], arrivals[n];
      assert a in arrivals;
      RunRefinesTracks(world, front, o);
      RunRefinesTracks(world, front, a.bundle.origin);
      ArrivalRefines(world, Run(front), a, TrackOf(front, a.bundle.origin), Last(front));
      if o != a.bundle.origin {
        ArrivalKeepsOthers(world, Run(front), a, o, TrackOf(front, o), Last(front));
      }
    }
  }
}
