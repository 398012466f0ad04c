/**
 Bundle identity and the list of known bundles, by which the bundle processor
 drops what it has delivered before. The list is kept sorted by deadline, so
 that a search may stop early and expired entries can be purged on the way.
 */
module KnownBundles {
  import opened Bytes

  /** What all fragments of one ADU share; section 5.8 of RFC 9171 makes it unique. */
  datatype Origin = Origin(source: string, creation: nat, sequence: nat)

  datatype BundleId = BundleId(version: nat, origin: Origin, offset: nat, length: nat)

  datatype Bundle = Bundle(
    version: nat, origin: Origin, lifetime: nat, age: Option<nat>, receivedAt: nat,
    isFragment: bool, isAdminRecord: bool, offset: U64, total: U64, payload: seq<Byte>)
  {
    function Id(): BundleId {
      BundleId(version, origin, offset, |payload|)
    }

    /** The identity the ADU has once it is put together. */
    function WholeId(): BundleId {
      BundleId(version, origin, 0, total)
    }

    /** Absolute expiry; a bundle without creation time counts from its reception. */
    function Deadline(): nat {
      if origin.creation != 0 then origin.creation + lifetime
      else if age.None? then 0
      else if lifetime <= age.value then 0
      else lifetime - age.value + receivedAt
    }
  }

  /**
   A bundle has expired exactly if it is older than its lifetime: by its creation time, or
   else by the age it came with and the time since; one without either lives to time 0.
   */
  lemma ExpiredExactly(b: Bundle, now: nat)
    ensures b.origin.creation != 0 ==> (b.Deadline() < now <==> now - b.origin.creation > b.lifetime)
    ensures b.origin.creation == 0 && b.age.Some? && b.age.value < b.lifetime ==>
      (b.Deadline() < now <==> b.age.value + (now - b.receivedAt) > b.lifetime)
    ensures b.origin.creation == 0 && (b.age.None? || b.age.value >= b.lifetime) ==> (b.Deadline() < now <==> now > 0)
  {
  }

  datatype Known = Known(id: BundleId, deadline: nat)

  predicate Sorted(list: seq<Known>) {
    forall i, j :: 0 <= i < j < |list| ==> list[i].deadline <= list[j].deadline
  }

  /** The list with `entry` in front of the first entry that expires later. */
  function Insert(list: seq<Known>, entry: Known): seq<Known> {
    if list == [] || list[0].deadline > entry.deadline then [entry] + list
    else [list[0]] + Insert(list[1..], entry)
  }

  /** One pass that looks for the id, purges expired entries and inserts where a search would stop. */
  function Search(list: seq<Known>, entry: Known, now: nat): (bool, seq<Known>) {
    if list == [] then (false, [entry])
    else if list[0].id == entry.id then (true, list)
    else if list[0].deadline < now then Search(list[1..], entry, now)
    else if list[0].deadline > entry.deadline then (false, [entry] + list)
    else
      var (found, rest) := Search(list[1..], entry, now);
      (found, [list[0]] + rest)
  }

  /** Whether the bundle counts as known at time `now`, and the list afterwards. */
  function Record(list: seq<Known>, b: Bundle, now: nat): (bool, seq<Known>) {
    if b.Deadline() < now then (true, list) else Search(list, Known(b.Id(), b.Deadline()), now)
  }

  predicate ReassembledIsKnown(list: seq<Known>, b: Bundle) {
    if list == [] then false
    else if list[0].id == b.WholeId() then true
    else if list[0].deadline > b.Deadline() then false
    else ReassembledIsKnown(list[1..], b)
  }

  function AddReassembled(list: seq<Known>, b: Bundle): seq<Known> {
    Insert(list, Known(b.WholeId(), b.Deadline()))
  }

  // ---- What the searches find ----

  /** A search by deadline reaches position `i`: nothing in front of it expires later. */
  predicate Reaches(list: seq<Known>, deadline: nat, i: nat)
    requires i < |list|
  {
    forall j :: 0 <= j < i ==> list[j].deadline <= deadline
  }

  ghost predicate Finds(list: seq<Known>, id: BundleId, deadline: nat) {
    exists i :: 0 <= i < |list| && list[i].id == id && Reaches(list, deadline, i)
  }

  lemma {:induction false} FindsTail(list: seq<Known>, id: BundleId, deadline: nat)
    requires |list| > 0
    ensures Finds(list, id, deadline) <==>
      list[0].id == id || (list[0].deadline <= deadline && Finds(list[1..], id, deadline))
  {
    if Finds(list, id, deadline) {
      var i :| 0 <= i < |list| && list[i].id == id && Reaches(list, deadline, i);
      if i > 0 {
        assert list[1..][i - 1].id == id;
        assert list[0].deadline <= deadline;
        assert forall j :: 0 <= j < i - 1 ==> list[1..][j] == list[j + 1];
        assert Reaches(list[1..], deadline, i - 1);
      }
    }
    if list[0].id == id {
      assert Reaches(list, deadline, 0);
    } else if list[0].deadline <= deadline && Finds(list[1..], id, deadline) {
      var i :| 0 <= i < |list[1..]| && list[1..][i].id == id && Reaches(list[1..], deadline, i);
      assert list[i + 1].id == id;
      forall j | 0 <= j < i + 1 ensures list[j].deadline <= deadline {
        if j > 0 {
          assert list[1..][j - 1] == list[j];
        }
      }
      assert Reaches(list, deadline, i + 1);
    }
  }

  /** An unexpired bundle is recognised exactly if its entry is not behind one that expires later. */
  lemma {:induction false} RecordFindsExactly(list: seq<Known>, b: Bundle, now: nat)
    requires now <= b.Deadline()
    ensures Record(list, b, now).0 <==> Finds(list, b.Id(), b.Deadline())
  {
    SearchFindsExactly(list, Known(b.Id(), b.Deadline()), now);
  }

  lemma {:induction false} SearchFindsExactly(list: seq<Known>, entry: Known, now: nat)
    requires now <= entry.deadline
    ensures Search(list, entry, now).0 <==> Finds(list, entry.id, entry.deadline)
  {
    if list != [] {
      FindsTail(list, entry.id, entry.deadline);
      SearchFindsExactly(list[1..], entry, now);
    }
  }

  lemma {:induction false} ReassembledFindsExactly(list: seq<Known>, b: Bundle)
    ensures ReassembledIsKnown(list, b) <==> Finds(list, b.WholeId(), b.Deadline())
  {
    if list != [] {
      FindsTail(list, b.WholeId(), b.Deadline());
      ReassembledFindsExactly(list[1..], b);
    }
  }

  // ---- What the updates keep ----

  lemma SortedTail(list: seq<Known>)
    requires |list| > 0 && Sorted(list)
    ensures Sorted(list[1..])
    ensures forall e :: e in list[1..] ==> list[0].deadline <= e.deadline
  {
  }

  lemma SortedFront(head: Known, rest: seq<Known>)
    requires Sorted(rest)
    requires forall e :: e in rest ==> head.deadline <= e.deadline
    ensures Sorted([head] + rest)
  {
    var list := [head] + rest;
    forall i, j | 0 <= i < j < |list| ensures list[i].deadline <= list[j].deadline {
      assert list[j] == rest[j - 1];
      if i > 0 {
        assert list[i] == rest[i - 1];
      } else {
        assert rest[j - 1] in rest;
      }
    }
  }

  lemma {:induction false} InsertKeeps(list: seq<Known>, entry: Known)
    requires Sorted(list)
    ensures Sorted(Insert(list, entry))
    ensures forall e :: e in Insert(list, entry) <==> e == entry || e in list
  {
    if list == [] || list[0].deadline > entry.deadline {
      if list != [] {
        SortedTail(list);
      }
      SortedFront(entry, list);
    } else {
      assert list == [list[0]] + list[1..];
      SortedTail(list);
      InsertKeeps(list[1..], entry);
      SortedFront(list[0], Insert(list[1..], entry));
    }
  }

  /**
   Recording keeps the order, loses nothing that could still match an unexpired
   bundle, and adds exactly the new entry, and only when the bundle is new.
   */
  lemma {:induction false} SearchKeeps(list: seq<Known>, entry: Known, now: nat)
    requires Sorted(list)
    ensures var (found, after) := Search(list, entry, now);
      && Sorted(after)
      && (forall e :: e in list && now <= e.deadline ==> e in after)
      && (forall e :: e in after ==> e in list || (!found && e == entry))
      && (!found ==> entry in after)
  {
    if list == [] {
    } else if list[0].id == entry.id {
    } else if list[0].deadline < now {
      SortedTail(list);
      SearchKeeps(list[1..], entry, now);
    } else if list[0].deadline > entry.deadline {
      SortedTail(list);
      SortedFront(entry, list);
    } else {
      assert list == [list[0]] + list[1..];
      SortedTail(list);
      SearchKeeps(list[1..], entry, now);
      SortedFront(list[0], Search(list[1..], entry, now).1);
    }
  }

  /** With one deadline per id, early stopping loses nothing: the list is as good as a set. */
  lemma FindsIsMembership(list: seq<Known>, id: BundleId, deadline: nat)
    requires Sorted(list)
    requires forall e :: e in list && e.id == id ==> e.deadline == deadline
    ensures Finds(list, id, deadline) <==> Known(id, deadline) in list
  {
    if Finds(list, id, deadline) {
      var i :| 0 <= i < |list| && list[i].id == id && Reaches(list, deadline, i);
      assert list[i] in list;
    }
    if Known(id, deadline) in list {
      var i :| 0 <= i < |list| && list[i] == Known(id, deadline);
      assert Reaches(list, deadline, i);
    }
  }

  /**
   A bundle without creation time, recorded with deadline 100, is taken for new when a
   copy arrives that has aged more, if another entry expires between the two deadlines.
   */
  lemma ClocklessCopyIsNew(b: Bundle, other: Bundle)
    requires b.origin.creation == 0 && other.origin.creation == 0 && other.Id() != b.Id()
    ensures
      var early := b.(lifetime := 100, age := Some(0), receivedAt := 0);
      var late := b.(lifetime := 100, age := Some(60), receivedAt := 10);
      var between := other.(lifetime := 100, age := Some(20), receivedAt := 0);
      var list := Record(Record([], early, 0).1, between, 0).1;
      early.Id() == late.Id() && !Record(list, late, 10).0
  {
    var early := b.(lifetime := 100, age := Some(0), receivedAt := 0);
    var between := other.(lifetime := 100, age := Some(20), receivedAt := 0);
    assert Record([], early, 0) == (false, [Known(b.Id(), 100)]);
    assert between.Id() == other.Id() && between.Deadline() == 80;
    assert [Known(other.Id(), 80)] + [Known(b.Id(), 100)] == [Known(other.Id(), 80), Known(b.Id(), 100)];
    assert Record([Known(b.Id(), 100)], between, 0) == (false, [Known(other.Id(), 80), Known(b.Id(), 100)]);
  }
}
