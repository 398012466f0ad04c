/**
 Putting the fragments of one ADU together: the fragment list sorted by offset,
 the scan that looks for gaps and the copy into the reassembly buffer. Offsets
 and lengths are unsigned 64-bit numbers and wrap around.
 */
module Reassembly {
  import opened Bytes
  import opened KnownBundles

  function Add64(a: nat, b: nat): nat {
    (a + b) % U64_LIMIT
  }

  function Min(a: nat, b: nat): nat {
    if a <= b then a else b
  }

  function End(b: Bundle): nat {
    b.offset + |b.payload|
  }

  /** The list with `b` in front of the first fragment that begins behind it. */
  function AddFragment(list: seq<Bundle>, b: Bundle): seq<Bundle> {
    if list == [] || list[0].offset > b.offset then [b] + list
    else [list[0]] + AddFragment(list[1..], b)
  }

  /** Whether the scan reaches the end of the ADU without meeting a gap. */
  predicate GapScan(list: seq<Bundle>, pos: nat) {
    if list == [] then false
    else if list[0].offset > pos then false
    else
      var next := Add64(list[0].offset, |list[0].payload|);
      if next >= list[0].total then true else GapScan(list[1..], next)
  }

  datatype Copy = Copy(pos: nat, buffer: seq<Byte>)

  predicate CopyValid(c: Copy) {
    c.pos <= |c.buffer| < U64_LIMIT
  }

  /** One round of the copy loop; whatever the fragment says, it stays inside both byte strings. */
  function CopyOne(b: Bundle, c: Copy): (r: Copy)
    requires CopyValid(c)
    ensures CopyValid(r) && |r.buffer| == |c.buffer|
    ensures c.pos <= r.pos && r.buffer[..c.pos] == c.buffer[..c.pos]
  {
    var off := Sub64(c.pos, b.offset);
    if off < |b.payload| then
      var n := Min(|b.payload| - off, |c.buffer| - c.pos);
      Copy(c.pos + n, c.buffer[..c.pos] + b.payload[off..off + n] + c.buffer[c.pos + n..])
    else c
  }

  function CopyAll(list: seq<Bundle>, c: Copy): (r: Copy)
    requires CopyValid(c)
    ensures CopyValid(r) && |r.buffer| == |c.buffer|
  {
    if list == [] then c else CopyAll(list[1..], CopyOne(list[0], c))
  }

  /** The buffer after the copy loop, starting from uninitialised memory `memory`. */
  function Assemble(list: seq<Bundle>, memory: seq<Byte>): seq<Byte>
    requires |memory| < U64_LIMIT
  {
    CopyAll(list, Copy(0, memory)).buffer
  }

  // ---- Fragments of one ADU ----

  predicate SliceOf(b: Bundle, adu: seq<Byte>) {
    && b.total == |adu| < U64_LIMIT
    && End(b) <= |adu|
    && b.payload == adu[b.offset..End(b)]
  }

  predicate Slices(list: seq<Bundle>, adu: seq<Byte>) {
    forall b :: b in list ==> SliceOf(b, adu)
  }

  predicate Copied(c: Copy, adu: seq<Byte>) {
    CopyValid(c) && |c.buffer| == |adu| && c.buffer[..c.pos] == adu[..c.pos]
  }

  lemma CopyOneOfSlice(b: Bundle, c: Copy, adu: seq<Byte>)
    requires Copied(c, adu) && SliceOf(b, adu)
    ensures Copied(CopyOne(b, c), adu)
    ensures b.offset <= c.pos ==> CopyOne(b, c).pos >= End(b)
    ensures CopyOne(b, c).pos >= c.pos
  {
    var r := CopyOne(b, c);
    if c.pos < b.offset {
      assert Sub64(c.pos, b.offset) == c.pos - b.offset + U64_LIMIT;
    } else {
      assert Sub64(c.pos, b.offset) == c.pos - b.offset;
      if c.pos < End(b) {
        var off := c.pos - b.offset;
        assert b.payload[off..] == adu[c.pos..End(b)];
        assert r.pos == End(b);
        assert r.buffer[..r.pos] == adu[..c.pos] + adu[c.pos..End(b)];
      }
    }
  }

  lemma {:induction false} CopyKeepsPrefix(list: seq<Bundle>, c: Copy, adu: seq<Byte>)
    requires Copied(c, adu) && Slices(list, adu)
    ensures Copied(CopyAll(list, c), adu) && CopyAll(list, c).pos >= c.pos
  {
    if list != [] {
      CopyOneOfSlice(list[0], c, adu);
      CopyKeepsPrefix(list[1..], CopyOne(list[0], c), adu);
    }
  }

  /** As soon as the scan succeeds the copy loop produces the whole ADU, whatever overlaps. */
  lemma {:induction false} ScanSound(list: seq<Bundle>, pos: nat, c: Copy, adu: seq<Byte>)
    requires Copied(c, adu) && Slices(list, adu)
    requires pos <= c.pos && GapScan(list, pos)
    ensures CopyAll(list, c) == Copy(|adu|, adu)
  {
    var b := list[0];
    assert SliceOf(b, adu);
    assert Add64(b.offset, |b.payload|) == End(b);
    CopyOneOfSlice(b, c, adu);
    var next := CopyOne(b, c);
    if End(b) >= b.total {
      CopyKeepsPrefix(list[1..], next, adu);
      var last := CopyAll(list[1..], next);
      assert last.buffer[..last.pos] == adu[..last.pos];
      assert last.buffer == last.buffer[..last.pos];
    } else {
      ScanSound(list[1..], End(b), next, adu);
    }
  }

  /** Reassembly is sound for every list of slices, overlapping, nested or repeated. */
  lemma ReassemblySound(list: seq<Bundle>, memory: seq<Byte>, adu: seq<Byte>)
    requires Slices(list, adu) && |memory| == |adu| < U64_LIMIT
    requires GapScan(list, 0)
    ensures Assemble(list, memory) == adu
  {
    ScanSound(list, 0, Copy(0, memory), adu);
  }

  // ---- When the scan succeeds ----

  ghost predicate CoveredBy(list: seq<Bundle>, x: nat) {
    exists b :: b in list && b.offset <= x < End(b)
  }

  ghost predicate Covers(list: seq<Bundle>, from: nat, to: nat) {
    forall x :: from <= x < to ==> CoveredBy(list, x)
  }

  /** Sorted by offset, and no fragment ends before one that begins earlier. */
  predicate InOrder(list: seq<Bundle>) {
    forall i, j :: 0 <= i < j < |list| ==> list[i].offset <= list[j].offset && End(list[i]) <= End(list[j])
  }

  /** Success of the scan means that every byte is there. */
  lemma {:induction false} ScanCovers(list: seq<Bundle>, pos: nat, adu: seq<Byte>)
    requires Slices(list, adu) && GapScan(list, pos)
    ensures Covers(list, pos, |adu|)
  {
    var b := list[0];
    assert SliceOf(b, adu);
    assert Add64(b.offset, |b.payload|) == End(b);
    if End(b) < b.total {
      ScanCovers(list[1..], End(b), adu);
    }
    forall x | pos <= x < |adu| ensures CoveredBy(list, x) {
      if x >= End(b) {
        assert CoveredBy(list[1..], x);
        var d :| d in list[1..] && d.offset <= x < End(d);
        assert d in list;
      }
    }
  }

  /** Without nesting the scan is complete: all bytes present means success. */
  lemma {:induction false} ScanComplete(list: seq<Bundle>, pos: nat, adu: seq<Byte>)
    requires Slices(list, adu) && InOrder(list)
    requires pos < |adu| && Covers(list, pos, |adu|)
    requires forall b :: b in list ==> pos <= End(b)
    ensures GapScan(list, pos)
  {
    assert CoveredBy(list, pos);
    var b := list[0];
    var d :| d in list && d.offset <= pos < End(d);
    assert b.offset <= d.offset;
    assert SliceOf(b, adu);
    assert Add64(b.offset, |b.payload|) == End(b);
    if End(b) < |adu| {
      forall x | End(b) <= x < |adu| ensures CoveredBy(list[1..], x) {
        assert CoveredBy(list, x);
        var e :| e in list && e.offset <= x < End(e);
        assert e in list[1..];
      }
      forall e | e in list[1..] ensures End(b) <= End(e) {
        var i :| 0 <= i < |list[1..]| && list[1..][i] == e;
        assert list[i + 1] == e;
      }
      ScanComplete(list[1..], End(b), adu);
    }
  }

  predicate SortedByOffset(list: seq<Bundle>) {
    forall i, j :: 0 <= i < j < |list| ==> list[i].offset <= list[j].offset
  }

  /** The fragment at `i` ends in front of the next one, and none up to it reaches the end. */
  predicate StopsAt(list: seq<Bundle>, i: nat, length: nat)
    requires i + 1 < |list|
  {
    && End(list[i]) < list[i + 1].offset
    && forall j :: 0 <= j <= i ==> End(list[j]) < length
  }

  predicate Stops(list: seq<Bundle>, length: nat) {
    exists i :: 0 <= i < |list| - 1 && StopsAt(list, i, length)
  }

  lemma {:induction false} StopsTail(list: seq<Bundle>, length: nat)
    requires |list| > 1
    ensures Stops(list, length) <==>
      End(list[0]) < length && (End(list[0]) < list[1].offset || Stops(list[1..], length))
  {
    if Stops(list, length) {
      var i :| 0 <= i < |list| - 1 && StopsAt(list, i, length);
      if i > 0 {
        assert StopsAt(list[1..], i - 1, length);
      }
    }
    if End(list[0]) < length {
      if End(list[0]) < list[1].offset {
        assert StopsAt(list, 0, length);
      } else if Stops(list[1..], length) {
        var i :| 0 <= i < |list[1..]| - 1 && StopsAt(list[1..], i, length);
        forall j | 0 <= j <= i + 1 ensures End(list[j]) < length {
          if j > 0 {
            assert list[1..][j - 1] == list[j];
          }
        }
        assert StopsAt(list, i + 1, length);
      }
    }
  }

  lemma {:induction false} ScanUnlessStopped(list: seq<Bundle>, pos: nat, adu: seq<Byte>)
    requires Slices(list, adu) && |list| > 0 && list[0].offset <= pos
    requires exists b :: b in list && End(b) == |adu|
    ensures GapScan(list, pos) <==> !Stops(list, |adu|)
  {
    var b := list[0];
    assert SliceOf(b, adu);
    assert Add64(b.offset, |b.payload|) == End(b);
    if |list| > 1 {
      StopsTail(list, |adu|);
      if End(b) < |adu| && list[1].offset <= End(b) {
        var d :| d in list && End(d) == |adu|;
        assert d in list[1..];
        ScanUnlessStopped(list[1..], End(b), adu);
      }
    }
  }

  /**
   For a sorted list that holds every byte of the ADU the scan succeeds exactly
   unless it meets a fragment that ends in front of its successor.
   */
  lemma ScanExactly(list: seq<Bundle>, adu: seq<Byte>)
    requires Slices(list, adu) && SortedByOffset(list)
    requires |adu| > 0 && Covers(list, 0, |adu|)
    ensures GapScan(list, 0) <==> !Stops(list, |adu|)
  {
    assert CoveredBy(list, 0);
    assert CoveredBy(list, |adu| - 1);
    var d :| d in list && d.offset <= |adu| - 1 < End(d);
    assert SliceOf(d, adu);
    ScanUnlessStopped(list, 0, adu);
  }

  /** A fragment that stops the scan lies inside one that begins no later and ends later. */
  lemma StoppedByNested(list: seq<Bundle>, i: nat, adu: seq<Byte>)
    requires Slices(list, adu) && SortedByOffset(list) && Covers(list, 0, |adu|)
    requires i + 1 < |list| && StopsAt(list, i, |adu|)
    ensures exists j :: 0 <= j < i && list[j].offset <= list[i].offset && End(list[i]) < End(list[j])
  {
    assert CoveredBy(list, End(list[i]));
    var d :| d in list && d.offset <= End(list[i]) < End(d);
    var j :| 0 <= j < |list| && list[j] == d;
    assert j < i;
  }

  /** Fragments [0, 4), [1, 2) and [3, 6) hold all six bytes, and the scan still reports a gap. */
  lemma NestedFragmentBlocks(base: Bundle, adu: seq<Byte>)
    requires |adu| == 6
    ensures
      var list := [base.(offset := 0, total := 6, payload := adu[..4]),
                   base.(offset := 1, total := 6, payload := adu[1..2]),
                   base.(offset := 3, total := 6, payload := adu[3..])];
      && Slices(list, adu) && SortedByOffset(list) && Covers(list, 0, 6) && !GapScan(list, 0)
  {
    var list := [base.(offset := 0, total := 6, payload := adu[..4]),
                 base.(offset := 1, total := 6, payload := adu[1..2]),
                 base.(offset := 3, total := 6, payload := adu[3..])];
    forall x | 0 <= x < 6 ensures CoveredBy(list, x) {
      assert list[if x < 4 then 0 else 2] in list;
    }
    assert list[1..][1..] == [list[2]];
    assert !GapScan([list[2]], 2);
    assert !GapScan(list[1..], 4);
  }

  /**
   The fragments [0, 3), [0, 0) and [3, 6) hold all bytes too. An empty first fragment
   that comes behind the one it shares its offset with stops the scan.
   */
  lemma EmptyFragmentBlocks(base: Bundle, adu: seq<Byte>)
    requires |adu| == 6
    ensures
      var list := [base.(offset := 0, total := 6, payload := adu[..3]),
                   base.(offset := 0, total := 6, payload := []),
                   base.(offset := 3, total := 6, payload := adu[3..])];
      && Slices(list, adu) && SortedByOffset(list) && Covers(list, 0, 6) && !GapScan(list, 0)
  {
    var list := [base.(offset := 0, total := 6, payload := adu[..3]),
                 base.(offset := 0, total := 6, payload := []),
                 base.(offset := 3, total := 6, payload := adu[3..])];
    forall x | 0 <= x < 6 ensures CoveredBy(list, x) {
      assert list[if x < 3 then 0 else 2] in list;
    }
    assert list[1..][1..] == [list[2]];
    assert !GapScan([list[2]], 0);
    assert !GapScan(list[1..], 3);
  }

  // ---- The sorted list ----

  lemma {:induction false} AddKeeps(list: seq<Bundle>, b: Bundle)
    requires SortedByOffset(list)
    ensures SortedByOffset(AddFragment(list, b))
    ensures forall d :: d in AddFragment(list, b) <==> d == b || d in list
    ensures |AddFragment(list, b)| == |list| + 1
  {
    if list != [] && list[0].offset <= b.offset {
      AddKeeps(list[1..], b);
      var rest := AddFragment(list[1..], b);
      var all := [list[0]] + rest;
      forall i, j | 0 <= i < j < |all| ensures all[i].offset <= all[j].offset {
        assert all[j] == rest[j - 1];
        if i > 0 {
          assert all[i] == rest[i - 1];
        } else {
          assert rest[j - 1] in rest;
        }
      }
      assert list == [list[0]] + list[1..];
    }
  }
}
