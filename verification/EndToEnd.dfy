/**
 From the fragmenting sender to the delivering receiver: however often an ADU is
 cut, and fragments are cut again, the receiver delivers it exactly once, as soon
 as every piece of the final cut has come at least once, in whatever order.
 */
module EndToEnd {
  import opened Bytes
  import opened Bundle7
  import opened Fragmentation
  import K = KnownBundles
  import L = LocalDelivery
  import R = Reassembly
  import T = DeliveryTracks
  import E = ExactlyOnce

  /** Non-empty fragments that, in order, make up the ADU. */
  predicate CutOf(cut: seq<Bundle>, adu: seq<Byte>) {
    && Contiguous(cut, 0) && Joined(cut) == adu && AllNonEmpty(cut)
    && forall f :: f in cut ==> f.IsFragment() && f.total == |adu|
  }

  /** Fragmenting an unfragmented bundle produces a cut of its payload. */
  lemma FragmentationCuts(b: Bundle, mbs: nat, room: nat)
    requires InRange(b, mbs) && SerializedSize(b) > mbs > FirstMinSize(b)
    requires !b.IsFragment() && FragmentAndEnqueue(b, mbs, room).ok
    ensures CutOf(FragmentAndEnqueue(b, mbs, room).sent, b.payload.data)
  {
    hide MinSize, SerializedSize, FragmentAndEnqueue;
    CutIsGood(b, mbs, room);
  }

  lemma {:induction false} ContiguousAppend(a: seq<Bundle>, c: seq<Bundle>, from: nat)
    ensures Joined(a + c) == Joined(a) + Joined(c)
    ensures Contiguous(a + c, from) <==> Contiguous(a, from) && Contiguous(c, from + |Joined(a)|)
  {
    if a == [] {
      assert a + c == c;
    } else {
      assert (a + c)[1..] == a[1..] + c;
      ContiguousAppend(a[1..], c, from + |a[0].payload.data|);
    }
  }

  lemma SplitCut(cut: seq<Bundle>, k: nat)
    requires k < |cut| && Contiguous(cut, 0)
    ensures cut[k].offset == |Joined(cut[..k])|
    ensures Contiguous(cut[..k], 0) && Contiguous(cut[k + 1..], cut[k].offset + |cut[k].payload.data|)
    ensures Joined(cut) == Joined(cut[..k]) + cut[k].payload.data + Joined(cut[k + 1..])
  {
    assert cut == cut[..k] + cut[k..];
    assert cut[k..] == [cut[k]] + cut[k + 1..];
    ContiguousAppend(cut[..k], cut[k..], 0);
  }

  /** Cutting a fragment again, anywhere on its way, refines the cut of the whole ADU. */
  lemma RefragmentationCuts(cut: seq<Bundle>, k: nat, adu: seq<Byte>, mbs: nat, room: nat)
    requires CutOf(cut, adu) && k < |cut|
    requires InRange(cut[k], mbs) && SerializedSize(cut[k]) > mbs > FirstMinSize(cut[k])
    requires FragmentAndEnqueue(cut[k], mbs, room).ok
    ensures CutOf(cut[..k] + FragmentAndEnqueue(cut[k], mbs, room).sent + cut[k + 1..], adu)
  {
    hide MinSize, SerializedSize, FragmentAndEnqueue, Contiguous, Joined, Fits;
    var sent := FragmentAndEnqueue(cut[k], mbs, room).sent;
    CutIsGood(cut[k], mbs, room);
    SplitCut(cut, k);
    assert Joined(sent) == cut[k].payload.data;
    ContiguousAppend(cut[..k], sent, 0);
    ContiguousAppend(cut[..k] + sent, cut[k + 1..], 0);
    forall f | f in sent ensures |f.payload.data| > 0 && f.IsFragment() && f.total == |adu| {
      FitsMeans(cut[k], f, mbs);
    }
  }

  lemma FitsMeans(b: Bundle, f: Bundle, mbs: nat)
    requires b.IsFragment() && Fits(b, f, mbs)
    ensures |f.payload.data| > 0 && f.IsFragment() && f.total == b.total
  {
  }

  // ---- A cut on its way ----

  function EndOf(f: Bundle): nat {
    f.offset + |f.payload.data|
  }

  lemma {:induction false} LaterBeginsBehind(cut: seq<Bundle>, from: nat, i: nat, j: nat)
    requires Contiguous(cut, from) && i < j < |cut|
    ensures EndOf(cut[i]) <= cut[j].offset
    ensures from <= cut[j].offset
  {
    if i == 0 {
      FirstBeginsBefore(cut[1..], EndOf(cut[0]), j - 1);
    } else {
      LaterBeginsBehind(cut[1..], EndOf(cut[0]), i - 1, j - 1);
    }
  }

  lemma {:induction false} FirstBeginsBefore(cut: seq<Bundle>, from: nat, j: nat)
    requires Contiguous(cut, from) && j < |cut|
    ensures from <= cut[j].offset
  {
    if j > 0 {
      FirstBeginsBefore(cut[1..], EndOf(cut[0]), j - 1);
    }
  }

  lemma {:induction false} Locate(cut: seq<Bundle>, from: nat, x: nat) returns (k: nat)
    requires Contiguous(cut, from) && from <= x < from + |Joined(cut)|
    ensures k < |cut| && cut[k].offset <= x < EndOf(cut[k])
  {
    if x < EndOf(cut[0]) {
      k := 0;
    } else {
      k := Locate(cut[1..], EndOf(cut[0]), x);
      k := k + 1;
    }
  }

  /** The received bundle `b` is the fragment `f` of the sender. */
  predicate Carries(b: K.Bundle, f: Bundle) {
    b.isFragment && b.offset == f.offset && b.payload == f.payload.data
  }

  ghost predicate FromCut(pieces: set<K.Bundle>, cut: seq<Bundle>) {
    forall b :: b in pieces ==> exists k :: 0 <= k < |cut| && Carries(b, cut[k])
  }

  ghost predicate Arrived(pieces: set<K.Bundle>, f: Bundle) {
    exists b :: b in pieces && Carries(b, f)
  }

  ghost predicate AllArrived(pieces: set<K.Bundle>, cut: seq<Bundle>) {
    forall k :: 0 <= k < |cut| ==> Arrived(pieces, cut[k])
  }

  lemma CutDoesNotNest(pieces: set<K.Bundle>, cut: seq<Bundle>, adu: seq<Byte>)
    requires CutOf(cut, adu) && FromCut(pieces, cut)
    ensures E.NonNested(pieces)
  {
    forall b, d | b in pieces && d in pieces && b.isFragment && d.isFragment && b.offset <= d.offset
      ensures R.End(b) <= R.End(d)
    {
      var i :| 0 <= i < |cut| && Carries(b, cut[i]);
      var j :| 0 <= j < |cut| && Carries(d, cut[j]);
      assert cut[i] in cut && cut[j] in cut;
      if i < j {
        LaterBeginsBehind(cut, 0, i, j);
      } else if j < i {
        LaterBeginsBehind(cut, 0, j, i);
      }
    }
  }

  lemma ArrivedIsComplete(pieces: set<K.Bundle>, cut: seq<Bundle>, adu: seq<Byte>)
    requires CutOf(cut, adu) && |adu| > 0 && AllArrived(pieces, cut)
    ensures E.Complete(pieces, adu)
  {
    var first := Locate(cut, 0, 0);
    assert Arrived(pieces, cut[first]);
    forall x | 0 <= x < |adu| ensures E.Has(pieces, x) {
      var k := Locate(cut, 0, x);
      assert Arrived(pieces, cut[k]);
    }
  }

  lemma CompleteHasArrived(pieces: set<K.Bundle>, cut: seq<Bundle>, adu: seq<Byte>)
    requires CutOf(cut, adu) && FromCut(pieces, cut) && E.Complete(pieces, adu)
    ensures AllArrived(pieces, cut)
  {
    forall k | 0 <= k < |cut| ensures Arrived(pieces, cut[k]) {
      SplitCut(cut, k);
      assert cut[k] in cut;
      var x := cut[k].offset;
      assert x < |adu|;
      assert E.Has(pieces, x);
      var b :| b in pieces && b.offset <= x < R.End(b);
      var i :| 0 <= i < |cut| && Carries(b, cut[i]);
      if i < k {
        LaterBeginsBehind(cut, 0, i, k);
      } else if k < i {
        LaterBeginsBehind(cut, 0, k, i);
      }
    }
  }

  /**
   Fragmentation, any reordering and duplication in the network, and reassembly are
   the identity: the ADU is delivered once, with its bytes, exactly if every piece of
   the cut has come in time.
   */
  lemma EndToEndExactlyOnce(world: T.World, arrivals: seq<L.Arrival>, o: K.Origin, cut: seq<Bundle>)
    requires E.GenuineRun(world, arrivals) && o in world && E.Deliverable(arrivals, o)
    requires CutOf(cut, world[o].data) && |world[o].data| > 0
    requires FromCut(E.Pieces(arrivals, o), cut)
    ensures T.Deliveries(L.Run(arrivals).delivered, o) ==
      if AllArrived(E.Pieces(arrivals, o), cut) then [world[o].data] else []
  {
    hide E.Complete, E.GenuineRun, E.Deliverable, E.Pieces, CutOf, FromCut, AllArrived;
    var pieces, adu := E.Pieces(arrivals, o), world[o].data;
    CutDoesNotNest(pieces, cut, adu);
    E.DeliveredExactlyOnce(world, arrivals, o);
    if AllArrived(pieces, cut) {
      ArrivedIsComplete(pieces, cut, adu);
    } else if E.Complete(pieces, adu) {
      CompleteHasArrived(pieces, cut, adu);
    }
  }
}
