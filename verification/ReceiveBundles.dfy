/**
 Bundles sent back to back, and what the receive task has handed over of them: exactly,
 in terms of the bundles and of the rounds in which their ends come. A bundle whose last
 block is empty is special: if the stream ends with it, it takes a further round.
 */
module ReceiveBundles {
  import opened Bytes
  import Bundle6
  import Bundle6Serializer
  import opened Bundle6Parser
  import opened Bundle6RoundTrip
  import opened ReceiveStream
  import opened ReceiveTask
  import Sdnv

  predicate EndsEmpty(b: Bundle6.Bundle) {
    b.blocks != [] && b.blocks[|b.blocks| - 1].length == 0
  }

  // ---- The parser around bulk data ----

  /** Between two bytes the parser is at block data exactly if it wants them in bulk, as many as the block says. */
  predicate Bulky(p: Parser) {
    p.status == Status.Good ==>
      && (p.stage == BlockData <==> p.bulkRead) && (p.bulkRead ==> p.nextBytes == Get(p, DataLength))
      && p.sent == None && p.stage != Finished
  }

  lemma AdvanceIsBulky(p: Parser)
    requires p.stage != BlockData && !p.bulkRead && p.sent == None && p.status == Status.Good && p.next != Finished
    ensures Bulky(Advance(p)) && Advance(p).status != Done && Advance(p).sent == None
  {
    hide Bundle6Parser.EnterDictionary, Bundle6Parser.Assemble;
    if p.next == Dictionary {
      DictionaryIsNoData(p);
    }
  }

  lemma DictionaryIsNoData(p: Parser)
    requires p.next == Dictionary
    ensures var q := EnterDictionary(p);
      q.next != BlockData && q.next != Finished && q.bulkRead == p.bulkRead && q.sent == p.sent
      && (q.status == p.status || q.status == Failed)
  {
    hide Get, CompressedEid;
  }

  lemma StageKeepsBulk(p: Parser, b: Byte)
    requires Valid(p) && !p.bulkRead && p.stage != BlockData && p.stage != Finished && p.sent == None
    requires p.status == Status.Good
    ensures var q := ReadInStage(p, b);
      && !q.bulkRead && q.stage == p.stage && q.sent == None && q.next != Finished
      && (q.status == Status.Good || q.status == Failed)
  {
    hide ReadNumber, ReadDictionary;
    if ReadsNumber(p.stage) {
      NumberKeepsBulk(p, b);
    } else if p.stage == Dictionary {
      DictionaryKeepsBulk(p, b);
    }
  }

  lemma NumberKeepsBulk(p: Parser, b: Byte)
    requires Valid(p) && ReadsNumber(p.stage) && p.status == Status.Good && p.sent == None && !p.bulkRead
    ensures var q := ReadNumber(p, b);
      && !q.bulkRead && q.stage == p.stage && q.sent == None && q.next != Finished
      && (q.status == Status.Good || q.status == Failed)
  {
    hide ReadEid, ReferenceAt, Sdnv.Read, CompressedEid, Get, Bundle6.IsLastBlock, Bundle6.HasEidRefs;
    var (sdnv, v) := Sdnv.Read(WidthOf(p.stage), p.sdnv, Get(p, p.stage), b);
    var q := WaitForSdnv(Set(p.(sdnv := sdnv), p.stage, v), Successor(p.stage));
    assert !q.bulkRead && q.stage == p.stage && q.sent == None && q.next != Finished;
  }

  lemma DictionaryKeepsBulk(p: Parser, b: Byte)
    requires Valid(p) && p.stage == Dictionary && p.status == Status.Good && p.sent == None && !p.bulkRead
    ensures var q := ReadDictionary(p, b);
      && !q.bulkRead && q.stage == p.stage && q.sent == None && q.next != Finished
      && (q.status == Status.Good || q.status == Failed)
  {
    hide ReadEid, ReferenceAt;
  }

  /** A byte leads to no end, except behind block data. */
  lemma ReadByteIsBulky(p: Parser, b: Byte)
    requires Valid(p) && !p.bulkRead && Bulky(p) && p.status == Status.Good
    ensures Bulky(ReadByte(p, b)) && ReadByte(p, b).status != Done && ReadByte(p, b).sent == None
  {
    hide Bundle6Parser.Advance, Bundle6Parser.ReadInStage;
    var counted := CountPrimary(p);
    StageKeepsBulk(counted, b);
    var q := ReadInStage(counted, b);
    if q.stage != q.next && q.status != Failed {
      AdvanceIsBulky(q);
    }
  }

  /** Behind bulk data: no bulk read, and if a bundle is handed over its last block is what was read. */
  lemma FinishIsBulky(p: Parser, data: seq<Byte>)
    requires Valid(p) && p.bulkRead && Bulky(p) && p.status == Status.Good
    ensures var q := FinishBulk(p, data);
      && Bulky(q) && !q.bulkRead
      && (q.sent.Some? ==>
            var blocks := q.sent.value.blocks; blocks != [] && blocks[|blocks| - 1].length == p.nextBytes)
  {
    hide Bundle6Parser.EnterDictionary, Bundle6Parser.ReadNumber, Bundle6Parser.ReadDictionary, Get;
    var filled := p.(open := p.open.(data := data), bulkRead := false);
    SameNumbers(p, filled, DataLength);
    SameNumbers(p, CountPrimary(filled), DataLength);
  }

  /** A bundle whose end is the end of what was read does not end in an empty block. */
  predicate EndsInData(p: Parser) {
    p.sent.Some? ==> var blocks := p.sent.value.blocks; blocks != [] && blocks[|blocks| - 1].length > 0
  }

  lemma {:induction false} ReadBufferIsBulky(p: Parser, a: seq<Byte>)
    requires p.status == Status.Good && Valid(p) && Bulky(p) && a != []
    ensures var (q, left) := ReadBuffer(p, a); Bulky(q) && (left == [] ==> EndsInData(q))
    decreases |a|, if p.bulkRead then 1 else 0
  {
    hide ReadByte, FinishBulk, Valid, Get;
    if p.bulkRead {
      if p.nextBytes <= |a| {
        FinishBulkKeepsValid(p, a[..p.nextBytes]);
        FinishIsBulky(p, a[..p.nextBytes]);
        var q := FinishBulk(p, a[..p.nextBytes]);
        if q.status == Status.Good && a[p.nextBytes..] != [] {
          ReadBufferIsBulky(q, a[p.nextBytes..]);
        }
      }
    } else {
      ReadByteKeepsValid(p, a[0]);
      ReadByteIsBulky(p, a[0]);
      var q := ReadByte(p, a[0]);
      if q.status == Status.Good && a[1..] != [] {
        ReadBufferIsBulky(q, a[1..]);
      }
    }
  }

  lemma SettleIsBulky(structSize: nat, r: Receiver, p: Parser)
    requires (p.status == Status.Good ==> Valid(p)) && Bulky(p)
    ensures Bulky(Settle(structSize, r, p).parser)
  {
    hide Valid, Get;
  }

  // ---- One round ----

  /** The last that was handed over does not end in an empty block. */
  predicate LastEndsInData(outcomes: seq<Option<Bundle6.Bundle>>) {
    outcomes != [] && (outcomes[|outcomes| - 1].Some? ==>
      var blocks := outcomes[|outcomes| - 1].value.blocks; blocks != [] && blocks[|blocks| - 1].length > 0)
  }

  lemma BufferOutIsBulky(structSize: nat, r: Receiver, bytes: seq<Byte>)
    requires Steady(r) && !r.parser.bulkRead && Bulky(r.parser)
    ensures var (s, left) := BufferOut(structSize, r, bytes);
      && Bulky(s.parser)
      && (left == [] && |s.outcomes| > |r.outcomes| ==> LastEndsInData(s.outcomes))
  {
    hide ReadBuffer, Valid, Reset, Bulky;
    if bytes != [] && !Stuck(r, bytes) {
      ReadBufferIsBulky(r.parser, bytes);
      ReadBufferSplits(r.parser, bytes, []);
      SettleIsBulky(structSize, r, ReadBuffer(r.parser, bytes).0);
    }
  }

  /**
   Behind a round: if something was handed over and nothing is left, it does not end in an
   empty block, unless the round was for an empty block.
   */
  lemma RoundIsBulky(structSize: nat, t: Task, e: Read)
    requires Orderly(t) && Standing(t) && Fits(t, e) && Smooth(structSize, t, e) && Bulky(t.receiver.parser)
    ensures var s := AfterRound(structSize, t, e);
      && Bulky(s.receiver.parser)
      && (!AtEmptyBlock(t) && s.buffer == [] && |s.receiver.outcomes| > |t.receiver.outcomes| ==>
            LastEndsInData(s.receiver.outcomes))
  {
    hide ReadBuffer, Valid, Reset, Bulky, FinishBulk, BufferOut, Settle, LastEndsInData;
    var r, size := t.receiver, t.receiver.parser.nextBytes;
    if r.parser.bulkRead {
      if size <= |t.buffer| {
        BulkOutIsBulky(structSize, r, t.buffer[..size]);
        assert t.buffer[size..] == [];
      } else {
        BulkOutIsBulky(structSize, r, t.buffer + e.data);
      }
    } else {
      BufferOutIsBulky(structSize, r, t.buffer + e.data);
    }
  }

  lemma BulkOutIsBulky(structSize: nat, r: Receiver, data: seq<Byte>)
    requires Steady(r) && r.parser.bulkRead && Bulky(r.parser)
    ensures var s := BulkOut(structSize, r, data, []).0;
      && Bulky(s.parser)
      && (r.parser.nextBytes > 0 && |s.outcomes| > |r.outcomes| ==> LastEndsInData(s.outcomes))
  {
    hide Valid, Reset, FinishBulk, Get;
    FinishBulkKeepsValid(r.parser, data);
    FinishIsBulky(r.parser, data);
    SettleIsBulky(structSize, r, FinishBulk(r.parser, data));
  }

  lemma {:induction false} RunIsBulky(structSize: nat, events: seq<Read>)
    requires Run(structSize, events).Some?
    ensures Bulky(Run(structSize, events).value.receiver.parser)
  {
    hide Bulky, AfterRound, Smooth, Fits, Valid, Reset;
    if events == [] {
      FreshIsBulky(structSize);
    } else {
      var n := |events| - 1;
      RunIsBulky(structSize, events[..n]);
      RunKeeps(structSize, events[..n]);
      RoundIsBulky(structSize, Run(structSize, events[..n]).value, events[n]);
    }
  }

  lemma FreshIsBulky(structSize: nat)
    ensures Bulky(Fresh(structSize).parser)
  {
  }

  // ---- What the stream amounts to ----

  /** The stream ends with a bundle, or inside one. */
  predicate EndsWithBundle(bundles: seq<Bundle6.Bundle>, size: nat) {
    size == |Stream(bundles[..WholeBundles(bundles, size)])|
  }

  /** Behind whole bundles the parser is not selected; inside one it is. */
  lemma {:induction false} DrainOfBundles(structSize: nat, r: Receiver, bundles: seq<Bundle6.Bundle>, stream: seq<Byte>)
    requires r.parser == Reset(structSize) && !r.selected && Steady(r)
    requires forall b :: b in bundles ==> Sendable(structSize, b)
    requires stream <= Stream(bundles)
    ensures var (q, left) := Drain(structSize, r, stream);
      && (q.selected <==> !EndsWithBundle(bundles, |stream|))
      && (!q.selected ==> left == [])
    decreases |bundles|
  {
    hide Drain, Valid, Reset, Bundle6Serializer.BundleBytes, Received, Sendable;
    if bundles == [] {
      StuckStays(structSize, r, stream);
    } else {
      var b, bytes := bundles[0], Bundle6Serializer.BundleBytes(bundles[0]);
      assert b in bundles;
      BundleIsSome(structSize, b);
      if |bytes| > |stream| {
        assert bundles[..0] == [];
        if stream == [] {
          StuckStays(structSize, r, stream);
        } else {
          assert stream < bytes;
          FrontSelects(structSize, r, b, stream);
        }
      } else {
        var rest, next := stream[|bytes|..], r.(outcomes := r.outcomes + [Some(Received(b))]);
        assert stream == bytes + rest && rest <= Stream(bundles[1..]);
        DrainOneBundle(structSize, r, b, rest);
        DrainOfBundles(structSize, next, bundles[1..], rest);
        var n := WholeBundles(bundles[1..], |rest|);
        assert bundles[..n + 1][1..] == bundles[1..][..n] && bundles[..n + 1][0] == b;
      }
    }
  }

  lemma BundleIsSome(structSize: nat, b: Bundle6.Bundle)
    requires Sendable(structSize, b)
    ensures |Bundle6Serializer.BundleBytes(b)| > 0
  {
    hide Bundle6Serializer.BundleBytes, Bundle6Serializer.Serializable;
    FirstByteIsVersion(b);
  }

  lemma FrontSelects(structSize: nat, r: Receiver, b: Bundle6.Bundle, front: seq<Byte>)
    requires r.parser == Reset(structSize) && !r.selected && Steady(r) && Sendable(structSize, b)
    requires front < Bundle6Serializer.BundleBytes(b) && front != []
    ensures Drain(structSize, r, front).0.selected
  {
    hide Feed, Valid, Reset, Bundle6Serializer.BundleBytes, Received, Bundle6Serializer.Serializable;
    var bytes := Bundle6Serializer.BundleBytes(b);
    FirstByteIsVersion(b);
    assert front[0] == bytes[0] && bytes == front + bytes[|front|..];
    FrontEndsNothing(structSize, r, b, front);
    FeedIsGood(r.parser, front);
    var (p, left) := Feed(r.parser, front);
    if p.status != Status.Good {
      DrainRound(structSize, r, front, []);
      assert front + [] == front && left + [] == left;
      DrainGrows(structSize, Settle(structSize, r, p), left);
      assert false;
    }
  }

  /** If nothing more ends in what is left, and nothing is selected behind it, nothing is left. */
  lemma NothingLeft(structSize: nat, r: Receiver, left: seq<Byte>)
    requires Steady(r) && Endings(structSize, r, left) == 0
    requires var (q, rest) := Drain(structSize, r, left); !q.selected && rest == []
    ensures left == []
  {
    hide Feed, Valid, Reset;
    if !Stuck(r, left) {
      assert false;
    }
  }

  // ---- What is handed over ----

  /** The stream ends with a bundle whose last block is empty. */
  predicate EmptyAtEnd(bundles: seq<Bundle6.Bundle>, size: nat) {
    var n := WholeBundles(bundles, size);
    n > 0 && EndsWithBundle(bundles, size) && EndsEmpty(bundles[n - 1])
  }

  /** In front of the last round one bundle waited, or its end came with the round. */
  predicate OneInLastRound(arrivals: seq<nat>) {
    arrivals != [] && Queue(arrivals[..|arrivals| - 1]) + arrivals[|arrivals| - 1] == 1
  }

  lemma {:induction false} HandedOverLast(bundles: seq<Bundle6.Bundle>)
    requires bundles != []
    ensures |HandedOver(bundles)| == |bundles|
    ensures HandedOver(bundles)[|bundles| - 1] == Some(Received(bundles[|bundles| - 1]))
    decreases |bundles|
  {
    hide Received;
    if |bundles| > 1 {
      HandedOverLast(bundles[1..]);
    } else {
      assert bundles[1..] == [];
    }
  }

  lemma {:induction false} HandedOverSize(bundles: seq<Bundle6.Bundle>)
    ensures |HandedOver(bundles)| == |bundles|
  {
    if bundles != [] {
      HandedOverSize(bundles[1..]);
    }
  }

  /** A bundle arrives with the block lengths with which it was sent. */
  lemma ReceivedEndsEmpty(b: Bundle6.Bundle)
    ensures EndsEmpty(Received(b)) <==> EndsEmpty(b)
  {
    hide Came, CanonicalRefs, Bundle6.AllRefs, Bundle6.MaskFlags, Bundle6.CanonicalEid;
    if b.blocks != [] {
      var eids, last := CanonicalRefs(Bundle6.AllRefs(b.blocks)), |b.blocks| - 1;
      CameAt(b.blocks, eids, last);
      CameLength(b.blocks[last], eids);
    }
  }

  lemma CameLength(block: Bundle6.Block, eids: seq<seq<Byte>>)
    ensures Came(block, eids).length == block.length
  {
  }

  /** What is true of a run of a stream of bundles, and of its last round. */
  lemma RunOfBundles(structSize: nat, events: seq<Read>, bundles: seq<Bundle6.Bundle>)
    requires forall b :: b in bundles ==> Sendable(structSize, b)
    requires Data(events) <= Stream(bundles) && Run(structSize, events).Some?
    ensures var s, whole := Run(structSize, events).value, bundles[..WholeBundles(bundles, |Data(events)|)];
      && Standing(s) && Bulky(s.receiver.parser)
      && Drain(structSize, s.receiver, s.buffer).0.outcomes == HandedOver(whole)
      && (Drain(structSize, s.receiver, s.buffer).0.selected <==> !EndsWithBundle(bundles, |Data(events)|))
      && (!Drain(structSize, s.receiver, s.buffer).0.selected ==> Drain(structSize, s.receiver, s.buffer).1 == [])
  {
    hide Run, Drain, Stream, WholeBundles, Sendable, Data, Reset, Bulky, Continues, Valid, EndsWithBundle;
    FreshIsSteady(structSize);
    RunKeeps(structSize, events);
    RunIsBulky(structSize, events);
    var s := Run(structSize, events).value;
    ContinuesNow(structSize, Fresh(structSize), Data(events), s.receiver, s.buffer);
    EndingsAreWholeBundles(structSize, Fresh(structSize), bundles, Data(events));
    DrainOfBundles(structSize, Fresh(structSize), bundles, Data(events));
    var whole := HandedOver(bundles[..WholeBundles(bundles, |Data(events)|)]);
    assert [] + whole == whole;
  }

  /** A round for an empty block does nothing else, and a round that stops at one hands over nothing. */
  lemma RoundAtEmptyBlock(structSize: nat, t: Task, e: Read)
    requires Orderly(t) && Standing(t) && Fits(t, e) && Smooth(structSize, t, e)
    ensures var s := AfterRound(structSize, t, e);
      && (AtEmptyBlock(t) ==> t.buffer == [] && e.data == [] && !s.receiver.parser.bulkRead)
      && (!AtEmptyBlock(t) && AtEmptyBlock(s) ==>
            && |s.receiver.outcomes| == |t.receiver.outcomes|
            && Endings(structSize, t.receiver, t.buffer + e.data) <= 1)
  {
    hide Valid, Reset, FinishBulk, BulkOut, BufferOut, Drain, Steady;
    var r, size := t.receiver, t.receiver.parser.nextBytes;
    if r.parser.bulkRead {
      if size <= |t.buffer| {
        assert t.buffer[..size] == [] && t.buffer[size..] == [];
        BulkEndsOnce(structSize, r, []);
      } else {
        BulkEndsOnce(structSize, r, t.buffer + e.data);
      }
    } else {
      BufferOutServes(structSize, r, t.buffer + e.data);
    }
  }

  lemma RunStep(structSize: nat, events: seq<Read>)
    requires events != [] && Run(structSize, events).Some?
    ensures var n := |events| - 1;
      && Run(structSize, events[..n]).Some?
      && var t := Run(structSize, events[..n]).value;
      && Fits(t, events[n]) && Smooth(structSize, t, events[n])
      && Run(structSize, events).value == AfterRound(structSize, t, events[n])
  {
    hide Smooth, Fits, AfterRound, Orderly;
  }

  /** The last round as a step of the queue. */
  lemma LastRound(structSize: nat, events: seq<Read>)
    requires events != [] && Run(structSize, events).Some?
    ensures Run(structSize, events[..|events| - 1]).Some?
    ensures var n := |events| - 1;
      var t, s := Run(structSize, events[..n]).value, Run(structSize, events).value;
      var arrivals := Arrivals(structSize, events);
      var all := Queue(arrivals[..n]) + arrivals[n];
      && Waiting(structSize, s) == Serve(all)
      && (AtEmptyBlock(t) ==> all == 0 && !s.receiver.parser.bulkRead)
      && (!AtEmptyBlock(t) ==>
            && Endings(structSize, s.receiver, s.buffer) + |s.receiver.outcomes| == all + |t.receiver.outcomes|
            && (AtEmptyBlock(s) ==> |s.receiver.outcomes| == |t.receiver.outcomes| && all <= 1))
  {
    hide Smooth, AfterRound, Continues, Drain, Reset, Valid, Run, Data, Queue, Arrivals, Fits;
    RunStep(structSize, events);
    var n := |events| - 1;
    var t, e := Run(structSize, events[..n]).value, events[n];
    FreshIsSteady(structSize);
    RunKeeps(structSize, events[..n]);
    RoundServes(structSize, t, e);
    RoundAtEmptyBlock(structSize, t, e);
    assert events == events[..n] + [e];
    ArrivalsStep(structSize, events[..n], e);
    ContinuesCounts(structSize, Data(events[..n]), t, e.data);
    if AtEmptyBlock(t) {
      assert Data(events[..n]) + e.data == Data(events[..n]);
    }
  }

  lemma EmptyBlockDrains(structSize: nat, t: Task)
    requires Orderly(t) && Standing(t) && Bulky(t.receiver.parser) && EndsInEmptyBlock(t)
    ensures t.buffer == []
    ensures var sent := FinishBulk(t.receiver.parser, []).sent;
      && Drain(structSize, t.receiver, []) == (Receiver(Reset(structSize), false, t.receiver.outcomes + [sent]), [])
      && (sent.Some? ==> EndsEmpty(sent.value))
  {
    hide Valid, Reset, FinishBulk, Drain, Get, Continues;
    var r := t.receiver;
    var none: seq<Byte> := [];
    assert none + none == none;
    BulkContinues(structSize, r, none, none);
    FinishIsBulky(r.parser, []);
    var s := Settle(structSize, r, FinishBulk(r.parser, []));
    ContinuesNow(structSize, r, [], s, []);
    StuckStays(structSize, s, []);
  }

  lemma StandsAtEmptyEnd(structSize: nat, events: seq<Read>, bundles: seq<Bundle6.Bundle>)
    requires forall b :: b in bundles ==> Sendable(structSize, b)
    requires Data(events) <= Stream(bundles) && Run(structSize, events).Some?
    requires EndsInEmptyBlock(Run(structSize, events).value)
    ensures EmptyAtEnd(bundles, |Data(events)|)
  {
    hide Run, Drain, Stream, WholeBundles, Sendable, Data, Reset, Bulky, Valid, EndsWithBundle, Received,
         FinishBulk, HandedOver, EndsEmpty;
    RunOfBundles(structSize, events, bundles);
    var s, n := Run(structSize, events).value, WholeBundles(bundles, |Data(events)|);
    var whole, sent := bundles[..n], FinishBulk(s.receiver.parser, []).sent;
    EmptyBlockDrains(structSize, s);
    HandedOverSize(whole);
    assert (s.receiver.outcomes + [sent])[|s.receiver.outcomes|] == sent;
    HandedOverLast(whole);
    ReceivedEndsEmpty(bundles[n - 1]);
  }

  /** If the stream ends with an empty block and the task is past it, that took a round of its own. */
  lemma PastEmptyEnd(structSize: nat, events: seq<Read>, bundles: seq<Bundle6.Bundle>)
    requires forall b :: b in bundles ==> Sendable(structSize, b)
    requires Data(events) <= Stream(bundles) && Run(structSize, events).Some?
    requires EmptyAtEnd(bundles, |Data(events)|) && OneInLastRound(Arrivals(structSize, events))
    ensures EndsInEmptyBlock(Run(structSize, events).value)
  {
    hide Run, Drain, Stream, WholeBundles, Sendable, Data, Reset, Bulky, Valid, EndsWithBundle, Arrivals, Queue,
         Received, FinishBulk, HandedOver, EndsEmpty, AfterRound, Fits, Smooth;
    var k := |events| - 1;
    RunOfBundles(structSize, events, bundles);
    LastRound(structSize, events);
    RunStep(structSize, events);
    RunKeeps(structSize, events[..k]);
    RunIsBulky(structSize, events[..k]);
    var t, s := Run(structSize, events[..k]).value, Run(structSize, events).value;
    if AtEmptyBlock(s) {
      EmptyBlockEnds(structSize, s);
    } else {
      DrainGrows(structSize, s.receiver, s.buffer);
      NothingLeft(structSize, s.receiver, s.buffer);
      RoundIsBulky(structSize, t, events[k]);
      var whole := bundles[..WholeBundles(bundles, |Data(events)|)];
      SamePrefix(s.receiver.outcomes, HandedOver(whole));
      HandedOverLast(whole);
      ReceivedEndsEmpty(whole[|whole| - 1]);
      LastContradicts(s.receiver.outcomes);
      assert false;
    }
  }

  lemma LastContradicts(outcomes: seq<Option<Bundle6.Bundle>>)
    requires LastEndsInData(outcomes) && outcomes[|outcomes| - 1].Some?
    ensures !EndsEmpty(outcomes[|outcomes| - 1].value)
  {
  }

  /** The task stands at an empty last block exactly if the stream ends with one and it alone was there to be read. */
  lemma EndsInEmptyBlockExactly(structSize: nat, events: seq<Read>, bundles: seq<Bundle6.Bundle>)
    requires forall b :: b in bundles ==> Sendable(structSize, b)
    requires Data(events) <= Stream(bundles) && Run(structSize, events).Some?
    ensures EndsInEmptyBlock(Run(structSize, events).value) <==>
      EmptyAtEnd(bundles, |Data(events)|) && OneInLastRound(Arrivals(structSize, events))
  {
    hide Run, Drain, Stream, WholeBundles, Sendable, Data, Reset, Valid, Arrivals, EmptyAtEnd, Queue, FinishBulk;
    var s := Run(structSize, events).value;
    if EndsInEmptyBlock(s) {
      StandsAtEmptyEnd(structSize, events, bundles);
      StandsInLastRound(structSize, events);
    } else if EmptyAtEnd(bundles, |Data(events)|) && OneInLastRound(Arrivals(structSize, events)) {
      PastEmptyEnd(structSize, events, bundles);
    }
  }

  lemma StandsInLastRound(structSize: nat, events: seq<Read>)
    requires Run(structSize, events).Some? && EndsInEmptyBlock(Run(structSize, events).value)
    ensures OneInLastRound(Arrivals(structSize, events))
  {
    hide Drain, Data, Reset, Valid, Arrivals, Queue, FinishBulk, AfterRound, Fits, Smooth;
    if events == [] {
      StartWaitsForNothing(structSize);
    } else {
      hide Run;
      LastRound(structSize, events);
      RunKeeps(structSize, events);
      EmptyBlockEnds(structSize, Run(structSize, events).value);
    }
  }

  /**
   Of bundles sent back to back, in whatever portions, the task has handed over first
   ones, and all whose end has come exactly if in no last rounds more ends came than rounds
   passed, and the last round had not just reached the end of a bundle with an empty last
   block.
   */
  lemma StreamArrivesExactly(structSize: nat, events: seq<Read>, bundles: seq<Bundle6.Bundle>, arrivals: seq<nat>)
    requires forall b :: b in bundles ==> Sendable(structSize, b)
    requires Data(events) <= Stream(bundles) && Run(structSize, events).Some?
    requires BringsEnds(events, bundles, arrivals)
    ensures var whole := HandedOver(bundles[..WholeBundles(bundles, |Data(events)|)]);
      && Run(structSize, events).value.receiver.outcomes <= whole
      && (Run(structSize, events).value.receiver.outcomes == whole <==>
            && !(EmptyAtEnd(bundles, |Data(events)|) && OneInLastRound(arrivals))
            && forall i :: 0 <= i <= |arrivals| ==> Sum(arrivals[i..]) <= |arrivals| - i)
  {
    hide *;
    ArrivalsAreWholeBundles(structSize, events, bundles);
    BringsEndsOnce(events, bundles, arrivals, Arrivals(structSize, events));
    StreamArrives(structSize, events, bundles, arrivals);
    EndsInEmptyBlockExactly(structSize, events, bundles);
  }
}
