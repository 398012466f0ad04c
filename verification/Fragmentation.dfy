/**
 Proactive fragmentation of a bundle that exceeds the maximum bundle size: the
 cutting of one fragment, and the loop that cuts and enqueues them in turn
 (section 5.8 of RFC 9171).
 */
module Fragmentation {
  import opened Bytes
  import opened Bundle7
  import W = Bundle7Wire

  function AduLength(b: Bundle): nat {
    if b.IsFragment() then b.total else |b.payload.data|
  }

  /** The fragment of `length` bytes behind `offset`, both within the payload at hand. */
  function Piece(b: Bundle, offset: nat, length: nat): (f: Bundle)
    requires b.WellFormed() && offset + length <= |b.payload.data|
    ensures f.WellFormed() && f.IsFragment()
  {
    var data := b.payload.data[offset..offset + length];
    var f := b.(procFlags := WithFragmentFlag(b.procFlags), total := AduLength(b), offset := b.offset + offset,
                extensions := Taken(b.extensions, b.offset + offset == 0),
                payload := Block(PAYLOAD, 1, 0, 0, data));
    TakenMembers(b.extensions, b.offset + offset == 0);
    f.(primaryLength := PrimaryLength(f))
  }

  lemma {:induction false} TakenMembers(blocks: seq<Block>, all: bool)
    ensures forall b :: b in Taken(blocks, all) ==> b in blocks && !b.IsPayload() && (all || b.Replicated())
    ensures forall b :: b in blocks && !b.IsPayload() && (all || b.Replicated()) ==> b in Taken(blocks, all)
  {
    if blocks != [] {
      var n := |blocks| - 1;
      TakenMembers(blocks[..n], all);
      assert blocks == blocks[..n] + [blocks[n]];
    }
  }

  /** A request that exceeds the payload or asks for all of it is refused. */
  function FragmentBundle(b: Bundle, offset: nat, length: nat): Option<Bundle>
    requires b.WellFormed()
  {
    if offset + length > |b.payload.data| then None
    else if offset == 0 && length >= |b.payload.data| then None
    else Some(Piece(b, offset, length))
  }

  /** Payload bytes of the next fragment; the subtractions wrap around. */
  function NextLength(mbs: nat, remaining: nat, nextMin: int, lastMin: int): nat {
    if remaining + nextMin <= mbs then
      if remaining + lastMin <= mbs then remaining else Sub64(mbs, lastMin)
    else Sub64(mbs, nextMin)
  }

  datatype Outcome = Outcome(ok: bool, sent: seq<Bundle>)

  /** The rest of the loop from `offset` on, if the queue accepts `room` more bundles. */
  function Cut(b: Bundle, mbs: nat, offset: nat, nextMin: int, room: nat): Outcome
    requires b.WellFormed() && offset <= |b.payload.data|
    decreases room
  {
    var remaining := |b.payload.data| - offset;
    if remaining == 0 then Outcome(true, [])
    else
      var length := NextLength(mbs, remaining, nextMin, LastMinSize(b));
      var f := FragmentBundle(b, offset, length);
      if f.None? || room == 0 then Outcome(false, [])
      else
        var rest := Cut(b, mbs, offset + length, LastMinSize(b), room - 1);
        Outcome(rest.ok, [f.value] + rest.sent)
  }

  /** What the fragmentation of `b` leaves in a queue with `room` free places. */
  function FragmentAndEnqueue(b: Bundle, mbs: nat, room: nat): Outcome
    requires b.WellFormed()
  {
    Cut(b, mbs, 0, FirstMinSize(b), room)
  }

  // ---- The code ----

  method MakeFragment(b: Bundle, offset: nat, length: nat) returns (f: Option<Bundle>)
    requires b.WellFormed()
    ensures f == FragmentBundle(b, offset, length)
  {
    if offset + length > |b.payload.data| {
      return None;
    } else if offset == 0 && length >= |b.payload.data| {
      return None;
    }
    var isFirst := b.offset + offset == 0;
    var taken: seq<Block> := [];
    for i := 0 to |b.extensions|
      invariant taken == Taken(b.extensions[..i], isFirst)
    {
      assert b.extensions[..i + 1][..i] == b.extensions[..i];
      var block := b.extensions[i];
      if (isFirst || block.Replicated()) && !block.IsPayload() {
        taken := taken + [block];
      }
    }
    assert b.extensions[..|b.extensions|] == b.extensions;
    ghost var piece := Piece(b, offset, length);
    var fragment := b.(procFlags := WithFragmentFlag(b.procFlags), total := AduLength(b), offset := b.offset + offset,
                       extensions := taken,
                       payload := Block(PAYLOAD, 1, 0, 0, b.payload.data[offset..offset + length]));
    return Some(fragment.(primaryLength := PrimaryLength(fragment)));
  }

  method EnqueueFragments(b: Bundle, mbs: nat, room: nat) returns (ok: bool, sent: seq<Bundle>)
    requires b.WellFormed()
    ensures Outcome(ok, sent) == FragmentAndEnqueue(b, mbs, room)
  {
    hide FragmentBundle, NextLength, MinSize, Bundle.WellFormed;
    var nextMin := GetMinSize(b, true);
    var lastMin := GetMinSize(b, false);
    var offset, remaining := 0, |b.payload.data|;
    ghost var whole := FragmentAndEnqueue(b, mbs, room);
    sent := [];
    while remaining > 0
      invariant 0 <= offset && 0 <= remaining && offset + remaining == |b.payload.data| && |sent| <= room
      invariant nextMin == if sent == [] then FirstMinSize(b) else LastMinSize(b)
      invariant var rest := Cut(b, mbs, offset, nextMin, room - |sent|);
        whole == Outcome(rest.ok, sent + rest.sent)
      decreases room - |sent|
    {
      var length := NextLength(mbs, remaining, nextMin, lastMin);
      var f := MakeFragment(b, offset, length);
      if f.None? || |sent| == room {
        return false, sent;
      }
      FragmentFits(b, offset, length);
      ghost var rest := Cut(b, mbs, offset + length, lastMin, room - |sent| - 1);
      assert sent + ([f.value] + rest.sent) == sent + [f.value] + rest.sent;
      sent := sent + [f.value];
      nextMin := lastMin;
      remaining := remaining - length;
      offset := offset + length;
    }
    assert Cut(b, mbs, offset, nextMin, room - |sent|) == Outcome(true, []);
    assert sent + [] == sent;
    ok := true;
  }

  lemma FragmentFits(b: Bundle, offset: nat, length: nat)
    requires b.WellFormed() && FragmentBundle(b, offset, length).Some?
    ensures offset + length <= |b.payload.data|
  {
  }

  // ---- What the loop achieves ----

  predicate Contiguous(sent: seq<Bundle>, from: nat) {
    sent == [] || (sent[0].offset == from && Contiguous(sent[1..], from + |sent[0].payload.data|))
  }

  function Joined(sent: seq<Bundle>): seq<Byte> {
    if sent == [] then [] else sent[0].payload.data + Joined(sent[1..])
  }

  /** The fragment has the primary block of `b`, apart from what makes it a fragment, and a plain payload block. */
  predicate KeepsHeader(b: Bundle, f: Bundle) {
    && f.procFlags % 2 == 1 && f.procFlags / 2 == b.procFlags / 2 && f.total == AduLength(b)
    && f.crcType == b.crcType && f.destination == b.destination && f.source == b.source && f.reportTo == b.reportTo
    && f.creation == b.creation && f.sequence == b.sequence && f.lifetime == b.lifetime
    && f.payload == Block(1, 1, 0, 0, f.payload.data)
  }

  /** The extension blocks of the fragment: all of them at the front of the ADU, otherwise those to be replicated. */
  ghost predicate KeepsBlocks(b: Bundle, f: Bundle) {
    && (f.offset == 0 ==> f.extensions == b.extensions)
    && forall block :: multiset(f.extensions)[block] ==
         if f.offset == 0 || block.flags % 2 == 1 then multiset(b.extensions)[block] else 0
  }

  /** A fragment of `b` that is not empty and fits. */
  ghost predicate Fits(b: Bundle, f: Bundle, mbs: nat) {
    KeepsHeader(b, f) && KeepsBlocks(b, f) && |f.payload.data| > 0 && SerializedSize(f) <= mbs && f.WellFormed()
  }

  lemma {:induction false} TakenCounts(blocks: seq<Block>, all: bool, block: Block)
    requires forall b :: b in blocks ==> !b.IsPayload()
    ensures multiset(Taken(blocks, all))[block] ==
      if all || block.flags % 2 == 1 then multiset(blocks)[block] else 0
  {
    if blocks != [] {
      hide *;
      var n := |blocks| - 1;
      NoPayloadInFront(blocks);
      TakenCounts(blocks[..n], all, block);
      CountLast(blocks, block);
      TakenLast(blocks, all, block);
    }
  }

  lemma NoPayloadInFront(blocks: seq<Block>)
    requires blocks != [] && forall b :: b in blocks ==> !b.IsPayload()
    ensures !blocks[|blocks| - 1].IsPayload() && forall b :: b in blocks[..|blocks| - 1] ==> !b.IsPayload()
  {
    assert blocks[|blocks| - 1] in blocks;
  }

  lemma CountLast(blocks: seq<Block>, block: Block)
    requires blocks != []
    ensures var n := |blocks| - 1;
      multiset(blocks)[block] == multiset(blocks[..n])[block] + if block == blocks[n] then 1 else 0
  {
    var n := |blocks| - 1;
    assert blocks == blocks[..n] + [blocks[n]];
    assert multiset(blocks) == multiset(blocks[..n]) + multiset{blocks[n]};
  }

  lemma TakenLast(blocks: seq<Block>, all: bool, block: Block)
    requires blocks != [] && !blocks[|blocks| - 1].IsPayload()
    ensures var n := |blocks| - 1;
      multiset(Taken(blocks, all))[block] == multiset(Taken(blocks[..n], all))[block]
        + if (all || blocks[n].flags % 2 == 1) && block == blocks[n] then 1 else 0
  {
    var n := |blocks| - 1;
    var front := Taken(blocks[..n], all);
    if all || blocks[n].flags % 2 == 1 {
      assert Taken(blocks, all) == front + [blocks[n]];
      assert multiset(front + [blocks[n]]) == multiset(front) + multiset{blocks[n]};
    }
  }

  lemma PieceKeeps(b: Bundle, offset: nat, length: nat)
    requires b.WellFormed() && offset + length <= |b.payload.data|
    ensures KeepsHeader(b, Piece(b, offset, length)) && KeepsBlocks(b, Piece(b, offset, length))
  {
    hide PrimaryLength;
    var all := b.offset + offset == 0;
    forall block ensures multiset(Taken(b.extensions, all))[block] ==
      if all || block.flags % 2 == 1 then multiset(b.extensions)[block] else 0
    {
      TakenCounts(b.extensions, all, block);
    }
    if all {
      TakenAll(b.extensions);
    }
  }

  lemma PiecePrimary(b: Bundle, offset: nat, length: nat)
    requires b.WellFormed() && offset + length <= |b.payload.data|
    ensures Piece(b, offset, length).primaryLength <= b.primaryLength + ExtraFields(b)
  {
    hide HeadSize;
    FragmentFlagIsFree(b.procFlags);
    HeadSizeGrows(b.offset + offset, AduLength(b));
  }

  lemma PieceBlocks(b: Bundle, offset: nat, length: nat, all: bool)
    requires b.WellFormed() && offset + length <= |b.payload.data| && all == (b.offset + offset == 0)
    ensures 2 + BlocksSize(Piece(b, offset, length).Blocks()) <= MinBlocksSize(b.Blocks(), all) + length
  {
    hide HeadSize, BlocksSize, MinBlocksSize, Taken;
    var f := Piece(b, offset, length);
    SizeOfBlocks(b.extensions, b.payload, all);
    SizeOfBlocks(f.extensions, f.payload, all);
    MinBlocksIsTaken(b.extensions, all);
    PayloadBlocks(b.payload, f.payload);
  }

  /** A fragment's payload block has no CRC and the smallest heads. */
  lemma PayloadBlocks(whole: Block, part: Block)
    requires part == Block(PAYLOAD, 1, 0, 0, part.data) && |part.data| <= |whole.data|
    ensures 2 + BlockSize(part) <= PayloadHeaderSize(whole) + |part.data|
  {
    hide HeadSize;
    HeadSizeGrows(|part.data|, |whole.data|);
    assert HeadSize(0) == 1 && HeadSize(1) == 1 by {
      SmallHeads();
    }
  }

  lemma SmallHeads()
    ensures HeadSize(0) == 1 && HeadSize(1) == 1
  {
  }

  /** The size of a fragment exceeds the minimum for its kind by no more than its payload. */
  lemma PieceSize(b: Bundle, offset: nat, length: nat)
    requires b.WellFormed() && offset + length <= |b.payload.data|
    ensures SerializedSize(Piece(b, offset, length)) <= MinSize(b, b.offset + offset == 0) + length
  {
    hide PrimaryLength, BlocksSize, MinBlocksSize, ExtraFields, Piece;
    PiecePrimary(b, offset, length);
    PieceBlocks(b, offset, length, b.offset + offset == 0);
  }

  lemma PieceFits(b: Bundle, offset: nat, length: nat, mbs: nat)
    requires b.WellFormed() && 0 < length && offset + length <= |b.payload.data|
    requires MinSize(b, b.offset + offset == 0) + length <= mbs
    ensures Fits(b, Piece(b, offset, length), mbs)
  {
    hide KeepsHeader, KeepsBlocks, MinSize, SerializedSize, Bundle.WellFormed;
    PieceSize(b, offset, length);
    PieceKeeps(b, offset, length);
  }

  lemma LastNotAboveFirst(b: Bundle)
    ensures LastMinSize(b) <= FirstMinSize(b)
  {
    FirstNotSmaller(b.Blocks());
  }

  /** The state of the loop in front of a round: nothing cut yet, or something. */
  predicate InLoop(b: Bundle, mbs: nat, offset: nat, nextMin: int) {
    && b.WellFormed() && offset <= |b.payload.data|
    && 0 <= LastMinSize(b) <= FirstMinSize(b) < mbs < U64_LIMIT
    && if offset == 0 then nextMin == FirstMinSize(b) && SerializedSize(b) > mbs
       else nextMin == LastMinSize(b)
  }

  lemma NextLengthIsRight(b: Bundle, mbs: nat, offset: nat, nextMin: int)
    requires InLoop(b, mbs, offset, nextMin) && offset < |b.payload.data|
    ensures var length := NextLength(mbs, |b.payload.data| - offset, nextMin, LastMinSize(b));
      && 0 < length && offset + length <= |b.payload.data|
      && !(offset == 0 && length == |b.payload.data|)
      && nextMin + length <= mbs
  {
    WholeBelowFirst(b);
    var remaining := |b.payload.data| - offset;
    assert Sub64(mbs, nextMin) == mbs - nextMin;
  }

  /** One round takes a fitting fragment off and the loop goes on behind it. */
  lemma Round(b: Bundle, mbs: nat, offset: nat, nextMin: int) returns (length: nat)
    requires InLoop(b, mbs, offset, nextMin) && offset < |b.payload.data|
    ensures 0 < length && offset + length <= |b.payload.data|
    ensures length == NextLength(mbs, |b.payload.data| - offset, nextMin, LastMinSize(b))
    ensures FragmentBundle(b, offset, length) == Some(Piece(b, offset, length))
    ensures Fits(b, Piece(b, offset, length), mbs)
    ensures InLoop(b, mbs, offset + length, LastMinSize(b))
  {
    hide MinSize, SerializedSize;
    length := NextLength(mbs, |b.payload.data| - offset, nextMin, LastMinSize(b));
    NextLengthIsRight(b, mbs, offset, nextMin);
    PieceFits(b, offset, length, mbs);
  }

  /** `r` is a cut of the payload behind `offset`, complete unless the queue ran full. */
  ghost predicate GoodCut(b: Bundle, mbs: nat, offset: nat, room: nat, r: Outcome)
    requires b.WellFormed()
  {
    && (forall f :: f in r.sent ==> Fits(b, f, mbs))
    && Contiguous(r.sent, b.offset + offset)
    && offset + |Joined(r.sent)| <= |b.payload.data|
    && Joined(r.sent) == b.payload.data[offset..offset + |Joined(r.sent)|]
    && (r.ok ==> offset + |Joined(r.sent)| == |b.payload.data|)
    && (!r.ok ==> |r.sent| == room)
    && (room >= |b.payload.data| - offset ==> r.ok)
  }

  lemma EmptyCut(b: Bundle, mbs: nat, offset: nat, room: nat, ok: bool)
    requires b.WellFormed() && offset <= |b.payload.data|
    requires if ok then offset == |b.payload.data| else room == 0 && offset < |b.payload.data|
    ensures GoodCut(b, mbs, offset, room, Outcome(ok, []))
  {
  }

  lemma LongerCut(b: Bundle, mbs: nat, offset: nat, length: nat, room: nat, r: Outcome)
    requires b.WellFormed() && room > 0 && 0 < length && offset + length <= |b.payload.data|
    requires Fits(b, Piece(b, offset, length), mbs)
    requires GoodCut(b, mbs, offset + length, room - 1, r)
    ensures GoodCut(b, mbs, offset, room, Outcome(r.ok, [Piece(b, offset, length)] + r.sent))
  {
    hide PrimaryLength, Fits, Bundle.WellFormed;
    var f := Piece(b, offset, length);
    assert ([f] + r.sent)[1..] == r.sent;
    assert f.payload.data == b.payload.data[offset..offset + length] && f.offset == b.offset + offset;
  }

  /**
   With room for more than the minimum of a first fragment, the loop cuts off fitting,
   non-empty fragments, one behind the other, and stops early only if the queue is full.
   */
  lemma {:induction false} LoopCutsAll(b: Bundle, mbs: nat, offset: nat, nextMin: int, room: nat)
    requires InLoop(b, mbs, offset, nextMin)
    ensures GoodCut(b, mbs, offset, room, Cut(b, mbs, offset, nextMin, room))
    decreases room
  {
    hide MinSize, FragmentBundle, NextLength, Fits, Bundle.WellFormed, SerializedSize, GoodCut;
    if offset == |b.payload.data| {
      EmptyCut(b, mbs, offset, room, true);
    } else {
      var length := Round(b, mbs, offset, nextMin);
      if room == 0 {
        EmptyCut(b, mbs, offset, room, false);
      } else {
        LoopCutsAll(b, mbs, offset + length, LastMinSize(b), room - 1);
        LongerCut(b, mbs, offset, length, room, Cut(b, mbs, offset + length, LastMinSize(b), room - 1));
      }
    }
  }

  // ---- Exactly when it works ----

  /** Sizes do not exceed what the machine can count. */
  predicate InRange(b: Bundle, mbs: nat) {
    && b.WellFormed() && mbs < U64_LIMIT
    && 0 <= LastMinSize(b) && FirstMinSize(b) + |b.payload.data| < U64_LIMIT
  }

  predicate AllNonEmpty(sent: seq<Bundle>) {
    forall f :: f in sent ==> |f.payload.data| > 0
  }

  /** A fragment of a bundle that can be serialized can be, too, and its bytes are within the limit. */
  lemma FragmentBytesFit(b: Bundle, f: Bundle, mbs: nat, crc: W.Checksum)
    requires Fits(b, f, mbs) && W.Encodable(b) && b.WellFormed() && W.GivesBytes(crc)
    ensures W.Encodable(f) && |W.BundleBytes(f, crc)| <= mbs
  {
    hide SerializedSize, PrimaryLength, W.BundleBytes, W.GivesBytes, W.EidFits;
    forall block | block in f.Blocks() ensures W.BlockFits(block) {
      if block in f.extensions {
        assert multiset(f.extensions)[block] > 0;
        assert block in b.extensions;
        assert block in b.Blocks();
      }
    }
    W.SizeIsBytesExactly(f, crc);
  }

  /**
   A bundle that is too large is cut into fitting fragments that cover it: what is written
   of each is no longer than the limit.
   */
  lemma FragmentsCoverAndFit(b: Bundle, mbs: nat, room: nat, crc: W.Checksum)
    requires InRange(b, mbs) && SerializedSize(b) > mbs > FirstMinSize(b)
    requires W.Encodable(b) && W.GivesBytes(crc)
    ensures var r := FragmentAndEnqueue(b, mbs, room);
      && GoodCut(b, mbs, 0, room, r)
      && forall f :: f in r.sent ==> W.Encodable(f) && |W.BundleBytes(f, crc)| <= mbs
  {
    hide MinSize, SerializedSize, FragmentAndEnqueue, W.GivesBytes, W.Encodable, W.BundleBytes, Fits;
    CutIsGood(b, mbs, room);
    var r := FragmentAndEnqueue(b, mbs, room);
    forall f | f in r.sent ensures W.Encodable(f) && |W.BundleBytes(f, crc)| <= mbs {
      FragmentBytesFit(b, f, mbs, crc);
    }
  }

  lemma CutIsGood(b: Bundle, mbs: nat, room: nat)
    requires InRange(b, mbs) && SerializedSize(b) > mbs > FirstMinSize(b)
    ensures GoodCut(b, mbs, 0, room, FragmentAndEnqueue(b, mbs, room))
  {
    hide MinSize, SerializedSize, GoodCut;
    LastNotAboveFirst(b);
    LoopCutsAll(b, mbs, 0, FirstMinSize(b), room);
  }

  function NotReplicated(blocks: seq<Block>): seq<Block> {
    if blocks == [] then []
    else
      var last := blocks[|blocks| - 1];
      NotReplicated(blocks[..|blocks| - 1]) + if last.flags % 2 == 1 then [] else [last]
  }

  /**
   The minimum of a first fragment is the size of the bundle without its payload, with the
   payload block's flags as they are and room for offset and ADU length; that of a later
   one is smaller by the blocks that are not replicated.
   */
  lemma MinimaExactly(b: Bundle)
    requires b.WellFormed()
    ensures FirstMinSize(b) == SerializedSize(b) - |b.payload.data|
      + HeadSize(b.payload.flags) - HeadSize(SentFlags(b.payload.flags))
      + if b.procFlags % 2 == 1 then HeadSize(b.total) - HeadSize(b.offset) else 2 * HeadSize(|b.payload.data|)
    ensures LastMinSize(b) == FirstMinSize(b) - BlocksSize(NotReplicated(b.extensions))
  {
    hide HeadSize, BlocksSize, MinBlocksSize, SentFlags, NotReplicated;
    SizeOfBlocks(b.extensions, b.payload, true);
    SizeOfBlocks(b.extensions, b.payload, false);
    MinBlocksIsTaken(b.extensions, true);
    TakenAll(b.extensions);
    MinimaDiffer(b.extensions);
  }

  lemma {:induction false} MinimaDiffer(blocks: seq<Block>)
    requires forall b :: b in blocks ==> !b.IsPayload()
    ensures MinBlocksSize(blocks, true) == MinBlocksSize(blocks, false) + BlocksSize(NotReplicated(blocks))
  {
    if blocks != [] {
      hide BlockSize;
      var n := |blocks| - 1;
      MinimaDiffer(blocks[..n]);
      assert blocks[n] in blocks;
      var front := NotReplicated(blocks[..n]);
      assert front + [] == front;
      SizeOfBlocks(front, blocks[n], true);
    }
  }

  lemma FirstRoundTooSmall(b: Bundle, mbs: nat, room: nat)
    requires InRange(b, mbs) && SerializedSize(b) > mbs && |b.payload.data| > 0
    requires mbs <= FirstMinSize(b)
    ensures var r := FragmentAndEnqueue(b, mbs, room);
      !r.ok || (|r.sent| > 0 && |r.sent[0].payload.data| == 0)
  {
    hide MinSize, SerializedSize, Cut;
    var length := NextLength(mbs, |b.payload.data|, FirstMinSize(b), LastMinSize(b));
    CutUnfolds(b, mbs, 0, FirstMinSize(b), room);
    if mbs < FirstMinSize(b) {
      assert length == mbs - FirstMinSize(b) + U64_LIMIT;
    } else {
      assert length == 0;
    }
  }

  /** Below the minimum of a first fragment nothing is cut. */
  lemma BelowMinimum(b: Bundle, mbs: nat, room: nat)
    requires InRange(b, mbs) && SerializedSize(b) > mbs && |b.payload.data| > 0 && mbs < FirstMinSize(b)
    ensures FragmentAndEnqueue(b, mbs, room) == Outcome(false, [])
  {
    hide MinSize, SerializedSize, Cut;
    CutUnfolds(b, mbs, 0, FirstMinSize(b), room);
    assert Sub64(mbs, FirstMinSize(b)) == mbs - FirstMinSize(b) + U64_LIMIT;
  }

  /** A good cut of a payload that may not go in one piece has at least two, and no more than there are bytes. */
  lemma CutInPieces(b: Bundle, mbs: nat, room: nat)
    requires InRange(b, mbs) && SerializedSize(b) > mbs > FirstMinSize(b) && |b.payload.data| > 0
    requires room >= |b.payload.data|
    ensures 2 <= |FragmentAndEnqueue(b, mbs, room).sent| <= |b.payload.data|
  {
    hide MinSize, SerializedSize, Cut, Fits;
    CutIsGood(b, mbs, room);
    var sent := FragmentAndEnqueue(b, mbs, room).sent;
    PiecesAreFew(b, sent, mbs);
    LastNotAboveFirst(b);
    var length := Round(b, mbs, 0, FirstMinSize(b));
    CutUnfolds(b, mbs, 0, FirstMinSize(b), room);
    assert Joined(sent) == sent[0].payload.data + Joined(sent[1..]);
  }

  lemma {:induction false} PiecesAreFew(b: Bundle, sent: seq<Bundle>, mbs: nat)
    requires forall f :: f in sent ==> Fits(b, f, mbs)
    ensures |sent| <= |Joined(sent)|
  {
    hide SerializedSize, KeepsHeader, KeepsBlocks, Bundle.WellFormed;
    if sent != [] {
      assert sent[0] in sent && forall f :: f in sent[1..] ==> f in sent;
      PiecesAreFew(b, sent[1..], mbs);
    }
  }

  lemma CutUnfolds(b: Bundle, mbs: nat, offset: nat, nextMin: int, room: nat)
    requires b.WellFormed() && offset < |b.payload.data|
    ensures var length := NextLength(mbs, |b.payload.data| - offset, nextMin, LastMinSize(b));
      var f := FragmentBundle(b, offset, length);
      Cut(b, mbs, offset, nextMin, room) ==
        if f.None? || room == 0 then Outcome(false, [])
        else
          var rest := Cut(b, mbs, offset + length, LastMinSize(b), room - 1);
          Outcome(rest.ok, [f.value] + rest.sent)
  {
  }

  /**
   Given a queue with room for every byte, fragmentation succeeds with non-empty
   fragments exactly if the limit is above the minimum size of a first fragment.
   */
  lemma SucceedsExactly(b: Bundle, mbs: nat, room: nat)
    requires InRange(b, mbs) && SerializedSize(b) > mbs && |b.payload.data| > 0
    requires room >= |b.payload.data|
    ensures var r := FragmentAndEnqueue(b, mbs, room);
      r.ok && AllNonEmpty(r.sent) <==> mbs > FirstMinSize(b)
  {
    hide MinSize, SerializedSize, FragmentAndEnqueue, InRange;
    if mbs > FirstMinSize(b) {
      CutIsGood(b, mbs, room);
    } else {
      FirstRoundTooSmall(b, mbs, room);
    }
  }

  /** At the minimum of both kinds the loop cuts one empty fragment after the other. */
  lemma {:induction false} CutsEmptyFragments(b: Bundle, mbs: nat, room: nat)
    requires b.WellFormed() && |b.payload.data| > 0 && LastMinSize(b) == mbs
    ensures var r := Cut(b, mbs, 0, mbs, room);
      !r.ok && |r.sent| == room && forall f :: f in r.sent ==> f == Piece(b, 0, 0)
    decreases room
  {
    hide MinSize, SerializedSize, Cut, Bundle.WellFormed;
    CutUnfolds(b, mbs, 0, mbs, room);
    assert NextLength(mbs, |b.payload.data|, mbs, mbs) == 0;
    if room > 0 {
      CutsEmptyFragments(b, mbs, room - 1);
    }
  }

  /**
   At the minimum of a first fragment the first one is empty. If that is also the minimum of
   later ones, empty fragments follow as long as the queue takes them; if all the payload
   would fit a later one, the next request is refused; otherwise the next fragment repeats
   the offset, with all the blocks.
   */
  lemma EmptyFirstFragment(b: Bundle, mbs: nat, room: nat)
    requires InRange(b, mbs) && SerializedSize(b) > mbs && |b.payload.data| > 0
    requires mbs == FirstMinSize(b) && room > 0
    ensures var r := FragmentAndEnqueue(b, mbs, room);
      && |r.sent| > 0 && r.sent[0] == Piece(b, 0, 0)
      && (LastMinSize(b) == mbs ==> !r.ok && |r.sent| == room && forall f :: f in r.sent ==> f == Piece(b, 0, 0))
      && (LastMinSize(b) < mbs && LastMinSize(b) + |b.payload.data| <= mbs ==> r == Outcome(false, [Piece(b, 0, 0)]))
      && (LastMinSize(b) < mbs < LastMinSize(b) + |b.payload.data| && room >= 2 ==>
            |r.sent| >= 2 && |r.sent[1].payload.data| > 0
            && r.sent[1].offset == r.sent[0].offset && r.sent[1].extensions == r.sent[0].extensions)
  {
    hide MinSize, SerializedSize, Cut;
    var all := |b.payload.data|;
    LastNotAboveFirst(b);
    CutUnfolds(b, mbs, 0, FirstMinSize(b), room);
    assert NextLength(mbs, all, FirstMinSize(b), LastMinSize(b)) == 0;
    if LastMinSize(b) == mbs {
      CutsEmptyFragments(b, mbs, room);
    } else {
      CutUnfolds(b, mbs, 0, LastMinSize(b), room - 1);
      assert Sub64(mbs, LastMinSize(b)) == mbs - LastMinSize(b);
    }
  }

  /** Above the minimum of later fragments every round but the first makes progress. */
  lemma {:induction false} CutIsBounded(b: Bundle, mbs: nat, offset: nat, room: nat)
    requires InRange(b, mbs) && offset <= |b.payload.data| && LastMinSize(b) < mbs
    ensures |Cut(b, mbs, offset, LastMinSize(b), room).sent| <= |b.payload.data| - offset
    decreases room
  {
    hide MinSize, SerializedSize, Cut, Bundle.WellFormed;
    if offset == |b.payload.data| {
      CutEnds(b, mbs, offset, LastMinSize(b), room);
    } else {
      CutUnfolds(b, mbs, offset, LastMinSize(b), room);
      var length := NextLength(mbs, |b.payload.data| - offset, LastMinSize(b), LastMinSize(b));
      assert Sub64(mbs, LastMinSize(b)) == mbs - LastMinSize(b);
      if FragmentBundle(b, offset, length).Some? && room > 0 {
        CutIsBounded(b, mbs, offset + length, room - 1);
      }
    }
  }

  lemma CutEnds(b: Bundle, mbs: nat, offset: nat, nextMin: int, room: nat)
    requires b.WellFormed() && offset == |b.payload.data|
    ensures Cut(b, mbs, offset, nextMin, room) == Outcome(true, [])
  {
  }

  lemma LoopIsBounded(b: Bundle, mbs: nat, room: nat)
    requires InRange(b, mbs) && SerializedSize(b) > mbs && |b.payload.data| > 0
    requires !(FirstMinSize(b) == LastMinSize(b) == mbs)
    ensures |FragmentAndEnqueue(b, mbs, room).sent| <= |b.payload.data| + 1
  {
    hide MinSize, SerializedSize, Cut;
    LastNotAboveFirst(b);
    var length := NextLength(mbs, |b.payload.data|, FirstMinSize(b), LastMinSize(b));
    CutUnfolds(b, mbs, 0, FirstMinSize(b), room);
    if mbs < FirstMinSize(b) {
      assert length == mbs - FirstMinSize(b) + U64_LIMIT;
    } else if FragmentBundle(b, 0, length).Some? && room > 0 {
      CutIsBounded(b, mbs, length, room - 1);
    }
  }

  /** However much the queue takes, no more than `n` fragments are cut. */
  ghost predicate CutsAtMost(b: Bundle, mbs: nat, n: nat)
    requires b.WellFormed()
  {
    forall room: nat :: |FragmentAndEnqueue(b, mbs, room).sent| <= n
  }

  /** Nothing but a full queue stops the loop. */
  ghost predicate NeverEnds(b: Bundle, mbs: nat)
    requires b.WellFormed()
  {
    forall room: nat :: var r := FragmentAndEnqueue(b, mbs, room); !r.ok && |r.sent| == room
  }

  lemma NoBound(b: Bundle, mbs: nat, n: nat)
    requires b.WellFormed() && NeverEnds(b, mbs)
    ensures !CutsAtMost(b, mbs, n)
  {
    hide FragmentAndEnqueue;
    assert |FragmentAndEnqueue(b, mbs, n + 1).sent| == n + 1;
  }

  /**
   The loop ends by itself, whatever the queue takes, exactly if the limit is not the minimum
   size of both a first and a later fragment; it then cuts at most one fragment for each
   byte and an empty one. At that limit nothing but a full queue stops it.
   */
  lemma EndsExactly(b: Bundle, mbs: nat)
    requires InRange(b, mbs) && SerializedSize(b) > mbs && |b.payload.data| > 0
    ensures (exists n: nat :: CutsAtMost(b, mbs, n)) <==> !(FirstMinSize(b) == LastMinSize(b) == mbs)
    ensures FirstMinSize(b) == LastMinSize(b) == mbs <==> NeverEnds(b, mbs)
    ensures !(FirstMinSize(b) == LastMinSize(b) == mbs) ==> CutsAtMost(b, mbs, |b.payload.data| + 1)
  {
    hide MinSize, SerializedSize, Cut;
    if FirstMinSize(b) == LastMinSize(b) == mbs {
      forall room: nat ensures var r := FragmentAndEnqueue(b, mbs, room); !r.ok && |r.sent| == room {
        CutsEmptyFragments(b, mbs, room);
      }
      forall n: nat ensures !CutsAtMost(b, mbs, n) {
        NoBound(b, mbs, n);
      }
    } else {
      forall room: nat ensures |FragmentAndEnqueue(b, mbs, room).sent| <= |b.payload.data| + 1 {
        LoopIsBounded(b, mbs, room);
      }
      assert CutsAtMost(b, mbs, |b.payload.data| + 1);
      if NeverEnds(b, mbs) {
        NoBound(b, mbs, |b.payload.data| + 1);
      }
    }
  }
}
