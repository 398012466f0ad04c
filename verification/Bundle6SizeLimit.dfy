/**
 The size limit of the BPv6 parser over whole bundles: which bundles above it pass.
 The counter that is checked wraps around at 32 bits, and the reference count of a block
 is read into it.
 */
module Bundle6SizeLimit {
  import opened Bytes
  import opened Bundle6
  import opened Bundle6Serializer
  import opened Bundle6Parser
  import opened Bundle6RoundTrip
  import Sdnv

  /** The size of the bundle structure with the dictionary, before any block. */
  function StartSize(b: Bundle, structSize: nat): nat {
    structSize + DescriptorOf(b).length + 1
  }

  /** The size with the first `n` blocks. */
  function SizeWith(size: nat, blocks: seq<Block>, n: nat): nat
    requires n <= |blocks|
  {
    if n == 0 then size else SizeWith(size, blocks, n - 1) + blocks[n - 1].length
  }

  function TrueSize(b: Bundle, structSize: nat): nat {
    SizeWith(StartSize(b, structSize), b.blocks, |b.blocks|)
  }

  /**
   What is counted behind the first `n` blocks: all that came before, or what came since
   the last block with references, and the number of these.
   */
  function CountedSize(size: nat, blocks: seq<Block>, n: nat): nat
    requires n <= |blocks|
  {
    if n == 0 then size
    else
      var block := blocks[n - 1];
      (if HasEidRefs(block.flags) then |block.eidRefs| else CountedSize(size, blocks, n - 1)) + block.length
  }

  /** As a 32-bit number, what is counted behind the first `n` blocks is within the limit. */
  predicate Within(size: nat, blocks: seq<Block>, n: nat)
    requires n <= |blocks|
  {
    CountedSize(size, blocks, n) % U32_LIMIT <= BUNDLE_MAX_SIZE
  }

  /** So it is behind every block. */
  predicate Passes(b: Bundle, structSize: nat) {
    forall n :: 1 <= n <= |b.blocks| ==> Within(StartSize(b, structSize), b.blocks, n)
  }

  // ---- A block that is refused ----

  lemma AdvanceRefuses(q: Parser)
    requires q.next == BlockData && (q.size + Get(q, DataLength)) % U32_LIMIT > BUNDLE_MAX_SIZE
    ensures Advance(q).status == Failed && Advance(q).sent == q.sent
  {
    hide Bundle6Parser.EnterDictionary, Get;
  }

  lemma FeedRefusedLength(p: Parser, length: nat, rest: seq<Byte>)
    requires Ready(p) && p.stage == DataLength && p.part != Primary && p.sdnv == Sdnv.RESET
    requires (p.size + length) % U32_LIMIT > BUNDLE_MAX_SIZE && length < U64_LIMIT
    ensures var q := Feed(p, Number(length) + rest).0; q.status == Failed && q.sent == p.sent
  {
    hide Bundle6Parser.Advance, Bundle6Parser.FinishNumber, Taken, Get, Size64, Number;
    var n := Size64(length);
    DataLengthTaken(p, n, length);
    AdvanceRefuses(Taken(Counted(p, n), n, length));
    FeedNumber(p, length, rest);
  }

  lemma HeadKeepsSent(p: Parser, block: Block, infos: seq<EidInfo>, eids: seq<seq<Byte>>)
    requires |infos| == |eids|
    ensures HeadTaken(p, block, infos, eids).sent == p.sent
  {
    hide HasEidRefs, IsLastBlock, Reversed, RefNumbers;
  }

  /** A block behind which the counter exceeds the limit is refused in front of its data. */
  lemma FeedRefusedHead(p: Parser, block: Block, dict: seq<Byte>, infos: seq<EidInfo>, eids: seq<seq<Byte>>,
                        rest: seq<Byte>)
    requires AtBlock(p) && ValidBlock(block) && SizeBehind(p.size, block) > BUNDLE_MAX_SIZE
    requires HasDict(p, dict) && Readable(dict, infos, eids) && |block.eidRefs| <= |infos|
    ensures var head := [block.blockType] + Number(block.flags) + RefPart(infos, block) + Number(block.length);
      var q := Feed(p, head + rest).0; q.status == Failed && q.sent == p.sent
  {
    hide Feed, HasEidRefs, IsLastBlock, HeadTaken, FlagsTaken, BlockBegun, Bundle6Parser.Valid, RefPart, Number,
         HasDict, Readable, SizeBehind;
    ReadableMeans(dict, infos, eids);
    var r3 := Number(block.length) + rest;
    var r2 := RefPart(infos, block) + r3;
    var r1 := Number(block.flags) + r2;
    assert [block.blockType] + Number(block.flags) + RefPart(infos, block) + Number(block.length) + rest
        == [block.blockType] + r1;
    FeedBlockType(p, block.blockType, r1);
    BlockBegunFacts(p, block.blockType);
    FeedBlockFlags(BlockBegun(p, block.blockType), block.flags, r2);
    FeedRefPart(p, block, dict, infos, eids, r3);
    FeedRefusedLength(HeadTaken(p, block, infos, eids), block.length, rest);
    HeadKeepsSent(p, block, infos, eids);
  }

  lemma FeedRefusedBlock(p: Parser, block: Block, dict: seq<Byte>, infos: seq<EidInfo>, eids: seq<seq<Byte>>,
                         rest: seq<Byte>)
    requires AtBlock(p) && ValidBlock(block) && SizeBehind(p.size, block) > BUNDLE_MAX_SIZE
    requires HasDict(p, dict) && Readable(dict, infos, eids) && |block.eidRefs| <= |infos|
    ensures Valid(p)
    ensures var q := Feed(p, BlockBytes(infos, block) + rest).0; q.status == Failed && q.sent == p.sent
  {
    hide *;
    AtBlockIsValid(p);
    BlockParts(infos, block, rest);
    FeedRefusedHead(p, block, dict, infos, eids, block.data + rest);
  }

  /** So are all blocks if the counter exceeds the limit behind any of them. */
  lemma {:induction false} FeedRefusedBlocks(p: Parser, blocks: seq<Block>, dict: seq<Byte>, infos: seq<EidInfo>,
                                             eids: seq<seq<Byte>>, rest: seq<Byte>)
    requires AtBlock(p) && LastFlagAtEnd(blocks) && Sendables(blocks, infos) && !RoomFor(p.size, blocks)
    requires HasDict(p, dict) && Readable(dict, infos, eids)
    ensures Valid(p)
    ensures var q := Feed(p, BlocksBytes(infos, blocks) + rest).0; q.status == Failed && q.sent == p.sent
    decreases |blocks|
  {
    hide *;
    AtBlockIsValid(p);
    RefusedFirst(blocks, infos, p.size);
    ReadableMeans(dict, infos, eids);
    BlocksParts(infos, blocks, rest);
    var block, more := blocks[0], BlocksBytes(infos, blocks[1..]) + rest;
    if SizeBehind(p.size, block) > BUNDLE_MAX_SIZE {
      FeedRefusedBlock(p, block, dict, infos, eids, more);
    } else {
      FirstOfMany(blocks);
      FeedBlock(p, block, dict, infos, eids, more);
      IsAfterBlock(p, block, infos, eids);
      BehindBlockFacts(p, block, dict, infos, eids);
      BehindBlockParts(p, block, infos, eids);
      FeedRefusedBlocks(BehindBlock(p, block, infos, eids), blocks[1..], dict, infos, eids, rest);
    }
  }

  lemma RefusedFirst(blocks: seq<Block>, infos: seq<EidInfo>, size: nat)
    requires LastFlagAtEnd(blocks) && Sendables(blocks, infos) && !RoomFor(size, blocks)
    ensures blocks != [] && ValidBlock(blocks[0]) && |blocks[0].eidRefs| <= |infos| && Sendables(blocks[1..], infos)
    ensures SizeBehind(size, blocks[0]) <= BUNDLE_MAX_SIZE ==>
      !RoomFor(SizeBehind(size, blocks[0]), blocks[1..]) && |blocks| > 1
  {
    hide IsLastBlock, ValidBlock, SizeBehind;
  }

  /** Whether a bundle passes decides what becomes of it. */
  lemma AcceptedExactly(b: Bundle, structSize: nat, rest: seq<Byte>)
    requires Serializable(b) && LastFlagAtEnd(b.blocks) && StartSize(b, structSize) <= BUNDLE_MAX_SIZE
    ensures Valid(Reset(structSize))
    ensures var p := Feed(Reset(structSize), BundleBytes(b) + rest).0;
      && p.status == (if Passes(b, structSize) then Done else Failed)
      && p.sent == (if Passes(b, structSize) && HasPayload(b.blocks) then Some(Received(b)) else None)
  {
    var start := StartSize(b, structSize);
    RoomForExactly(start, b.blocks);
    hide *;
    ResetIsReady(structSize);
    StartIs(b, structSize);
    PassesIs(b, structSize);
    if Passes(b, structSize) {
      RoundTrip(b, structSize, rest);
    } else {
      var infos, eids := DescriptorOf(b).references, CanonicalRefs(AllRefs(b.blocks));
      PrimaryRunsOut(b, structSize, BlocksBytes(infos, b.blocks) + rest);
      BundleSplits(b, structSize, rest);
      RefsAreReadable(b);
      BlocksCanBeSent(b);
      PrimaryHasDict(b, structSize);
      FeedRefusedBlocks(BehindPrimary(b, structSize), b.blocks, DictBytes(b), infos, eids, rest);
    }
  }

  lemma StartIs(b: Bundle, structSize: nat)
    ensures StartSize(b, structSize) == structSize + DescriptorOf(b).length + 1
    ensures BehindPrimary(b, structSize).sent == None
  {
    hide DescriptorOf, MaskFlags, DictBytes, PrimaryNumbers, ReceivedEids, Size64;
  }

  lemma PassesIs(b: Bundle, structSize: nat)
    ensures Passes(b, structSize) <==>
      forall n :: 1 <= n <= |b.blocks| ==> Within(StartSize(b, structSize), b.blocks, n)
  {
  }

  // ---- The counter in terms of lengths and flags ----

  lemma SumWraps(a: nat, n: nat)
    ensures (a % U32_LIMIT + n) % U32_LIMIT == (a + n) % U32_LIMIT
  {
    var q := a / U32_LIMIT;
    assert a + n == (a % U32_LIMIT + n) + q * U32_LIMIT;
    Wraps(a % U32_LIMIT + n, q);
  }

  lemma {:induction false} Wraps(a: nat, q: nat)
    ensures (a + q * U32_LIMIT) % U32_LIMIT == a % U32_LIMIT
  {
    if q > 0 {
      Wraps(a, q - 1);
      assert (a + (q - 1) * U32_LIMIT + U32_LIMIT) % U32_LIMIT == (a + (q - 1) * U32_LIMIT) % U32_LIMIT;
    }
  }

  /** What is counted, seen from behind the first block. */
  lemma {:induction false} CountedBehindFirst(size: nat, blocks: seq<Block>, n: nat)
    requires 1 <= n <= |blocks|
    ensures CountedSize(size, blocks, n) % U32_LIMIT
         == CountedSize(SizeBehind(size, blocks[0]), blocks[1..], n - 1) % U32_LIMIT
    ensures Within(size, blocks, n) <==> Within(SizeBehind(size, blocks[0]), blocks[1..], n - 1)
  {
    hide HasEidRefs;
    var block := blocks[n - 1];
    if n > 1 {
      CountedBehindFirst(size, blocks, n - 1);
      assert blocks[1..][n - 2] == block;
      SumWraps(CountedSize(size, blocks, n - 1), block.length);
      SumWraps(CountedSize(SizeBehind(size, blocks[0]), blocks[1..], n - 2), block.length);
    }
  }

  lemma {:induction false} RoomForExactly(size: nat, blocks: seq<Block>)
    ensures RoomFor(size, blocks) <==> forall n :: 1 <= n <= |blocks| ==> Within(size, blocks, n)
    decreases |blocks|
  {
    hide CountedSize, SizeBehind, Within;
    if blocks != [] {
      var next, rest := SizeBehind(size, blocks[0]), blocks[1..];
      RoomForExactly(next, rest);
      FirstWithin(size, blocks);
      if RoomFor(size, blocks) {
        forall n | 1 <= n <= |blocks| ensures Within(size, blocks, n) {
          CountedBehindFirst(size, blocks, n);
          assert n == 1 || Within(next, rest, n - 1);
        }
      }
      if forall n :: 1 <= n <= |blocks| ==> Within(size, blocks, n) {
        forall n | 1 <= n <= |rest| ensures Within(next, rest, n) {
          CountedBehindFirst(size, blocks, n + 1);
          assert Within(size, blocks, n + 1);
        }
        assert Within(size, blocks, 1);
      }
    }
  }

  lemma FirstWithin(size: nat, blocks: seq<Block>)
    requires blocks != []
    ensures Within(size, blocks, 1) <==> SizeBehind(size, blocks[0]) <= BUNDLE_MAX_SIZE
  {
    hide HasEidRefs;
    assert CountedSize(size, blocks, 0) == size;
  }

  // ---- The counter and the true size ----

  lemma {:induction false} RefsTakeRoom(refs: seq<seq<Byte>>)
    ensures |refs| <= RefsLength(refs)
  {
    hide EntryLength;
    if refs != [] {
      RefsTakeRoom(refs[..|refs| - 1]);
      EntryTakesRoom(refs[|refs| - 1]);
    }
  }

  lemma EntryTakesRoom(r: seq<Byte>)
    ensures EntryLength(Some(r)) >= 2
  {
  }

  lemma FewRefs(b: Bundle, structSize: nat)
    requires Serializable(b)
    ensures forall i :: 0 <= i < |b.blocks| ==> |b.blocks[i].eidRefs| <= StartSize(b, structSize)
  {
    hide AllRefs, RefsLength, EntryLength;
    RefsTakeRoom(AllRefs(b.blocks));
    forall i | 0 <= i < |b.blocks| ensures |b.blocks[i].eidRefs| <= |AllRefs(b.blocks)| {
      RefsOfBlock(b.blocks, i);
    }
  }

  /** The counter never runs ahead of the size; they are the same in front of the first block with references. */
  lemma {:induction false} CountedIsBelow(size: nat, blocks: seq<Block>, n: nat)
    requires n <= |blocks| && forall i :: 0 <= i < |blocks| ==> |blocks[i].eidRefs| <= size
    ensures size <= SizeWith(size, blocks, n) && CountedSize(size, blocks, n) <= SizeWith(size, blocks, n)
    ensures (forall i :: 0 <= i < n ==> !HasEidRefs(blocks[i].flags)) ==>
      CountedSize(size, blocks, n) == SizeWith(size, blocks, n)
  {
    hide HasEidRefs;
    if n > 0 {
      CountedIsBelow(size, blocks, n - 1);
    }
  }

  lemma {:induction false} SizeGrows(size: nat, blocks: seq<Block>, n: nat)
    requires n <= |blocks|
    ensures SizeWith(size, blocks, n) <= SizeWith(size, blocks, |blocks|)
    decreases |blocks| - n
  {
    if n < |blocks| {
      SizeGrows(size, blocks, n + 1);
    }
  }

  lemma SmallPasses(b: Bundle, structSize: nat)
    requires Serializable(b) && TrueSize(b, structSize) <= BUNDLE_MAX_SIZE
    ensures Passes(b, structSize)
  {
    FewRefs(b, structSize);
    hide Serializable, StartSize, HasEidRefs, CountedSize, SizeWith;
    var start := StartSize(b, structSize);
    forall n | 1 <= n <= |b.blocks| ensures Within(start, b.blocks, n) {
      CountedIsBelow(start, b.blocks, n);
      SizeGrows(start, b.blocks, n);
    }
  }

  lemma PassingIsSmall(b: Bundle, structSize: nat)
    requires Serializable(b) && b.blocks != [] && Passes(b, structSize) && TrueSize(b, structSize) < U32_LIMIT
    requires forall i :: 0 <= i < |b.blocks| ==> !HasEidRefs(b.blocks[i].flags)
    ensures TrueSize(b, structSize) <= BUNDLE_MAX_SIZE
  {
    FewRefs(b, structSize);
    hide Serializable, StartSize, HasEidRefs, CountedSize, SizeWith;
    var start, n := StartSize(b, structSize), |b.blocks|;
    assert Within(start, b.blocks, n);
    CountedIsBelow(start, b.blocks, n);
  }

  /**
   A bundle within the limit is accepted. One above it is accepted exactly if it passes,
   and then the counter was replaced by a reference count or has wrapped around: without
   either, the limit is kept.
   */
  lemma LimitExactly(b: Bundle, structSize: nat, rest: seq<Byte>)
    requires Serializable(b) && LastFlagAtEnd(b.blocks) && StartSize(b, structSize) <= BUNDLE_MAX_SIZE
    ensures Valid(Reset(structSize))
    ensures var accepted := Feed(Reset(structSize), BundleBytes(b) + rest).0.status == Done;
      && (accepted <==> Passes(b, structSize))
      && (TrueSize(b, structSize) <= BUNDLE_MAX_SIZE ==> accepted)
      && (accepted && TrueSize(b, structSize) > BUNDLE_MAX_SIZE ==>
            || TrueSize(b, structSize) >= U32_LIMIT
            || exists i :: 0 <= i < |b.blocks| && HasEidRefs(b.blocks[i].flags))
  {
    hide *;
    AcceptedExactly(b, structSize, rest);
    LastMeansSome(b.blocks);
    if TrueSize(b, structSize) <= BUNDLE_MAX_SIZE {
      SmallPasses(b, structSize);
    } else if Passes(b, structSize) && TrueSize(b, structSize) < U32_LIMIT {
      if forall i :: 0 <= i < |b.blocks| ==> !HasEidRefs(b.blocks[i].flags) {
        PassingIsSmall(b, structSize);
      }
    }
  }

  lemma LastMeansSome(blocks: seq<Block>)
    requires LastFlagAtEnd(blocks)
    ensures blocks != []
  {
  }

  // ---- Bundles above the limit ----

  /** A bundle with these blocks and short identifiers. */
  function BundleWith(blocks: seq<Block>): Bundle {
    var eid: Option<seq<Byte>> := Some([0x61, COLON]);
    Bundle(6, 0, eid, eid, eid, eid, 0, 0, 0, 0, 0, 24, blocks)
  }

  lemma ShortEntry()
    ensures var eid: Option<seq<Byte>> := Some([0x61, COLON]);
      SplitEid(eid) == ([0x61], []) && EntryLength(eid) == 3 && ValidEid(eid)
  {
    var e: seq<Byte> := [0x61, COLON];
    assert e[1..] == [COLON] && e[..1] == [0x61] && e[2..] == [];
    assert Find(e[1..], COLON) == 0;
    assert Find(e, COLON) == 1;
  }

  lemma {:induction false} NoRefs(blocks: seq<Block>)
    requires forall i :: 0 <= i < |blocks| ==> blocks[i].eidRefs == []
    ensures AllRefs(blocks) == []
  {
    if blocks != [] {
      NoRefs(blocks[..|blocks| - 1]);
    }
  }

  lemma BundleWithIsSerializable(blocks: seq<Block>)
    requires forall i :: 0 <= i < |blocks| ==> ValidBlock(blocks[i]) && blocks[i].eidRefs == []
    ensures var b := BundleWith(blocks); var d := DescriptorOf(b);
      Serializable(b) && d.length == 12 && d.references == [] && PrimaryLengthOf(b) == 24
  {
    ShortEntry();
    NoRefs(blocks);
    hide EntryLength, SplitEid, ValidBlock, ValidEid, AllRefs;
  }

  /** Blocks without references of these types, flags and lengths. */
  function BlockOf(blockType: Byte, flags: nat, length: nat): Block {
    Block(blockType, flags, [], length, Zeros(length))
  }

  lemma TwoBlocks(structSize: nat, x: Block, y: Block)
    requires ValidBlock(x) && ValidBlock(y) && x.eidRefs == [] && y.eidRefs == [] && !HasEidRefs(x.flags)
    requires !IsLastBlock(x.flags) && IsLastBlock(y.flags) && x.blockType == PAYLOAD_BLOCK_TYPE
    ensures var b, start := BundleWith([x, y]), structSize + 13;
      && Serializable(b) && LastFlagAtEnd(b.blocks) && HasPayload(b.blocks)
      && StartSize(b, structSize) == start && TrueSize(b, structSize) == start + x.length + y.length
      && (Passes(b, structSize) <==>
            && (start + x.length) % U32_LIMIT <= BUNDLE_MAX_SIZE
            && ((if HasEidRefs(y.flags) then 0 else start + x.length) + y.length) % U32_LIMIT <= BUNDLE_MAX_SIZE)
  {
    hide *;
    TwoCounted(structSize + 13, x, y);
    TwoFlags(x, y);
    TwoStart(structSize, x, y);
    PassesTwo(BundleWith([x, y]), structSize);
  }

  lemma TwoStart(structSize: nat, x: Block, y: Block)
    requires ValidBlock(x) && ValidBlock(y) && x.eidRefs == [] && y.eidRefs == []
    ensures var b := BundleWith([x, y]);
      && b.blocks == [x, y] && Serializable(b) && StartSize(b, structSize) == structSize + 13
      && TrueSize(b, structSize) == SizeWith(structSize + 13, [x, y], 2)
  {
    BundleWithIsSerializable([x, y]);
    hide Serializable, ValidBlock, DescriptorOf, SizeWith;
  }

  lemma TwoFlags(x: Block, y: Block)
    requires !IsLastBlock(x.flags) && IsLastBlock(y.flags) && x.blockType == PAYLOAD_BLOCK_TYPE
    ensures LastFlagAtEnd([x, y]) && HasPayload([x, y])
  {
    hide IsLastBlock;
    assert [x, y][0].blockType == PAYLOAD_BLOCK_TYPE;
  }

  lemma PassesTwo(b: Bundle, structSize: nat)
    requires |b.blocks| == 2
    ensures Passes(b, structSize) <==>
      Within(StartSize(b, structSize), b.blocks, 1) && Within(StartSize(b, structSize), b.blocks, 2)
  {
    hide Within, StartSize;
  }

  lemma TwoCounted(start: nat, x: Block, y: Block)
    requires !HasEidRefs(x.flags) && y.eidRefs == []
    ensures SizeWith(start, [x, y], 2) == start + x.length + y.length
    ensures Within(start, [x, y], 1) <==> (start + x.length) % U32_LIMIT <= BUNDLE_MAX_SIZE
    ensures Within(start, [x, y], 2) <==>
      ((if HasEidRefs(y.flags) then 0 else start + x.length) + y.length) % U32_LIMIT <= BUNDLE_MAX_SIZE
  {
    hide HasEidRefs;
    var blocks := [x, y];
    assert CountedSize(start, blocks, 0) == start && SizeWith(start, blocks, 0) == start;
    assert CountedSize(start, blocks, 1) == start + x.length && SizeWith(start, blocks, 1) == start + x.length;
  }

  const LARGE: nat := 0x3000_0000

  lemma BlocksOf(length: nat)
    requires length < U64_LIMIT
    ensures var x, y, z := BlockOf(PAYLOAD_BLOCK_TYPE, 0, length), BlockOf(2, 0x08, length), BlockOf(2, 0x48, length);
      && x.length == y.length == z.length == length && x.eidRefs == y.eidRefs == z.eidRefs == []
      && x.blockType == PAYLOAD_BLOCK_TYPE && ValidBlock(x) && ValidBlock(y) && ValidBlock(z)
      && !HasEidRefs(x.flags) && !HasEidRefs(y.flags) && HasEidRefs(z.flags)
      && !IsLastBlock(x.flags) && IsLastBlock(y.flags) && IsLastBlock(z.flags)
  {
    hide Zeros;
  }

  /** Two blocks of 768 mebibytes are refused. */
  lemma LargeIsRefused(structSize: nat, rest: seq<Byte>)
    requires structSize + 13 <= 0x1000_0000
    ensures Valid(Reset(structSize))
    ensures var b := BundleWith([BlockOf(PAYLOAD_BLOCK_TYPE, 0, LARGE), BlockOf(2, 0x08, LARGE)]);
      && BUNDLE_MAX_SIZE < TrueSize(b, structSize) < U32_LIMIT
      && Feed(Reset(structSize), BundleBytes(b) + rest).0.status == Failed
  {
    hide Feed, Serializable, BundleBytes, LastFlagAtEnd, Reset, Bundle6Parser.Valid, Received, Passes, BundleWith,
         BlockOf, TrueSize, StartSize, ValidBlock, HasEidRefs, IsLastBlock, HasPayload;
    BlocksOf(LARGE);
    var x, y := BlockOf(PAYLOAD_BLOCK_TYPE, 0, LARGE), BlockOf(2, 0x08, LARGE);
    TwoBlocks(structSize, x, y);
    BlocksAre(x, y);
    AcceptedExactly(BundleWith([x, y]), structSize, rest);
  }

  /** They pass if the second has the flag for references, even without any. */
  lemma LargeWithFlagPasses(structSize: nat, rest: seq<Byte>)
    requires structSize + 13 <= 0x1000_0000
    ensures Valid(Reset(structSize))
    ensures var b := BundleWith([BlockOf(PAYLOAD_BLOCK_TYPE, 0, LARGE), BlockOf(2, 0x48, LARGE)]);
      && BUNDLE_MAX_SIZE < TrueSize(b, structSize) < U32_LIMIT
      && Feed(Reset(structSize), BundleBytes(b) + rest).0.sent == Some(Received(b))
  {
    hide Feed, Serializable, BundleBytes, LastFlagAtEnd, Reset, Bundle6Parser.Valid, Received, Passes, BundleWith,
         BlockOf, TrueSize, StartSize, ValidBlock, HasEidRefs, IsLastBlock, HasPayload;
    BlocksOf(LARGE);
    var x, z := BlockOf(PAYLOAD_BLOCK_TYPE, 0, LARGE), BlockOf(2, 0x48, LARGE);
    TwoBlocks(structSize, x, z);
    BlocksAre(x, z);
    AcceptedExactly(BundleWith([x, z]), structSize, rest);
  }

  lemma BlocksAre(x: Block, y: Block)
    ensures BundleWith([x, y]).blocks == [x, y]
  {
  }

  /** A payload of four gibibytes passes: the counter wraps around to where it was. */
  lemma HugeBlockPasses(structSize: nat, rest: seq<Byte>)
    requires structSize + 13 <= BUNDLE_MAX_SIZE
    ensures Valid(Reset(structSize))
    ensures var b := BundleWith([BlockOf(PAYLOAD_BLOCK_TYPE, 0, U32_LIMIT), BlockOf(2, 0x08, 0)]);
      && TrueSize(b, structSize) > U32_LIMIT
      && Feed(Reset(structSize), BundleBytes(b) + rest).0.sent == Some(Received(b))
  {
    hide Feed, Serializable, BundleBytes, LastFlagAtEnd, Reset, Bundle6Parser.Valid, Received, Passes, BundleWith,
         BlockOf, TrueSize, StartSize, ValidBlock, HasEidRefs, IsLastBlock, HasPayload;
    BlocksOf(U32_LIMIT);
    BlocksOf(0);
    var x, y := BlockOf(PAYLOAD_BLOCK_TYPE, 0, U32_LIMIT), BlockOf(2, 0x08, 0);
    TwoBlocks(structSize, x, y);
    BlocksAre(x, y);
    AcceptedExactly(BundleWith([x, y]), structSize, rest);
  }
}
