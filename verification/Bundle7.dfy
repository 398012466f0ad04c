/**
 BPv7 bundles as far as their size matters: CBOR head sizes, the serialized size
 and the two minimum fragment sizes (section 4 of RFC 9171, section 3 of RFC 8949).
 */
module Bundle7 {
  import opened Bytes

  const PAYLOAD: nat := 1
  const CRC_16: nat := 1
  const CRC_32: nat := 2

  datatype Block = Block(blockType: nat, number: nat, flags: nat, crcType: nat, data: seq<Byte>)
  {
    predicate IsPayload() {
      blockType == PAYLOAD
    }

    predicate Replicated() {
      flags % 2 == 1
    }
  }

  /** An endpoint identifier: dtn:none, another one of the dtn scheme, or one of the ipn scheme. */
  datatype Eid = NoneEid | DtnEid(ssp: seq<Byte>) | IpnEid(node: nat, service: nat)

  /** The payload block is the last of the block list, and the only one of its type. */
  datatype Bundle = Bundle(
    procFlags: nat, crcType: nat, destination: Eid, source: Eid, reportTo: Eid,
    creation: nat, sequence: nat, lifetime: nat,
    offset: U64, total: U64, primaryLength: nat, extensions: seq<Block>, payload: Block)
  {
    predicate IsFragment() {
      procFlags % 2 == 1
    }

    function Blocks(): seq<Block> {
      extensions + [payload]
    }

    /** The primary block length is up to date and a fragment lies inside its ADU. */
    predicate WellFormed() {
      && payload.IsPayload() && (forall b :: b in extensions ==> !b.IsPayload())
      && primaryLength == PrimaryLength(this)
      && |payload.data| < U64_LIMIT
      && if IsFragment() then offset + |payload.data| <= total else offset == 0
    }
  }

  /** Bytes of a CBOR head with argument `n`. */
  function HeadSize(n: nat): (size: nat)
    ensures 1 <= size <= 9
  {
    if n <= 0xFFFF then
      if n <= 0xFF then if n <= 23 then 1 else 2
      else 3
    else if n <= 0xFFFF_FFFF then 5
    else 9
  }

  lemma HeadSizeGrows(a: nat, b: nat)
    requires a <= b
    ensures HeadSize(a) <= HeadSize(b)
  {
  }

  function WithFragmentFlag(flags: nat): nat {
    if flags % 2 == 1 then flags else flags + 1
  }

  /** All thresholds of the head size are odd, so the lowest bit never crosses one. */
  lemma FragmentFlagIsFree(flags: nat)
    ensures HeadSize(WithFragmentFlag(flags)) == HeadSize(flags)
  {
  }

  function EidSize(eid: Eid): nat {
    match eid
    case NoneEid => 3
    case DtnEid(ssp) => 1 + HeadSize(1) + HeadSize(|ssp|) + |ssp|
    case IpnEid(node, service) => 1 + HeadSize(2) + 1 + HeadSize(node) + HeadSize(service)
  }

  function CrcSize(crcType: nat): nat {
    if crcType == CRC_32 then 5 else if crcType == CRC_16 then 3 else 0
  }

  /** Of the flags of a block 0x01, 0x02, 0x04 and 0x10 are sent. */
  function SentFlags(flags: nat): (sent: nat)
    ensures sent <= flags
  {
    KeepBits(flags, {0, 1, 2, 4}, 0)
  }

  function PrimaryLength(b: Bundle): nat {
    1 + HeadSize(7) + HeadSize(b.procFlags) + HeadSize(b.crcType)
    + EidSize(b.destination) + EidSize(b.source) + EidSize(b.reportTo)
    + 1 + HeadSize(b.creation) + HeadSize(b.sequence) + HeadSize(b.lifetime)
    + (if b.IsFragment() then HeadSize(b.offset) + HeadSize(b.total) else 0)
    + CrcSize(b.crcType)
  }

  function BlockSize(b: Block): nat {
    1 + HeadSize(b.blockType) + HeadSize(b.number) + HeadSize(SentFlags(b.flags)) + HeadSize(b.crcType)
    + HeadSize(|b.data|) + |b.data| + CrcSize(b.crcType)
  }

  function BlocksSize(blocks: seq<Block>): nat {
    if blocks == [] then 0 else BlocksSize(blocks[..|blocks| - 1]) + BlockSize(blocks[|blocks| - 1])
  }

  function SerializedSize(b: Bundle): nat {
    1 + b.primaryLength + BlocksSize(b.Blocks()) + 1
  }

  function PayloadHeaderSize(b: Block): nat {
    1 + HeadSize(b.blockType) + HeadSize(b.number) + HeadSize(b.flags) + HeadSize(b.crcType)
    + HeadSize(|b.data|) + CrcSize(b.crcType) + 2
  }

  /** Size of the blocks of a fragment, counted with an empty payload. */
  function MinBlocksSize(blocks: seq<Block>, all: bool): nat {
    if blocks == [] then 0
    else
      var last := blocks[|blocks| - 1];
      MinBlocksSize(blocks[..|blocks| - 1], all) +
        if last.IsPayload() then PayloadHeaderSize(last)
        else if all || last.Replicated() then BlockSize(last)
        else 0
  }

  /** Room for the offset and the ADU length, which the fragments carry in addition. */
  function ExtraFields(b: Bundle): int {
    if b.IsFragment() then HeadSize(b.total) - HeadSize(b.offset)
    else 2 * HeadSize(|b.payload.data|)
  }

  function MinSize(b: Bundle, all: bool): int {
    b.primaryLength + MinBlocksSize(b.Blocks(), all) + ExtraFields(b)
  }

  function FirstMinSize(b: Bundle): int
  {
    MinSize(b, true)
  }

  function LastMinSize(b: Bundle): int
  {
    MinSize(b, false)
  }

  // ---- The code, which accumulates over the block list ----

  method GetSerializedSize(b: Bundle) returns (size: nat)
    ensures size == SerializedSize(b)
  {
    var blocks := b.Blocks();
    var sum := 0;
    for i := 0 to |blocks|
      invariant sum == BlocksSize(blocks[..i])
    {
      assert blocks[..i + 1][..i] == blocks[..i];
      sum := sum + BlockSize(blocks[i]);
    }
    assert blocks[..|blocks|] == blocks;
    size := 1 + b.primaryLength + sum + 1;
  }

  method GetMinSize(b: Bundle, all: bool) returns (size: int)
    ensures size == MinSize(b, all)
  {
    var blocks := b.Blocks();
    var sum := 0;
    for i := 0 to |blocks|
      invariant sum == MinBlocksSize(blocks[..i], all)
    {
      assert blocks[..i + 1][..i] == blocks[..i];
      var block := blocks[i];
      if block.IsPayload() {
        sum := sum + PayloadHeaderSize(block);
      } else if all || block.Replicated() {
        sum := sum + BlockSize(block);
      }
    }
    assert blocks[..|blocks|] == blocks;
    size := b.primaryLength + sum + ExtraFields(b);
  }

  // ---- How the sizes relate ----

  lemma {:induction false} FirstNotSmaller(blocks: seq<Block>)
    ensures MinBlocksSize(blocks, false) <= MinBlocksSize(blocks, true)
  {
    if blocks != [] {
      FirstNotSmaller(blocks[..|blocks| - 1]);
    }
  }

  /** The blocks that a fragment of this kind takes along. */
  function Taken(blocks: seq<Block>, all: bool): seq<Block> {
    if blocks == [] then []
    else
      var last := blocks[|blocks| - 1];
      Taken(blocks[..|blocks| - 1], all) + if (all || last.Replicated()) && !last.IsPayload() then [last] else []
  }

  /** Without a payload block the minimum size is the size of the blocks taken along. */
  lemma {:induction false} MinBlocksIsTaken(blocks: seq<Block>, all: bool)
    requires forall b :: b in blocks ==> !b.IsPayload()
    ensures MinBlocksSize(blocks, all) == BlocksSize(Taken(blocks, all))
  {
    if blocks != [] {
      var n := |blocks| - 1;
      MinBlocksIsTaken(blocks[..n], all);
      var front := Taken(blocks[..n], all);
      assert blocks[n] in blocks;
      assert front + [] == front;
      SizeOfBlocks(front, blocks[n], all);
    }
  }

  lemma SizeOfBlocks(front: seq<Block>, last: Block, all: bool)
    ensures BlocksSize(front + [last]) == BlocksSize(front) + BlockSize(last)
    ensures MinBlocksSize(front + [last], all) == MinBlocksSize(front, all) +
      if last.IsPayload() then PayloadHeaderSize(last) else if all || last.Replicated() then BlockSize(last) else 0
  {
    assert (front + [last])[..|front|] == front;
  }

  lemma {:induction false} TakenAll(blocks: seq<Block>)
    requires forall b :: b in blocks ==> !b.IsPayload()
    ensures Taken(blocks, true) == blocks
  {
    if blocks != [] {
      TakenAll(blocks[..|blocks| - 1]);
      assert blocks[|blocks| - 1] in blocks;
    }
  }

  /** A bundle is no larger than a first fragment that would carry its whole payload. */
  lemma WholeBelowFirst(b: Bundle)
    requires b.WellFormed()
    ensures SerializedSize(b) <= FirstMinSize(b) + |b.payload.data|
  {
    SizeOfBlocks(b.extensions, b.payload, true);
    MinBlocksIsTaken(b.extensions, true);
    TakenAll(b.extensions);
    HeadSizeGrows(SentFlags(b.payload.flags), b.payload.flags);
    HeadSizeGrows(b.offset, b.total);
  }
}
