/**
 The bytes of BPv7 bundles (sections 4.2 and 4.3 of RFC 9171, section 3 of RFC 8949): what
 the serializer writes, and that the sizes by which it is fragmented are the sizes of that.
 */
module Bundle7Wire {
  import opened Bytes
  import opened Bundle7

  const UINT: nat := 0
  const BYTE_STRING: nat := 2
  const TEXT_STRING: nat := 3
  const ARRAY: nat := 4

  /** The head of a data item: its type and a number in the fewest bytes. */
  function Head(major: nat, n: nat): seq<Byte>
    requires major < 8 && n < U64_LIMIT
  {
    if n <= 23 then [major * 32 + n]
    else if n <= 0xFF then [major * 32 + 24] + ToBytes(n, 1)
    else if n <= 0xFFFF then [major * 32 + 25] + ToBytes(n, 2)
    else if n <= 0xFFFF_FFFF then [major * 32 + 26] + ToBytes(n, 4)
    else [major * 32 + 27] + ToBytes(n, 8)
  }

  function Uint(n: nat): seq<Byte>
    requires n < U64_LIMIT
  {
    Head(UINT, n)
  }

  lemma HeadIsSize(major: nat, n: nat)
    requires major < 8 && n < U64_LIMIT
    ensures |Head(major, n)| == HeadSize(n)
  {
  }

  lemma SmallHead(major: nat, n: nat)
    requires major < 8 && n <= 23
    ensures Head(major, n) == [major * 32 + n]
  {
  }

  /** Examples of appendix A of RFC 8949. */
  lemma HeadExamples()
    ensures Uint(0) == [0x00] && Uint(10) == [0x0A] && Uint(23) == [0x17] && Uint(24) == [0x18, 0x18]
    ensures Uint(100) == [0x18, 0x64] && Uint(1000) == [0x19, 0x03, 0xE8]
    ensures Uint(1_000_000) == [0x1A, 0x00, 0x0F, 0x42, 0x40]
    ensures Uint(1_000_000_000_000) == [0x1B, 0x00, 0x00, 0x00, 0xE8, 0xD4, 0xA5, 0x10, 0x00]
    ensures Head(BYTE_STRING, 4) == [0x44] && Head(TEXT_STRING, 4) == [0x64] && Head(ARRAY, 25) == [0x98, 0x19]
  {
    hide ToBytes;
    NoBytes();
    LastByte(0, 24, 0);
    LastByte(0, 25, 0);
    LastByte(0, 100, 0);
    LastByte(0, 0x03, 0);
    LastByte(0x03, 0xE8, 1);
    MillionBytes();
    BillionBytes();
  }

  lemma MillionBytes()
    ensures ToBytes(1_000_000, 4) == [0x00, 0x0F, 0x42, 0x40]
  {
    hide ToBytes;
    NoBytes();
    LastByte(0, 0, 0);
    LastByte(0, 0x0F, 1);
    LastByte(0x0F, 0x42, 2);
    LastByte(0x0F42, 0x40, 3);
  }

  lemma BillionBytes()
    ensures ToBytes(1_000_000_000_000, 8) == [0x00, 0x00, 0x00, 0xE8, 0xD4, 0xA5, 0x10, 0x00]
  {
    hide ToBytes;
    NoBytes();
    LastByte(0, 0, 0);
    LastByte(0, 0, 1);
    LastByte(0, 0, 2);
    LastByte(0, 0xE8, 3);
    LastByte(0xE8, 0xD4, 4);
    LastByte(0xE8D4, 0xA5, 5);
    LastByte(0xE8D4A5, 0x10, 6);
    LastByte(0xE8D4A510, 0x00, 7);
  }

  // ---- Endpoint identifiers ----

  predicate EidFits(eid: Eid) {
    match eid
    case NoneEid => true
    case DtnEid(ssp) => |ssp| < U64_LIMIT
    case IpnEid(node, service) => node < U64_LIMIT && service < U64_LIMIT
  }

  function EidBytes(eid: Eid): seq<Byte>
    requires EidFits(eid)
  {
    match eid
    case NoneEid => Head(ARRAY, 2) + Uint(1) + Uint(0)
    case DtnEid(ssp) => Head(ARRAY, 2) + Uint(1) + Head(TEXT_STRING, |ssp|) + ssp
    case IpnEid(node, service) => Head(ARRAY, 2) + Uint(2) + Head(ARRAY, 2) + Uint(node) + Uint(service)
  }

  lemma EidIsSize(eid: Eid)
    requires EidFits(eid)
    ensures |EidBytes(eid)| == EidSize(eid)
  {
  }

  /** The forms of section 4.2.5.1 of RFC 9171: `dtn:none`, `dtn://a/` and `ipn:1.300`. */
  lemma EidExamples()
    ensures EidBytes(NoneEid) == [0x82] + [1] + [0]
    ensures EidBytes(DtnEid([0x2F, 0x2F, 0x61, 0x2F])) == [0x82] + [1] + [0x64] + [0x2F, 0x2F, 0x61, 0x2F]
    ensures EidBytes(IpnEid(1, 300)) == [0x82] + [2] + [0x82] + [1] + [0x19, 0x01, 0x2C]
  {
    assert Uint(300) == [0x19, 0x01, 0x2C] by {
      NoBytes();
      LastByte(0, 1, 0);
      LastByte(1, 0x2C, 1);
    }
    SmallHead(ARRAY, 2);
    SmallHead(UINT, 0);
    SmallHead(UINT, 1);
    SmallHead(UINT, 2);
    SmallHead(TEXT_STRING, 4);
    hide Head;
  }

  // ---- Blocks ----

  /** A checksum of `n` bytes over some bytes. */
  type Checksum = (seq<Byte>, nat) -> seq<Byte>

  ghost predicate GivesBytes(crc: Checksum) {
    forall covered: seq<Byte>, n: nat :: |crc(covered, n)| == n
  }

  /** The bytes of a checksum of this type. */
  function CrcBytes(crcType: nat): nat {
    if crcType == CRC_32 then 4 else 2
  }

  /** The CRC field, computed over what is in front of it and a field of zeros. */
  function CrcField(crc: Checksum, crcType: nat, covered: seq<Byte>): seq<Byte> {
    if crcType == 0 then []
    else
      var n := CrcBytes(crcType);
      Head(BYTE_STRING, n) + crc(covered + Head(BYTE_STRING, n) + Zeros(n), n)
  }

  lemma CrcIsSize(crc: Checksum, crcType: nat, covered: seq<Byte>)
    requires GivesBytes(crc) && crcType <= 2
    ensures |CrcField(crc, crcType, covered)| == CrcSize(crcType)
  {
    if crcType != 0 {
      HeadIsSize(BYTE_STRING, CrcBytes(crcType));
    }
  }

  predicate BlockFits(b: Block) {
    b.blockType < U64_LIMIT && b.number < U64_LIMIT && b.flags < U64_LIMIT && b.crcType <= 2 && |b.data| < U64_LIMIT
  }

  function BlockBody(b: Block): seq<Byte>
    requires BlockFits(b)
  {
    Head(ARRAY, 5 + if b.crcType != 0 then 1 else 0) + Uint(b.blockType) + Uint(b.number) + Uint(SentFlags(b.flags))
    + Uint(b.crcType) + Head(BYTE_STRING, |b.data|) + b.data
  }

  function BlockBytes(b: Block, crc: Checksum): seq<Byte>
    requires BlockFits(b)
  {
    BlockBody(b) + CrcField(crc, b.crcType, BlockBody(b))
  }

  lemma BlockIsSize(b: Block, crc: Checksum)
    requires BlockFits(b) && GivesBytes(crc)
    ensures |BlockBytes(b, crc)| == BlockSize(b)
  {
    hide HeadSize, Head, CrcField, SentFlags;
    HeadIsSize(ARRAY, 5 + if b.crcType != 0 then 1 else 0);
    ArrayHead(5 + if b.crcType != 0 then 1 else 0);
    HeadIsSize(UINT, b.blockType);
    HeadIsSize(UINT, b.number);
    HeadIsSize(UINT, SentFlags(b.flags));
    HeadIsSize(UINT, b.crcType);
    HeadIsSize(BYTE_STRING, |b.data|);
    CrcIsSize(crc, b.crcType, BlockBody(b));
  }

  lemma ArrayHead(n: nat)
    requires n <= 23
    ensures HeadSize(n) == 1
  {
  }

  /** The block processing flags that are sent, bit by bit. */
  lemma SentFlagsBits(flags: nat, k: nat)
    ensures Bit(SentFlags(flags), k) <==> Bit(flags, k) && k in {0, 1, 2, 4}
  {
    BitsKept(flags, {0, 1, 2, 4}, 0, k);
  }

  // ---- The primary block ----

  /** The bundle processing flags that are sent. */
  function SentProcFlags(flags: nat): (sent: nat)
    ensures sent <= flags
  {
    KeepBits(flags, {0, 1, 2, 5, 6, 14, 16, 17, 18}, 0)
  }

  lemma SentProcFlagsBits(flags: nat, k: nat)
    ensures Bit(SentProcFlags(flags), k) <==> Bit(flags, k) && k in {0, 1, 2, 5, 6, 14, 16, 17, 18}
  {
    BitsKept(flags, {0, 1, 2, 5, 6, 14, 16, 17, 18}, 0, k);
  }

  predicate PrimaryFits(b: Bundle) {
    && b.procFlags < U64_LIMIT && b.crcType <= 2 && EidFits(b.destination) && EidFits(b.source) && EidFits(b.reportTo)
    && b.creation < U64_LIMIT && b.sequence < U64_LIMIT && b.lifetime < U64_LIMIT
  }

  function Items(b: Bundle): nat {
    8 + (if b.crcType != 0 then 1 else 0) + (if b.IsFragment() then 2 else 0)
  }

  function FragmentFields(b: Bundle): seq<Byte> {
    if b.IsFragment() then Uint(b.offset) + Uint(b.total) else []
  }

  function PrimaryBody(b: Bundle): seq<Byte>
    requires PrimaryFits(b)
  {
    Head(ARRAY, Items(b)) + Uint(7) + Uint(SentProcFlags(b.procFlags)) + Uint(b.crcType)
    + EidBytes(b.destination) + EidBytes(b.source) + EidBytes(b.reportTo)
    + Head(ARRAY, 2) + Uint(b.creation) + Uint(b.sequence) + Uint(b.lifetime) + FragmentFields(b)
  }

  function PrimaryBytes(b: Bundle, crc: Checksum): seq<Byte>
    requires PrimaryFits(b)
  {
    PrimaryBody(b) + CrcField(crc, b.crcType, PrimaryBody(b))
  }

  /** The primary block is as long as was computed, or shorter by the flags that are not sent. */
  lemma PrimaryIsLength(b: Bundle, crc: Checksum)
    requires PrimaryFits(b) && GivesBytes(crc)
    ensures |PrimaryBytes(b, crc)| + HeadSize(b.procFlags) == PrimaryLength(b) + HeadSize(SentProcFlags(b.procFlags))
  {
    hide HeadSize, Head, CrcField, SentProcFlags, EidBytes, EidSize;
    HeadIsSize(ARRAY, Items(b));
    ArrayHead(Items(b));
    HeadIsSize(UINT, 7);
    HeadIsSize(UINT, SentProcFlags(b.procFlags));
    HeadIsSize(UINT, b.crcType);
    EidIsSize(b.destination);
    EidIsSize(b.source);
    EidIsSize(b.reportTo);
    HeadIsSize(ARRAY, 2);
    ArrayHead(2);
    HeadIsSize(UINT, b.creation);
    HeadIsSize(UINT, b.sequence);
    HeadIsSize(UINT, b.lifetime);
    HeadIsSize(UINT, b.offset);
    HeadIsSize(UINT, b.total);
    CrcIsSize(crc, b.crcType, PrimaryBody(b));
  }

  // ---- The bundle ----

  function BlocksBytes(blocks: seq<Block>, crc: Checksum): seq<Byte>
    requires forall b :: b in blocks ==> BlockFits(b)
  {
    if blocks == [] then []
    else BlocksBytes(blocks[..|blocks| - 1], crc) + BlockBytes(blocks[|blocks| - 1], crc)
  }

  lemma {:induction false} BlocksAreSize(blocks: seq<Block>, crc: Checksum)
    requires GivesBytes(crc) && forall b :: b in blocks ==> BlockFits(b)
    ensures |BlocksBytes(blocks, crc)| == BlocksSize(blocks)
  {
    if blocks != [] {
      BlocksAreSize(blocks[..|blocks| - 1], crc);
      BlockIsSize(blocks[|blocks| - 1], crc);
    }
  }

  /** What can be serialized: every number fits 64 bits, and the CRC types are known. */
  predicate Encodable(b: Bundle) {
    PrimaryFits(b) && forall block :: block in b.Blocks() ==> BlockFits(block)
  }

  /** An array of unknown length: the primary block, the other blocks, and the break. */
  function BundleBytes(b: Bundle, crc: Checksum): seq<Byte>
    requires Encodable(b)
  {
    [0x9F] + PrimaryBytes(b, crc) + BlocksBytes(b.Blocks(), crc) + [0xFF]
  }

  /**
   The computed size is never below the number of bytes, and it is that number exactly if
   the flags that are not sent take no room.
   */
  lemma SizeIsBytesExactly(b: Bundle, crc: Checksum)
    requires b.WellFormed() && Encodable(b) && GivesBytes(crc)
    ensures |BundleBytes(b, crc)| <= SerializedSize(b)
    ensures |BundleBytes(b, crc)| == SerializedSize(b) <==>
      HeadSize(SentProcFlags(b.procFlags)) == HeadSize(b.procFlags)
    ensures SentProcFlags(b.procFlags) == b.procFlags ==> |BundleBytes(b, crc)| == SerializedSize(b)
  {
    hide PrimaryBytes, BlocksBytes, PrimaryLength, BlocksSize, HeadSize, SentProcFlags;
    PrimaryIsLength(b, crc);
    BlocksAreSize(b.Blocks(), crc);
    HeadSizeGrows(SentProcFlags(b.procFlags), b.procFlags);
  }

  lemma NoOldFlags()
    ensures SentProcFlags(0x190) == 0
  {
    var keep := {0, 1, 2, 5, 6, 14, 16, 17, 18};
    assert KeepBits(1, keep, 8) == 0;
    assert KeepBits(3, keep, 7) == 0;
    assert KeepBits(6, keep, 6) == 0;
    assert KeepBits(12, keep, 5) == 0;
    assert KeepBits(25, keep, 4) == 0;
    assert KeepBits(50, keep, 3) == 0;
    assert KeepBits(100, keep, 2) == 0;
    assert KeepBits(200, keep, 1) == 0;
  }

  /** Flags of the older version, here the singleton bit and both priority bits, make the size two too large. */
  lemma OldFlagsAreCounted(b: Bundle, crc: Checksum)
    requires b.WellFormed() && Encodable(b) && GivesBytes(crc) && b.procFlags == 0x190
    ensures |BundleBytes(b, crc)| + 2 == SerializedSize(b)
  {
    hide PrimaryBytes, BlocksBytes, PrimaryLength, BlocksSize, SentProcFlags;
    NoOldFlags();
    PrimaryIsLength(b, crc);
    BlocksAreSize(b.Blocks(), crc);
  }

  // ---- Bundles, byte by byte ----

  lemma SmallEid(node: nat, service: nat)
    requires node <= 23 && service <= 23
    ensures EidBytes(IpnEid(node, service)) == [0x82, 2, 0x82, node, service]
  {
  }

  /** The bundle of section A.1.1 of RFC 9173; its payload has 35 bytes. */
  function Published(data: seq<Byte>): Bundle {
    Bundle(0, 0, IpnEid(1, 2), IpnEid(2, 1), IpnEid(2, 1), 0, 40, 1_000_000, 0, 0, 28, [],
           Block(PAYLOAD, 1, 0, 0, data))
  }

  lemma PublishedPrimary(data: seq<Byte>)
    ensures PrimaryBody(Published(data)) == [0x88] + [7] + [0] + [0]
      + [0x82, 2, 0x82, 1, 2] + [0x82, 2, 0x82, 2, 1] + [0x82, 2, 0x82, 2, 1]
      + [0x82] + [0] + [0x18, 0x28] + [0x1A, 0x00, 0x0F, 0x42, 0x40] + []
  {
    HeadExamples();
    assert Uint(40) == [0x18, 0x28] by {
      NoBytes();
      LastByte(0, 40, 0);
    }
    SmallEid(1, 2);
    SmallEid(2, 1);
    SmallHead(ARRAY, 8);
    SmallHead(UINT, 7);
    SmallHead(ARRAY, 2);
    hide EidBytes, Head;
  }

  lemma PublishedPayload(data: seq<Byte>)
    requires |data| == 35
    ensures BlockBody(Block(PAYLOAD, 1, 0, 0, data)) == [0x85] + [1] + [1] + [0] + [0] + [0x58, 0x23] + data
  {
    assert Head(BYTE_STRING, 35) == [0x58, 0x23] by {
      NoBytes();
      LastByte(0, 35, 0);
    }
    SmallHead(ARRAY, 5);
    SmallHead(UINT, 1);
    SmallHead(UINT, 0);
    hide Head;
  }

  lemma PublishedIsEncodable(data: seq<Byte>)
    requires |data| == 35
    ensures Published(data).Blocks() == [Block(PAYLOAD, 1, 0, 0, data)]
    ensures Encodable(Published(data)) && Published(data).WellFormed()
  {
    assert HeadSize(40) == 2 && HeadSize(1_000_000) == 5;
    assert HeadSize(0) == 1 && HeadSize(1) == 1 && HeadSize(2) == 1 && HeadSize(7) == 1;
    hide HeadSize;
  }

  lemma OneBlock(b: Block, crc: Checksum)
    requires BlockFits(b) && b.crcType == 0
    ensures BlocksBytes([b], crc) == BlockBody(b)
  {
    hide BlockBody, BlockFits;
    assert [b][..0] == [];
    assert BlocksBytes([], crc) == [];
    assert BlockBytes(b, crc) == BlockBody(b);
  }

  /** The published bytes. */
  lemma PublishedBytes(data: seq<Byte>, crc: Checksum)
    requires |data| == 35
    ensures Encodable(Published(data)) && Published(data).WellFormed()
    ensures BundleBytes(Published(data), crc) ==
      [0x9F]
      + ([0x88] + [7] + [0] + [0] + [0x82, 2, 0x82, 1, 2] + [0x82, 2, 0x82, 2, 1] + [0x82, 2, 0x82, 2, 1]
         + [0x82] + [0] + [0x18, 0x28] + [0x1A, 0x00, 0x0F, 0x42, 0x40] + [])
      + ([0x85] + [1] + [1] + [0] + [0] + [0x58, 0x23] + data)
      + [0xFF]
  {
    var b := Published(data);
    hide PrimaryBody, BlockBody, BlocksBytes, Bundle.WellFormed, Bundle.Blocks, PrimaryFits, BlockFits;
    PublishedIsEncodable(data);
    OneBlock(b.payload, crc);
    PublishedPrimary(data);
    PublishedPayload(data);
    assert PrimaryBytes(b, crc) == PrimaryBody(b) + [];
    assert PrimaryBody(b) + [] == PrimaryBody(b);
  }

  lemma FragmentBody(b: Bundle)
    requires b.procFlags == 1 && b.crcType == CRC_16
    requires b.destination == IpnEid(1, 2) && b.source == IpnEid(3, 4) && b.reportTo == IpnEid(5, 6)
    requires b.creation == 7 && b.sequence == 8 && b.lifetime == 9 && b.offset == 10 && b.total == 11
    ensures PrimaryBody(b) == [0x8B] + [7] + [1] + [1] + [0x82, 2, 0x82, 1, 2] + [0x82, 2, 0x82, 3, 4]
      + [0x82, 2, 0x82, 5, 6] + [0x82] + [7] + [8] + [9] + ([10] + [11])
  {
    SmallEid(1, 2);
    SmallEid(3, 4);
    SmallEid(5, 6);
    SmallHead(ARRAY, 11);
    SmallHead(ARRAY, 2);
    assert Uint(7) == [7] && Uint(8) == [8] && Uint(9) == [9] && Uint(10) == [10] && Uint(11) == [11];
    assert Uint(1) == [1] && SentProcFlags(1) == 1;
    hide EidBytes, Head, SentProcFlags, Uint;
  }

  /** The primary block of a fragment with a CRC-16: every field in its place. */
  lemma FragmentPrimary(b: Bundle, crc: Checksum)
    requires b.procFlags == 1 && b.crcType == CRC_16
    requires b.destination == IpnEid(1, 2) && b.source == IpnEid(3, 4) && b.reportTo == IpnEid(5, 6)
    requires b.creation == 7 && b.sequence == 8 && b.lifetime == 9 && b.offset == 10 && b.total == 11
    ensures PrimaryFits(b)
    ensures var body := [0x8B] + [7] + [1] + [1] + [0x82, 2, 0x82, 1, 2] + [0x82, 2, 0x82, 3, 4]
        + [0x82, 2, 0x82, 5, 6] + [0x82] + [7] + [8] + [9] + ([10] + [11]);
      PrimaryBytes(b, crc) == body + ([0x42] + crc(body + [0x42] + [0, 0], 2))
  {
    FragmentBody(b);
    assert Zeros(2) == [0, 0];
    SmallHead(BYTE_STRING, 2);
    hide PrimaryBody, Head, Zeros;
  }
}
