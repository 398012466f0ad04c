/**
 The BPv6 wire format without its serializer (sections 4.2 to 4.5 of RFC 5050): which of the
 processing flags travel, bit by bit, and a bundle with every field, byte by byte.
 */
module Bundle6Wire {
  import opened Bytes
  import opened Bundle6
  import opened Bundle6Serializer
  import opened Bundle6Parser
  import opened Bundle6RoundTrip
  import Sdnv

  lemma PowersOfTwo()
    ensures Pow2(1) == 2 && Pow2(2) == 4 && Pow2(5) == 0x20 && Pow2(6) == 0x40 && Pow2(7) == 0x80
    ensures Pow2(14) == 0x4000
  {
    assert Pow2(3) == 8 && Pow2(4) == 16;
    assert Pow2(8) == 0x100 && Pow2(9) == 0x200 && Pow2(10) == 0x400 && Pow2(11) == 0x800 && Pow2(12) == 0x1000;
  }

  lemma HighBits(n: nat, low: nat, high: nat, from: nat, k: nat)
    requires low < Pow2(from) && n == low + Pow2(from) * high
    ensures Bit(high, k) <==> Bit(n, from + k)
  {
    hide Bit, Pow2;
    BitsJoin(low, high, from, from + k);
  }

  lemma LowBits(n: nat, low: nat, high: nat, size: nat, k: nat)
    requires low < Pow2(size) && n == low + Pow2(size) * high
    ensures Bit(low, k) <==> k < size && Bit(n, k)
  {
    hide Bit, Pow2;
    BitsJoin(low, high, size, k);
    if k >= size {
      BitAbove(low, size, k);
    }
  }

  lemma PartBits(flags: nat, k: nat)
    ensures Bit(flags % 0x40, k) <==> k < 6 && Bit(flags, k)
    ensures Bit(flags / 0x80 % 4, k) <==> k < 2 && Bit(flags, 7 + k)
    ensures Bit(flags / 0x4000 % 0x20, k) <==> k < 5 && Bit(flags, 14 + k)
  {
    PowersOfTwo();
    hide Bit, Pow2;
    LowBits(flags, flags % 0x40, flags / 0x40, 6, k);
    LowBits(flags / 0x80, flags / 0x80 % 4, flags / 0x80 / 4, 2, k);
    HighBits(flags, flags % 0x80, flags / 0x80, 7, k);
    LowBits(flags / 0x4000, flags / 0x4000 % 0x20, flags / 0x4000 / 0x20, 5, k);
    HighBits(flags, flags % 0x4000, flags / 0x4000, 14, k);
  }

  lemma PartsJoin(low: nat, mid: nat, high: nat, k: nat)
    requires low < 0x40 && mid < 0x80
    ensures Bit(low + 0x40 * (2 * (mid + 0x80 * high)), k) <==>
      if k < 6 then Bit(low, k) else if k == 6 then false else if k < 14 then Bit(mid, k - 7) else Bit(high, k - 14)
  {
    PowersOfTwo();
    hide Pow2;
    BitsJoin(low, 2 * (mid + 0x80 * high), 6, k);
    if k >= 7 {
      BitsJoin(mid, high, 7, k - 7);
    }
  }

  /**
   What is written of the flags has exactly these bits: fragment, administrative record, must
   not be fragmented, custody transfer requested, singleton endpoint and acknowledgement
   requested; the two priority bits; the reports of reception, custody acceptance, forwarding,
   delivery and deletion.
   */
  lemma MaskBits(flags: nat, k: nat)
    ensures Bit(MaskFlags(flags), k) <==> Bit(flags, k) && k in {0, 1, 2, 3, 4, 5, 7, 8, 14, 15, 16, 17, 18}
  {
    hide Bit;
    var low, mid, high := flags % 0x40, flags / 0x80 % 4, flags / 0x4000 % 0x20;
    assert MaskFlags(flags) == low + 0x40 * (2 * (mid + 0x80 * high));
    PartsJoin(low, mid, high, k);
    PartBits(flags, if k < 7 then k else if k < 14 then k - 7 else k - 14);
  }

  /** A bit of the flags arrives exactly if it was set and is one of those that travel; no other bit arrives. */
  lemma FlagsArriveExactly(b: Bundle, structSize: nat, rest: seq<Byte>, k: nat)
    requires Serializable(b) && LastFlagAtEnd(b.blocks) && HasPayload(b.blocks)
    requires RoomFor(structSize + DescriptorOf(b).length + 1, b.blocks)
    requires structSize + DescriptorOf(b).length + 1 <= BUNDLE_MAX_SIZE
    ensures Valid(Reset(structSize))
    ensures var sent := Feed(Reset(structSize), BundleBytes(b) + rest).0.sent;
      && sent.Some?
      && (Bit(sent.value.procFlags, k) <==>
        Bit(b.procFlags, k) && k in {0, 1, 2, 3, 4, 5, 7, 8, 14, 15, 16, 17, 18})
  {
    hide *;
    ResetIsReady(structSize);
    RoundTrip(b, structSize, rest);
    MaskBits(b.procFlags, k);
    ReceivedFlags(b);
  }

  lemma ReceivedFlags(b: Bundle)
    ensures Received(b).procFlags == MaskFlags(b.procFlags)
  {
    hide CanonicalEid, CameAll, CanonicalRefs, AllRefs, MaskFlags;
  }

  // ---- Identifiers in the dictionary ----

  /** `k` belongs to the string that begins at `at`: no zero comes up to it. */
  predicate InString(dict: seq<Byte>, at: nat, k: int) {
    at <= k < |dict| && forall j :: at <= j <= k ==> dict[j] != 0
  }

  ghost predicate NoColon(dict: seq<Byte>, at: nat) {
    forall k :: InString(dict, at, k) ==> dict[k] != 0x3A
  }

  /** The bytes from `at` to `m` are a string of the dictionary: it ends at a zero, or with the dictionary. */
  predicate IsString(dict: seq<Byte>, at: nat, m: nat) {
    at <= m <= |dict| && (m < |dict| ==> dict[m] == 0) && forall j :: at <= j < m ==> dict[j] != 0
  }

  /**
   An identifier is read exactly if both parts begin inside the dictionary and the scheme
   has no colon; its parts are the strings that begin there.
   */
  lemma EidReadExactly(dict: seq<Byte>, ref: Reference)
    ensures var r := ReadEid(dict, |dict|, ref);
      && (r.Some? <==> ref.scheme < |dict| && ref.ssp < |dict| && NoColon(dict, ref.scheme))
      && (r.Some? ==> exists m: nat, n: nat ::
            && IsString(dict, ref.scheme, m) && IsString(dict, ref.ssp, n)
            && r.value == dict[ref.scheme..m] + [0x3A] + dict[ref.ssp..n])
  {
    if ref.scheme < |dict| && ref.ssp < |dict| {
      var m := StringEnd(dict, ref.scheme);
      var n := StringEnd(dict, ref.ssp);
      ColonInString(dict, ref.scheme, m);
      hide CStringAt, NoColon;
    }
  }

  lemma ColonInString(dict: seq<Byte>, at: nat, m: nat)
    requires IsString(dict, at, m)
    ensures COLON !in dict[at..m] <==> NoColon(dict, at)
  {
    if COLON in dict[at..m] {
      var i :| 0 <= i < m - at && dict[at..m][i] == COLON;
      assert dict[at + i] == 0x3A && InString(dict, at, at + i);
    } else {
      forall k | InString(dict, at, k) ensures dict[k] != 0x3A {
        if k < m {
          assert dict[at..m][k - at] == dict[k];
        }
      }
    }
  }

  lemma {:induction false} FindIsFirst(s: seq<Byte>, c: Byte, i: nat)
    requires i < |s| && s[i] == c
    ensures Find(s, c) <= i
  {
    if i > 0 && s[0] != c {
      FindIsFirst(s[1..], c, i - 1);
    }
  }

  /** Where a string of the dictionary ends. */
  lemma StringEnd(dict: seq<Byte>, at: nat) returns (m: nat)
    requires at < |dict|
    ensures IsString(dict, at, m) && CStringAt(dict + [0], at) == dict[at..m]
  {
    var s := (dict + [0])[at..];
    var k := Find(s, 0);
    m := at + k;
    FindIsFirst(s, 0, |dict| - at);
    assert (dict + [0])[at..m] == s[..k] == dict[at..m];
    forall j | at <= j < m ensures dict[j] != 0 {
      assert s[..k][j - at] == dict[j];
    }
  }

  // ---- A bundle, byte by byte ----

  const REFERENCED: seq<Byte> := [0x67, 0x3A, 0x68]

  /** A fragment with a block that has a reference; no custodian; times with parts of seconds. */
  function Example(): Bundle {
    Bundle(6, 0x4011, Some([0x61, 0x3A, 0x62]), Some([0x63, 0x3A, 0x64]), Some([0x65, 0x3A, 0x66]), None,
           3_999, 4, 300_500, 5, 6, 40,
           [Block(8, 0x41, [REFERENCED], 1, [0xAA]), Block(1, 0x08, [], 2, [0xBB, 0xCC])])
  }

  lemma SmallNumber(n: nat)
    requires n < 0x80
    ensures Number(n) == [n] && Size64(n) == 1
  {
    assert Sdnv.Shift(n, 0) == n;
  }

  lemma ShortEid(scheme: Byte, ssp: Byte)
    requires scheme != COLON
    ensures SplitEid(Some([scheme, COLON, ssp])) == ([scheme], [ssp])
  {
    var e: seq<Byte> := [scheme, COLON, ssp];
    assert e[1..][0] == COLON;
    assert e[..1] == [scheme] && e[2..] == [ssp];
    assert Find(e[1..], COLON) == 0;
    assert Find(e, COLON) == 1;
  }

  lemma NoEid()
    ensures SplitEid(None) == ([0x64, 0x74, 0x6E], [0x6E, 0x6F, 0x6E, 0x65])
    ensures CanonicalEid(None) == [0x64, 0x74, 0x6E, 0x3A, 0x6E, 0x6F, 0x6E, 0x65]
  {
  }

  lemma ExampleRefs()
    ensures AllRefs(Example().blocks) == [REFERENCED]
  {
    var blocks := Example().blocks;
    assert blocks[..1][..0] == [];
    assert AllRefs(blocks[..0]) == [];
    AllRefsStep(blocks, 0);
    AllRefsStep(blocks, 1);
    assert blocks[..2] == blocks;
  }

  lemma ShortEntry(scheme: Byte, ssp: Byte, at: nat)
    requires scheme != COLON
    ensures var e := Some([scheme, COLON, ssp]);
      EntryLength(e) == 4 && EntryBytes(e) == [scheme, 0, ssp, 0] && EidInfoAt(e, at) == EidInfo(e, at, at + 2)
  {
    ShortEid(scheme, ssp);
  }

  lemma NoEntry(at: nat)
    ensures EntryLength(None) == 9 && EntryBytes(None) == [0x64, 0x74, 0x6E, 0, 0x6E, 0x6F, 0x6E, 0x65, 0]
    ensures EidInfoAt(None, at) == EidInfo(None, at, at + 4)
  {
    NoEid();
  }

  lemma OneReference(r: seq<Byte>, at: nat)
    ensures RefsLength([r]) == EntryLength(Some(r)) && RefsBytes([r]) == EntryBytes(Some(r))
    ensures RefInfos([r], at) == [EidInfoAt(Some(r), at)]
  {
    assert [r][..0] == [];
    RefsStep([], r, at);
    assert [] + [r] == [r];
  }

  lemma ExampleDictionary()
    ensures DescriptorOf(Example()) == DictDescriptor(
      25, EidInfo(Example().destination, 0, 2), EidInfo(Example().source, 4, 6), EidInfo(Example().reportTo, 8, 10),
      EidInfo(None, 12, 16), [EidInfo(Some(REFERENCED), 21, 23)])
    ensures DictBytes(Example()) == [0x61, 0, 0x62, 0] + [0x63, 0, 0x64, 0] + [0x65, 0, 0x66, 0]
      + [0x64, 0x74, 0x6E, 0, 0x6E, 0x6F, 0x6E, 0x65, 0] + [0x67, 0, 0x68, 0]
  {
    ExampleRefs();
    ShortEntry(0x61, 0x62, 0);
    ShortEntry(0x63, 0x64, 4);
    ShortEntry(0x65, 0x66, 8);
    NoEntry(12);
    ShortEntry(0x67, 0x68, 21);
    OneReference(REFERENCED, 21);
    hide EntryLength, EntryBytes, EidInfoAt, AllRefs, RefsLength, RefsBytes, RefInfos;
  }

  lemma LargeNumbers()
    ensures Number(0x4011) == [0x81, 0x80, 0x11]
    ensures Number(300) == [0x82, 0x2C] && Size64(300) == 2
  {
    assert Sdnv.Shift(300, 0) == 300 && Sdnv.Shift(0x4011, 0) == 0x4011;
    assert Sdnv.Shift(300, 1) == 2;
    assert Sdnv.Shift(0x4011, 1) == 0x80;
    assert Sdnv.Shift(0x4011, 2) == 1 by {
      assert Sdnv.Shift(0x80, 1) == 1;
    }
  }

  lemma ExampleBlocks()
    ensures BlocksBytes([EidInfo(Some(REFERENCED), 21, 23)], Example().blocks) ==
      [8, 0x41, 1, 21, 23, 1, 0xAA, 1, 0x08, 2, 0xBB, 0xCC]
  {
    var info := EidInfo(Some(REFERENCED), 21, 23);
    var blocks := Example().blocks;
    SmallNumber(1);
    SmallNumber(2);
    SmallNumber(0x08);
    SmallNumber(21);
    SmallNumber(23);
    SmallNumber(0x41);
    hide Number;
    assert [info][..1] == [info] && [info][1..] == [];
    assert InfosBytes([]) == [];
    assert InfosBytes([info]) == [21, 23];
    assert BlockBytes([info], blocks[0]) == [8, 0x41, 1, 21, 23, 1, 0xAA];
    assert BlockBytes([info], blocks[1]) == [1, 0x08, 2, 0xBB, 0xCC];
    assert blocks[1..][0] == blocks[1] && blocks[1..][1..] == [];
    assert BlocksBytes([info], []) == [];
    assert BlocksBytes([info], blocks[1..]) == [1, 0x08, 2, 0xBB, 0xCC];
  }

  lemma ExampleHead()
    ensures HeadBytes(Example()) == [6, 0x81, 0x80, 0x11, 40]
  {
    LargeNumbers();
    SmallNumber(40);
    hide Number;
    assert MaskFlags(0x4011) == 0x4011;
  }

  lemma ExampleReferences(d: DictDescriptor)
    requires d.destination.schemeOffset == 0 && d.destination.sspOffset == 2
    requires d.source.schemeOffset == 4 && d.source.sspOffset == 6
    requires d.reportTo.schemeOffset == 8 && d.reportTo.sspOffset == 10
    requires d.custodian.schemeOffset == 12 && d.custodian.sspOffset == 16
    ensures ReferenceBytes(d) == [0, 2, 4, 6, 8, 10, 12, 16]
  {
    SmallNumber(0);
    SmallNumber(2);
    SmallNumber(4);
    SmallNumber(6);
    SmallNumber(8);
    SmallNumber(10);
    SmallNumber(12);
    SmallNumber(16);
    hide Number;
  }

  lemma ExampleNumbers()
    ensures TimeBytes(Example()) == [3, 4, 0x82, 0x2C] && Number(25) == [25] && FragmentBytes(Example()) == [5, 6]
  {
    LargeNumbers();
    SmallNumber(3);
    SmallNumber(4);
    SmallNumber(5);
    SmallNumber(6);
    SmallNumber(25);
    hide Number;
  }

  lemma InOrder(b: Bundle)
    ensures BundleBytes(b) == HeadBytes(b) + ReferenceBytes(DescriptorOf(b)) + TimeBytes(b)
      + Number(DescriptorOf(b).length) + DictBytes(b) + FragmentBytes(b)
      + BlocksBytes(DescriptorOf(b).references, b.blocks)
  {
    hide DescriptorOf, HeadBytes, ReferenceBytes, TimeBytes, DictBytes, FragmentBytes, BlocksBytes, Number;
  }

  /** The whole example: field after field, as it is written. */
  lemma ExampleBytes()
    ensures BundleBytes(Example()) ==
      [6, 0x81, 0x80, 0x11, 40] + [0, 2, 4, 6, 8, 10, 12, 16] + [3, 4, 0x82, 0x2C] + [25]
      + ([0x61, 0, 0x62, 0] + [0x63, 0, 0x64, 0] + [0x65, 0, 0x66, 0]
         + [0x64, 0x74, 0x6E, 0, 0x6E, 0x6F, 0x6E, 0x65, 0] + [0x67, 0, 0x68, 0])
      + [5, 6] + [8, 0x41, 1, 21, 23, 1, 0xAA, 1, 0x08, 2, 0xBB, 0xCC]
  {
    hide *;
    ExampleDictionary();
    ExampleHead();
    ExampleReferences(DescriptorOf(Example()));
    ExampleNumbers();
    ExampleBlocks();
    InOrder(Example());
    ExampleHas();
  }

  lemma ExampleLength()
    ensures PrimaryLengthOf(Example()) == 40
  {
    ExampleDictionary();
    ExampleReferences(DescriptorOf(Example()));
    ExampleNumbers();
    PrimaryLengthIsExact(Example());
    hide DescriptorOf, DictBytes, ReferenceBytes, TimeBytes, FragmentBytes, Number, PrimaryLengthOf, Example;
  }

  lemma ExampleIsSerializable()
    ensures Serializable(Example())
  {
    ExampleLength();
    hide PrimaryLengthOf;
  }

  lemma ExampleHas()
    ensures Example().blocks == [Block(8, 0x41, [REFERENCED], 1, [0xAA]), Block(1, 0x08, [], 2, [0xBB, 0xCC])]
  {
  }

  // ---- What arrives of it ----

  /** Its times in full seconds, and `dtn:none` for the custodian. */
  function Arrived(): Bundle {
    Example().(custodian := Some([0x64, 0x74, 0x6E, 0x3A, 0x6E, 0x6F, 0x6E, 0x65]),
               creationMs := 3_000, lifetimeMs := 300_000)
  }

  lemma ExampleEids()
    ensures CanonicalEid(Example().destination) == [0x61, 0x3A, 0x62]
    ensures CanonicalEid(Example().source) == [0x63, 0x3A, 0x64]
    ensures CanonicalEid(Example().reportTo) == [0x65, 0x3A, 0x66]
    ensures CanonicalRefs([REFERENCED]) == [REFERENCED]
  {
    var b := Example();
    CanonicalIsIdentity(b.destination.value);
    CanonicalIsIdentity(b.source.value);
    CanonicalIsIdentity(b.reportTo.value);
    CanonicalIsIdentity(REFERENCED);
    hide CanonicalEid;
  }

  lemma ExampleCame()
    ensures CameAll(Example().blocks, [REFERENCED]) == Example().blocks
  {
    var blocks, eids := Example().blocks, [REFERENCED];
    assert eids[..1] == eids && eids[..0] == [];
    assert Came(blocks[0], eids) == blocks[0] && Came(blocks[1], eids) == blocks[1];
    assert blocks[1..] == [blocks[1]] && blocks[1..][1..] == [];
    assert CameAll([], eids) == [];
    assert CameAll([blocks[1]], eids) == [blocks[1]];
    assert [blocks[0]] + [blocks[1]] == blocks;
    hide Came;
  }

  lemma ExampleReceived()
    ensures Received(Example()) == Arrived()
  {
    ExampleRefs();
    ExampleEids();
    ExampleCame();
    NoEid();
    hide CanonicalEid, CanonicalRefs, AllRefs, CameAll;
    assert MaskFlags(0x4011) == 0x4011;
  }

  lemma ExampleHasRoom(structSize: nat)
    requires structSize + 26 <= BUNDLE_MAX_SIZE
    ensures RoomFor(structSize + 26, Example().blocks)
  {
    var blocks := Example().blocks;
    assert blocks[1..][0] == blocks[1] && blocks[1..][1..] == [];
    assert SizeBehind(structSize + 26, blocks[0]) == 2 && SizeBehind(2, blocks[1]) == 4;
  }

  lemma ExampleBlocksAreComplete()
    ensures LastFlagAtEnd(Example().blocks) && HasPayload(Example().blocks)
  {
    assert Example().blocks[1].blockType == PAYLOAD_BLOCK_TYPE;
  }

  lemma ExampleDictLength()
    ensures DescriptorOf(Example()).length == 25
  {
    hide DescriptorOf, DictBytes;
    ExampleDictionary();
  }

  /** The bytes of the example, read by the parser. */
  lemma ExampleArrives(structSize: nat, rest: seq<Byte>)
    requires structSize + 26 <= BUNDLE_MAX_SIZE
    ensures Valid(Reset(structSize))
    ensures var (p, left) := Feed(Reset(structSize), BundleBytes(Example()) + rest);
      p.sent == Some(Arrived()) && p.error == NoError && left == rest
  {
    hide *;
    ExampleBlocksAreComplete();
    ExampleDictLength();
    ResetIsReady(structSize);
    ExampleIsSerializable();
    ExampleHasRoom(structSize);
    ExampleReceived();
    RoundTrip(Example(), structSize, rest);
  }
}
