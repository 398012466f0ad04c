/**
 BPv6 bundles, their dictionary and the sizes derived from it (section 4.4 of
 RFC 5050). A C string is a byte string without the byte zero.
 */
module Bundle6 {
  import opened Bytes
  import Sdnv

  const PAYLOAD_BLOCK_TYPE: Byte := 1

  datatype Block = Block(blockType: Byte, flags: nat, eidRefs: seq<seq<Byte>>, length: nat, data: seq<Byte>)

  datatype Bundle = Bundle(
    version: Byte, procFlags: nat,
    destination: Option<seq<Byte>>, source: Option<seq<Byte>>,
    reportTo: Option<seq<Byte>>, custodian: Option<seq<Byte>>,
    creationMs: nat, sequence: nat, lifetimeMs: nat,
    fragmentOffset: nat, totalAduLength: nat,
    primaryLength: nat, blocks: seq<Block>)
  {
    predicate IsFragment() {
      procFlags % 2 == 1
    }
  }

  predicate HasEidRefs(flags: nat) {
    flags / 0x40 % 2 == 1
  }

  predicate IsLastBlock(flags: nat) {
    flags / 0x08 % 2 == 1
  }

  /** The flags of RFC 5050: bits 0 to 5, 7, 8 and 14 to 18. */
  function MaskFlags(flags: nat): nat {
    flags % 0x40 + flags / 0x80 % 4 * 0x80 + flags / 0x4000 % 32 * 0x4000
  }

  lemma MaskParts(low: nat, mid: nat, high: nat)
    requires low < 0x40 && mid < 4 && high < 32
    ensures var m := low + mid * 0x80 + high * 0x4000;
      m % 0x40 == low && m / 0x80 % 4 == mid && m / 0x4000 == high && m < 0x8_0000 && m % 2 == low % 2
  {
    var m := low + mid * 0x80 + high * 0x4000;
    assert m == low + 0x40 * (2 * mid + 256 * high);
    assert m / 0x80 == mid + 128 * high;
    assert m / 0x4000 == high;
  }

  lemma LowBit(flags: nat)
    ensures flags % 0x40 % 2 == flags % 2
  {
    assert flags == 0x40 * (flags / 0x40) + flags % 0x40;
  }

  lemma MaskKeepsFragmentFlag(flags: nat)
    ensures MaskFlags(flags) % 2 == flags % 2
    ensures MaskFlags(flags) < 0x8_0000
    ensures MaskFlags(MaskFlags(flags)) == MaskFlags(flags)
  {
    MaskParts(flags % 0x40, flags / 0x80 % 4, flags / 0x4000 % 32);
    LowBit(flags);
  }

  // ---- Endpoint identifiers ----

  const COLON: Byte := 0x3A
  const DTN: seq<Byte> := [0x64, 0x74, 0x6E]
  const NONE: seq<Byte> := [0x6E, 0x6F, 0x6E, 0x65]

  predicate CString(s: seq<Byte>) {
    0 !in s
  }

  /** Position of the first `c` in `s`, or the length of `s`. */
  function Find(s: seq<Byte>, c: Byte): (k: nat)
    ensures k <= |s|
    ensures k < |s| ==> s[k] == c
    ensures c !in s[..k]
  {
    if s == [] then 0
    else if s[0] == c then 0
    else
      var k := Find(s[1..], c);
      assert s[..k + 1] == [s[0]] + s[1..][..k];
      k + 1
  }

  /** Scheme and scheme-specific part; anything without a colon stands for dtn:none. */
  function SplitEid(eid: Option<seq<Byte>>): (r: (seq<Byte>, seq<Byte>)) {
    match eid
    case None => (DTN, NONE)
    case Some(e) =>
      var k := Find(e, COLON);
      if k == |e| then (DTN, NONE) else (e[..k], e[k + 1..])
  }

  /** The identifier a receiver sees for `eid`. */
  function CanonicalEid(eid: Option<seq<Byte>>): seq<Byte> {
    var (scheme, ssp) := SplitEid(eid);
    scheme + [COLON] + ssp
  }

  /** An identifier with a colon reaches the receiver unchanged. */
  lemma CanonicalIsIdentity(e: seq<Byte>)
    requires COLON in e
    ensures CanonicalEid(Some(e)) == e
  {
    var k := Find(e, COLON);
    assert e[..|e|] == e;
    assert e[..k] + [COLON] + e[k + 1..] == e;
  }

  lemma SplitParts(eid: Option<seq<Byte>>)
    requires eid.Some? ==> CString(eid.value)
    ensures CString(SplitEid(eid).0) && CString(SplitEid(eid).1)
    ensures COLON !in SplitEid(eid).0
  {
  }

  // ---- Dictionary ----

  datatype EidInfo = EidInfo(eid: Option<seq<Byte>>, schemeOffset: nat, sspOffset: nat)

  datatype DictDescriptor = DictDescriptor(
    length: nat, destination: EidInfo, source: EidInfo, reportTo: EidInfo, custodian: EidInfo,
    references: seq<EidInfo>)

  /** Length of one entry: both parts with their terminators. */
  function EntryLength(eid: Option<seq<Byte>>): nat {
    |SplitEid(eid).0| + |SplitEid(eid).1| + 2
  }

  function EidInfoAt(eid: Option<seq<Byte>>, at: nat): EidInfo {
    EidInfo(eid, at, at + |SplitEid(eid).0| + 1)
  }

  /** The endpoint references of all blocks, in their order. */
  function AllRefs(blocks: seq<Block>): seq<seq<Byte>> {
    if blocks == [] then [] else AllRefs(blocks[..|blocks| - 1]) + blocks[|blocks| - 1].eidRefs
  }

  function RefsLength(refs: seq<seq<Byte>>): nat {
    if refs == [] then 0 else RefsLength(refs[..|refs| - 1]) + EntryLength(Some(refs[|refs| - 1]))
  }

  /** The entries of references, one behind the other from `at` on. */
  function RefInfos(refs: seq<seq<Byte>>, at: nat): (infos: seq<EidInfo>)
    ensures |infos| == |refs|
  {
    if refs == [] then []
    else
      var n := |refs| - 1;
      RefInfos(refs[..n], at) + [EidInfoAt(Some(refs[n]), at + RefsLength(refs[..n]))]
  }

  /** Length of the entries of the primary block's own identifiers. */
  function OwnLength(b: Bundle): nat {
    EntryLength(b.destination) + EntryLength(b.source) + EntryLength(b.reportTo) + EntryLength(b.custodian)
  }

  function DescriptorOf(b: Bundle): DictDescriptor {
    var at1 := EntryLength(b.destination);
    var at2 := at1 + EntryLength(b.source);
    var at3 := at2 + EntryLength(b.reportTo);
    var refs := AllRefs(b.blocks);
    DictDescriptor(OwnLength(b) + RefsLength(refs),
                   EidInfoAt(b.destination, 0), EidInfoAt(b.source, at1),
                   EidInfoAt(b.reportTo, at2), EidInfoAt(b.custodian, at3), RefInfos(refs, OwnLength(b)))
  }

  lemma RefsStep(refs: seq<seq<Byte>>, r: seq<Byte>, at: nat)
    ensures RefsLength(refs + [r]) == RefsLength(refs) + EntryLength(Some(r))
    ensures RefInfos(refs + [r], at) == RefInfos(refs, at) + [EidInfoAt(Some(r), at + RefsLength(refs))]
    ensures RefsBytes(refs + [r]) == RefsBytes(refs) + EntryBytes(Some(r))
  {
    hide EntryLength, EidInfoAt, EntryBytes;
    var all := refs + [r];
    assert all[..|all| - 1] == refs && all[|all| - 1] == r;
  }

  lemma AllRefsStep(blocks: seq<Block>, i: nat)
    requires i < |blocks|
    ensures AllRefs(blocks[..i + 1]) == AllRefs(blocks[..i]) + blocks[i].eidRefs
  {
    assert blocks[..i + 1][..i] == blocks[..i];
  }

  /** What lies in front of the `i`-th reference. */
  lemma {:induction false} RefAt(refs: seq<seq<Byte>>, at: nat, i: nat)
    requires i < |refs|
    ensures RefInfos(refs, at)[i] == EidInfoAt(Some(refs[i]), at + RefsLength(refs[..i]))
    ensures RefsLength(refs[..i + 1]) <= RefsLength(refs)
  {
    hide EntryLength, EidInfoAt;
    var n := |refs| - 1;
    if i == n {
      assert refs[..n + 1] == refs;
    } else {
      RefAt(refs[..n], at, i);
      assert refs[..n][..i] == refs[..i] && refs[..n][..i + 1] == refs[..i + 1];
    }
  }

  /** One endpoint: its offsets start at the running length, which then grows by the entry. */
  method CalculateEidInfo(eid: Option<seq<Byte>>, dictLength: nat) returns (info: EidInfo, dictLength': nat)
    ensures info == EidInfoAt(eid, dictLength)
    ensures dictLength' == dictLength + EntryLength(eid)
  {
    var (scheme, ssp) := SplitEid(eid);
    info := EidInfo(eid, dictLength, dictLength + |scheme| + 1);
    dictLength' := dictLength + |scheme| + |ssp| + 2;
  }

  /** The references of one block, behind those of the blocks in front. */
  method CalculateRefs(refs: seq<seq<Byte>>, ghost front: seq<seq<Byte>>, ghost own: nat,
                       infos: seq<EidInfo>, dictLength: nat)
    returns (infos': seq<EidInfo>, dictLength': nat)
    requires dictLength == own + RefsLength(front) && infos == RefInfos(front, own)
    ensures dictLength' == own + RefsLength(front + refs) && infos' == RefInfos(front + refs, own)
  {
    hide *;
    infos', dictLength' := infos, dictLength;
    assert front + refs[..0] == front;
    for j := 0 to |refs|
      invariant dictLength' == own + RefsLength(front + refs[..j])
      invariant infos' == RefInfos(front + refs[..j], own)
    {
      RefsStep(front + refs[..j], refs[j], own);
      assert front + refs[..j] + [refs[j]] == front + refs[..j + 1];
      var info;
      info, dictLength' := CalculateEidInfo(Some(refs[j]), dictLength');
      infos' := infos' + [info];
    }
    assert refs[..|refs|] == refs;
  }

  method CalculateDict(b: Bundle) returns (desc: DictDescriptor)
    ensures desc == DescriptorOf(b)
  {
    hide EntryLength, EidInfoAt;
    var length := 0;
    var destination, source, reportTo, custodian;
    destination, length := CalculateEidInfo(b.destination, length);
    source, length := CalculateEidInfo(b.source, length);
    reportTo, length := CalculateEidInfo(b.reportTo, length);
    custodian, length := CalculateEidInfo(b.custodian, length);
    var references: seq<EidInfo> := [];
    for i := 0 to |b.blocks|
      invariant length == OwnLength(b) + RefsLength(AllRefs(b.blocks[..i]))
      invariant references == RefInfos(AllRefs(b.blocks[..i]), OwnLength(b))
    {
      ghost var front := AllRefs(b.blocks[..i]);
      references, length := CalculateRefs(b.blocks[i].eidRefs, front, OwnLength(b), references, length);
      AllRefsStep(b.blocks, i);
    }
    assert b.blocks[..|b.blocks|] == b.blocks;
    desc := DictDescriptor(length, destination, source, reportTo, custodian, references);
  }

  /** Content of one entry. */
  function EntryBytes(eid: Option<seq<Byte>>): (bytes: seq<Byte>)
    ensures |bytes| == EntryLength(eid)
  {
    SplitEid(eid).0 + [0] + SplitEid(eid).1 + [0]
  }

  function RefsBytes(refs: seq<seq<Byte>>): (bytes: seq<Byte>)
    ensures |bytes| == RefsLength(refs)
  {
    if refs == [] then [] else RefsBytes(refs[..|refs| - 1]) + EntryBytes(Some(refs[|refs| - 1]))
  }

  function OwnBytes(b: Bundle): (bytes: seq<Byte>)
    ensures |bytes| == OwnLength(b)
  {
    EntryBytes(b.destination) + EntryBytes(b.source) + EntryBytes(b.reportTo) + EntryBytes(b.custodian)
  }

  function DictBytes(b: Bundle): (bytes: seq<Byte>)
    ensures |bytes| == DescriptorOf(b).length
  {
    OwnBytes(b) + RefsBytes(AllRefs(b.blocks))
  }

  /** Writes one part of an identifier and its terminator at `at`; gives the position behind it. */
  method WritePart(buf: array<Byte>, at: nat, part: seq<Byte>) returns (end: nat)
    requires at + |part| + 1 <= buf.Length
    modifies buf
    ensures end == at + |part| + 1
    ensures buf[at..end] == part + [0]
    ensures buf[..at] == old(buf[..at])
  {
    for i := 0 to |part|
      invariant buf[at..at + i] == part[..i]
      invariant buf[..at] == old(buf[..at])
    {
      buf[at + i] := part[i];
      assert buf[at..at + i + 1] == buf[at..at + i] + [part[i]];
    }
    end := at + |part| + 1;
    buf[end - 1] := 0;
    assert buf[at..end] == buf[at..end - 1] + [0];
  }

  method WriteEid(buf: array<Byte>, at: nat, info: EidInfo) returns (end: nat)
    requires at + EntryLength(info.eid) <= buf.Length
    modifies buf
    ensures end == at + EntryLength(info.eid)
    ensures buf[..end] == old(buf[..at]) + EntryBytes(info.eid)
  {
    var (scheme, ssp) := SplitEid(info.eid);
    var mid := WritePart(buf, at, scheme);
    assert buf[..mid] == buf[..at] + buf[at..mid];
    end := WritePart(buf, mid, ssp);
    assert buf[..end] == buf[..mid] + buf[mid..end];
    assert scheme + [0] + (ssp + [0]) == EntryBytes(info.eid);
  }

  /** The entries of the four identifiers of the primary block. */
  method WriteOwn(buf: array<Byte>, b: Bundle, desc: DictDescriptor) returns (at: nat)
    requires desc == DescriptorOf(b) && buf.Length == desc.length
    modifies buf
    ensures at == OwnLength(b) && buf[..at] == OwnBytes(b)
  {
    hide EntryBytes, SplitEid;
    at := WriteEid(buf, 0, desc.destination);
    assert buf[..at] == EntryBytes(b.destination);
    at := WriteEid(buf, at, desc.source);
    at := WriteEid(buf, at, desc.reportTo);
    at := WriteEid(buf, at, desc.custodian);
  }

  /** Fills the dictionary buffer through a moving position. */
  method SerializeDictionary(buf: array<Byte>, b: Bundle, desc: DictDescriptor)
    requires desc == DescriptorOf(b) && buf.Length == desc.length
    modifies buf
    ensures buf[..] == DictBytes(b)
  {
    hide *;
    DescriptorParts(b);
    var at := WriteOwn(buf, b, desc);
    DictParts(b);
    at := WriteRefs(buf, at, desc.references, AllRefs(b.blocks), OwnLength(b));
    assert buf[..at] == buf[..];
  }

  /** The entries of the references, behind what is in the buffer. */
  method WriteRefs(buf: array<Byte>, start: nat, infos: seq<EidInfo>, ghost refs: seq<seq<Byte>>, ghost own: nat)
    returns (at: nat)
    requires infos == RefInfos(refs, own) && start + RefsLength(refs) <= buf.Length
    modifies buf
    ensures at == start + RefsLength(refs)
    ensures buf[..at] == old(buf[..start]) + RefsBytes(refs)
  {
    hide *;
    ghost var front := buf[..start];
    NoRefs(refs);
    assert front + [] == front;
    at := start;
    for i := 0 to |infos|
      invariant at == start + RefsLength(refs[..i]) <= buf.Length
      invariant buf[..at] == front + RefsBytes(refs[..i])
    {
      NextRef(refs, own, i);
      at := WriteEid(buf, at, infos[i]);
      assert front + RefsBytes(refs[..i]) + EntryBytes(Some(refs[i])) == front + RefsBytes(refs[..i + 1]);
    }
    assert refs[..|refs|] == refs;
  }

  lemma NoRefs(refs: seq<seq<Byte>>)
    ensures RefsBytes(refs[..0]) == [] && RefsLength(refs[..0]) == 0
  {
  }

  lemma DictParts(b: Bundle)
    ensures DictBytes(b) == OwnBytes(b) + RefsBytes(AllRefs(b.blocks))
  {
  }

  /** One more entry of the references. */
  lemma NextRef(refs: seq<seq<Byte>>, at: nat, i: nat)
    requires i < |refs|
    ensures RefInfos(refs, at)[i].eid == Some(refs[i])
    ensures RefsLength(refs[..i + 1]) == RefsLength(refs[..i]) + EntryLength(Some(refs[i])) <= RefsLength(refs)
    ensures RefsBytes(refs[..i + 1]) == RefsBytes(refs[..i]) + EntryBytes(Some(refs[i]))
  {
    hide RefsLength, RefsBytes, EntryBytes, EntryLength;
    RefAt(refs, at, i);
    RefsStep(refs[..i], refs[i], at);
    assert refs[..i] + [refs[i]] == refs[..i + 1];
  }

  lemma DescriptorParts(b: Bundle)
    ensures var d := DescriptorOf(b); var refs := AllRefs(b.blocks);
      d.references == RefInfos(refs, OwnLength(b)) && d.length == OwnLength(b) + RefsLength(refs)
  {
  }

  // ---- Sizes ----

  function Size64(v: nat): nat {
    if v < Sdnv.Width.U64.Limit() then Sdnv.SizeOf(Sdnv.Width.U64, v) else 10
  }

  function InfoSize(info: EidInfo): nat {
    Size64(info.schemeOffset) + Size64(info.sspOffset)
  }

  function FragmentFieldsSize(b: Bundle): nat {
    if b.IsFragment() then Size64(b.fragmentOffset) + Size64(b.totalAduLength) else 0
  }

  /** The value of the primary block length field: everything behind that field. */
  function PrimaryLengthOf(b: Bundle): nat {
    var d := DescriptorOf(b);
    InfoSize(d.destination) + InfoSize(d.source) + InfoSize(d.reportTo) + InfoSize(d.custodian)
    + Size64(b.creationMs / 1000) + Size64(b.sequence) + Size64(b.lifetimeMs / 1000)
    + Size64(d.length) + d.length + FragmentFieldsSize(b)
  }
}
