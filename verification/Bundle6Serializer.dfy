/** Serialization of BPv6 bundles (sections 4.4 and 4.5 of RFC 5050). */
module Bundle6Serializer {
  import opened Bytes
  import opened Bundle6
  import Sdnv

  predicate ValidEid(eid: Option<seq<Byte>>) {
    eid.Some? ==> CString(eid.value)
  }

  predicate ValidBlock(block: Block) {
    && block.flags < 0x100 && block.length == |block.data| < U64_LIMIT
    && (block.eidRefs != [] ==> HasEidRefs(block.flags)) && forall r :: r in block.eidRefs ==> CString(r)
  }

  /**
   What the C types and the fields themselves demand: identifiers are C
   strings, numbers fit their types, the stored primary length is the
   recalculated one, and a block with endpoint references says so.
   */
  predicate Serializable(b: Bundle) {
    && ValidEid(b.destination) && ValidEid(b.source) && ValidEid(b.reportTo) && ValidEid(b.custodian)
    && b.creationMs < U64_LIMIT && b.sequence < U64_LIMIT && b.lifetimeMs < U64_LIMIT
    && b.fragmentOffset < U64_LIMIT && b.totalAduLength < U64_LIMIT
    && b.primaryLength == PrimaryLengthOf(b) < U16_LIMIT
    && forall i :: 0 <= i < |b.blocks| ==> ValidBlock(b.blocks[i])
  }

  // ---- What is written ----

  /** One number as an SDNV of least size. */
  function Number(v: nat): (bytes: seq<Byte>)
    ensures |bytes| == Size64(v)
  {
    Sdnv.Encode(v, Size64(v))
  }

  function InfoBytes(info: EidInfo): (bytes: seq<Byte>)
    ensures |bytes| == InfoSize(info)
  {
    Number(info.schemeOffset) + Number(info.sspOffset)
  }

  /** Version, flags and primary block length. */
  function HeadBytes(b: Bundle): seq<Byte> {
    [b.version] + Number(MaskFlags(b.procFlags)) + Number(b.primaryLength)
  }

  function ReferenceBytes(d: DictDescriptor): seq<Byte> {
    InfoBytes(d.destination) + InfoBytes(d.source) + InfoBytes(d.reportTo) + InfoBytes(d.custodian)
  }

  function TimeBytes(b: Bundle): seq<Byte> {
    Number(b.creationMs / 1000) + Number(b.sequence) + Number(b.lifetimeMs / 1000)
  }

  function FragmentBytes(b: Bundle): seq<Byte> {
    if b.IsFragment() then Number(b.fragmentOffset) + Number(b.totalAduLength) else []
  }

  /** The part of the primary block that its length field counts. */
  function CountedBytes(b: Bundle): seq<Byte> {
    var d := DescriptorOf(b);
    ReferenceBytes(d) + TimeBytes(b) + Number(d.length) + DictBytes(b) + FragmentBytes(b)
  }

  function Front<T>(s: seq<T>, n: nat): seq<T> {
    if n <= |s| then s[..n] else s
  }

  function InfosBytes(infos: seq<EidInfo>): seq<Byte> {
    if infos == [] then [] else InfoBytes(infos[0]) + InfosBytes(infos[1..])
  }

  /** For every block the references are taken from the start of the dictionary's list. */
  function RefPart(refs: seq<EidInfo>, block: Block): seq<Byte> {
    if HasEidRefs(block.flags) then Number(|block.eidRefs|) + InfosBytes(Front(refs, |block.eidRefs|)) else []
  }

  function BlockBytes(refs: seq<EidInfo>, block: Block): seq<Byte> {
    [block.blockType] + Number(block.flags) + RefPart(refs, block) + Number(block.length) + block.data
  }

  function BlocksBytes(refs: seq<EidInfo>, blocks: seq<Block>): seq<Byte> {
    if blocks == [] then [] else BlockBytes(refs, blocks[0]) + BlocksBytes(refs, blocks[1..])
  }

  function BundleBytes(b: Bundle): seq<Byte> {
    HeadBytes(b) + CountedBytes(b) + BlocksBytes(DescriptorOf(b).references, b.blocks)
  }

  /** The length field counts exactly the bytes behind it in the primary block. */
  lemma PrimaryLengthIsExact(b: Bundle)
    ensures |CountedBytes(b)| == PrimaryLengthOf(b)
  {
  }

  /** All offsets of the dictionary stay below its length. */
  lemma OffsetsInside(b: Bundle)
    requires Serializable(b)
    ensures var d := DescriptorOf(b);
            && d.length < U16_LIMIT
            && d.destination.schemeOffset < d.destination.sspOffset < d.source.schemeOffset
            && d.source.schemeOffset < d.source.sspOffset < d.reportTo.schemeOffset
            && d.reportTo.schemeOffset < d.reportTo.sspOffset < d.custodian.schemeOffset
            && d.custodian.schemeOffset < d.custodian.sspOffset < d.length
            && |d.references| < U16_LIMIT
            && forall i :: 0 <= i < |d.references| ==>
              d.custodian.sspOffset < d.references[i].schemeOffset < d.references[i].sspOffset < d.length
  {
    hide RefsLength, RefInfos, AllRefs;
    var d, refs := DescriptorOf(b), AllRefs(b.blocks);
    RefsAreFew(refs);
    forall i | 0 <= i < |d.references|
      ensures d.custodian.sspOffset < d.references[i].schemeOffset < d.references[i].sspOffset < d.length
    {
      RefAt(refs, OwnLength(b), i);
      RefsStep(refs[..i], refs[i], OwnLength(b));
      assert refs[..i] + [refs[i]] == refs[..i + 1];
    }
  }

  /** Every entry takes at least its two terminators. */
  lemma {:induction false} RefsAreFew(refs: seq<seq<Byte>>)
    ensures 2 * |refs| <= RefsLength(refs)
  {
    hide SplitEid;
    if refs != [] {
      RefsAreFew(refs[..|refs| - 1]);
    }
  }

  // ---- The writes ----

  function Joined(writes: seq<seq<Byte>>): seq<Byte> {
    if writes == [] then [] else Joined(writes[..|writes| - 1]) + writes[|writes| - 1]
  }

  lemma {:induction false} JoinedTogether(a: seq<seq<Byte>>, b: seq<seq<Byte>>)
    ensures Joined(a + b) == Joined(a) + Joined(b)
  {
    if b == [] {
      assert a + b == a;
    } else {
      var n := |b| - 1;
      assert (a + b)[..|a| + n] == a + b[..n];
      JoinedTogether(a, b[..n]);
    }
  }

  function InfoWrites(info: EidInfo): seq<seq<Byte>> {
    [Number(info.schemeOffset), Number(info.sspOffset)]
  }

  function ReferenceWrites(d: DictDescriptor): seq<seq<Byte>> {
    InfoWrites(d.destination) + InfoWrites(d.source) + InfoWrites(d.reportTo) + InfoWrites(d.custodian)
  }

  function HeadWrites(b: Bundle): seq<seq<Byte>> {
    [[b.version], Number(MaskFlags(b.procFlags)), Number(b.primaryLength)]
  }

  function TimeWrites(b: Bundle): seq<seq<Byte>> {
    [Number(b.creationMs / 1000), Number(b.sequence), Number(b.lifetimeMs / 1000)]
  }

  function FragmentWrites(b: Bundle): seq<seq<Byte>> {
    if b.IsFragment() then [Number(b.fragmentOffset), Number(b.totalAduLength)] else []
  }

  function PrimaryWrites(b: Bundle): seq<seq<Byte>> {
    var d := DescriptorOf(b);
    HeadWrites(b) + ReferenceWrites(d) + TimeWrites(b) + [Number(d.length)] + [DictBytes(b)] + FragmentWrites(b)
  }

  function InfosWrites(infos: seq<EidInfo>): seq<seq<Byte>> {
    if infos == [] then [] else InfosWrites(infos[..|infos| - 1]) + InfoWrites(infos[|infos| - 1])
  }

  function RefWrites(refs: seq<EidInfo>, block: Block): seq<seq<Byte>> {
    if HasEidRefs(block.flags) then [Number(|block.eidRefs|)] + InfosWrites(Front(refs, |block.eidRefs|)) else []
  }

  function BlockWrites(refs: seq<EidInfo>, block: Block): seq<seq<Byte>> {
    [[block.blockType], Number(block.flags)] + RefWrites(refs, block) + [Number(block.length), block.data]
  }

  function BlocksWrites(refs: seq<EidInfo>, blocks: seq<Block>): seq<seq<Byte>> {
    if blocks == [] then []
    else BlocksWrites(refs, blocks[..|blocks| - 1]) + BlockWrites(refs, blocks[|blocks| - 1])
  }

  /** One call of the write function for each field; a block takes four, and more for its references. */
  function BundleWrites(b: Bundle): seq<seq<Byte>> {
    PrimaryWrites(b) + BlocksWrites(DescriptorOf(b).references, b.blocks)
  }

  lemma JoinedTwo(a: seq<Byte>, b: seq<Byte>)
    ensures Joined([a]) == a && Joined([a, b]) == a + b
  {
    assert [a, b][..1] == [a] && [a][..0] == [];
  }

  lemma JoinedThree(a: seq<Byte>, b: seq<Byte>, c: seq<Byte>)
    ensures Joined([a, b, c]) == a + b + c
  {
    JoinedTwo(a, b);
    assert [a, b, c][..2] == [a, b];
  }

  lemma ReferencesJoined(d: DictDescriptor)
    ensures Joined(ReferenceWrites(d)) == ReferenceBytes(d)
  {
    hide Joined, Number;
    var w1, w2 := InfoWrites(d.destination), InfoWrites(d.source);
    var w3, w4 := InfoWrites(d.reportTo), InfoWrites(d.custodian);
    JoinedTwo(Number(d.destination.schemeOffset), Number(d.destination.sspOffset));
    JoinedTwo(Number(d.source.schemeOffset), Number(d.source.sspOffset));
    JoinedTwo(Number(d.reportTo.schemeOffset), Number(d.reportTo.sspOffset));
    JoinedTwo(Number(d.custodian.schemeOffset), Number(d.custodian.sspOffset));
    JoinedTogether(w1, w2);
    JoinedTogether(w1 + w2, w3);
    JoinedTogether(w1 + w2 + w3, w4);
  }

  lemma PrimaryJoined(b: Bundle)
    ensures Joined(PrimaryWrites(b)) == HeadBytes(b) + CountedBytes(b)
  {
    hide Joined, Number, DescriptorOf, ReferenceWrites, ReferenceBytes, DictBytes;
    var d := DescriptorOf(b);
    JoinedThree([b.version], Number(MaskFlags(b.procFlags)), Number(b.primaryLength));
    JoinedThree(Number(b.creationMs / 1000), Number(b.sequence), Number(b.lifetimeMs / 1000));
    JoinedTwo(Number(b.fragmentOffset), Number(b.totalAduLength));
    JoinedTwo(Number(d.length), []);
    JoinedTwo(DictBytes(b), []);
    NoneJoined();
    ReferencesJoined(d);
    var w := HeadWrites(b);
    JoinedTogether(w, ReferenceWrites(d));
    w := w + ReferenceWrites(d);
    JoinedTogether(w, TimeWrites(b));
    w := w + TimeWrites(b);
    JoinedTogether(w, [Number(d.length)]);
    w := w + [Number(d.length)];
    JoinedTogether(w, [DictBytes(b)]);
    w := w + [DictBytes(b)];
    JoinedTogether(w, FragmentWrites(b));
  }

  lemma NoneJoined()
    ensures Joined([]) == []
  {
  }

  lemma {:induction false} InfosBytesAppend(infos: seq<EidInfo>, info: EidInfo)
    ensures InfosBytes(infos + [info]) == InfosBytes(infos) + InfoBytes(info)
  {
    hide InfoBytes;
    if infos == [] {
      assert [info][1..] == [] && InfosBytes([info]) == InfoBytes(info) + InfosBytes([]);
    } else {
      assert (infos + [info])[1..] == infos[1..] + [info];
      InfosBytesAppend(infos[1..], info);
    }
  }

  lemma {:induction false} InfosJoined(infos: seq<EidInfo>)
    ensures Joined(InfosWrites(infos)) == InfosBytes(infos)
  {
    hide Joined, Number;
    NoneJoined();
    if infos != [] {
      var front, info := infos[..|infos| - 1], infos[|infos| - 1];
      InfosJoined(front);
      JoinedTwo(Number(info.schemeOffset), Number(info.sspOffset));
      JoinedTogether(InfosWrites(front), InfoWrites(info));
      InfosBytesAppend(front, info);
      assert infos == front + [info];
    }
  }

  lemma RefsJoined(refs: seq<EidInfo>, block: Block)
    ensures Joined(RefWrites(refs, block)) == RefPart(refs, block)
  {
    hide Joined, Number, InfosWrites, InfosBytes;
    NoneJoined();
    var infos := Front(refs, |block.eidRefs|);
    InfosJoined(infos);
    JoinedTwo(Number(|block.eidRefs|), []);
    JoinedTogether([Number(|block.eidRefs|)], InfosWrites(infos));
  }

  lemma BlockJoined(refs: seq<EidInfo>, block: Block)
    ensures Joined(BlockWrites(refs, block)) == BlockBytes(refs, block)
  {
    hide Joined, Number, RefWrites, RefPart;
    RefsJoined(refs, block);
    var head, tail := [[block.blockType], Number(block.flags)], [Number(block.length), block.data];
    JoinedTwo([block.blockType], Number(block.flags));
    JoinedTwo(Number(block.length), block.data);
    JoinedTogether(head, RefWrites(refs, block));
    JoinedTogether(head + RefWrites(refs, block), tail);
  }

  lemma {:induction false} BlocksJoined(refs: seq<EidInfo>, blocks: seq<Block>)
    ensures Joined(BlocksWrites(refs, blocks)) == BlocksBytes(refs, blocks)
  {
    hide BlockBytes, BlockWrites, Joined;
    NoneJoined();
    if blocks != [] {
      var front, block := blocks[..|blocks| - 1], blocks[|blocks| - 1];
      BlocksJoined(refs, front);
      BlockJoined(refs, block);
      JoinedTogether(BlocksWrites(refs, front), BlockWrites(refs, block));
      BlocksBytesAppend(refs, front, block);
      assert blocks == front + [block];
    }
  }

  /** All writes together are the bundle. */
  lemma WritesAreBytes(b: Bundle)
    ensures Joined(BundleWrites(b)) == BundleBytes(b)
  {
    hide Joined, PrimaryWrites, BlocksWrites, HeadBytes, CountedBytes, BlocksBytes, DescriptorOf;
    PrimaryJoined(b);
    BlocksJoined(DescriptorOf(b).references, b.blocks);
    JoinedTogether(PrimaryWrites(b), BlocksWrites(DescriptorOf(b).references, b.blocks));
  }

  lemma {:induction false} BlocksBytesAppend(refs: seq<EidInfo>, blocks: seq<Block>, block: Block)
    ensures BlocksBytes(refs, blocks + [block]) == BlocksBytes(refs, blocks) + BlockBytes(refs, block)
  {
    hide BlockBytes;
    if blocks == [] {
      assert BlocksBytes(refs, [block]) == BlockBytes(refs, block) + BlocksBytes(refs, []);
    } else {
      assert (blocks + [block])[1..] == blocks[1..] + [block];
      BlocksBytesAppend(refs, blocks[1..], block);
    }
  }

  // ---- Writing ----

  /** The output of the convergence layer: it takes a number of writes and refuses the rest. */
  class ByteSink {
    var data: seq<Byte>
    var budget: nat

    constructor (budget: nat)
      ensures data == [] && this.budget == budget
    {
      data := [];
      this.budget := budget;
    }

    method Write(bytes: seq<Byte>) returns (ok: bool)
      modifies this
      ensures ok == (old(budget) > 0)
      ensures data == if ok then old(data) + bytes else old(data)
      ensures budget == if ok then old(budget) - 1 else 0
    {
      ok := budget > 0;
      if ok {
        data := data + bytes;
        budget := budget - 1;
      }
    }
  }

  /** The sink at the start of a bundle. */
  datatype Before = Before(data: seq<Byte>, budget: nat)

  /** The state after these writes: all went out exactly if the sink took so many, and otherwise the first ones did. */
  ghost predicate Wrote(ok: bool, sink: ByteSink, start: Before, writes: seq<seq<Byte>>)
    reads sink
  {
    && (ok <==> |writes| <= start.budget)
    && sink.data == start.data + Joined(if ok then writes else writes[..start.budget])
    && sink.budget == if ok then start.budget - |writes| else 0
  }

  method WriteBytes(ok: bool, sink: ByteSink, bytes: seq<Byte>, ghost start: Before, ghost writes: seq<seq<Byte>>)
    returns (ok': bool)
    requires Wrote(ok, sink, start, writes)
    modifies sink
    ensures Wrote(ok', sink, start, writes + [bytes])
  {
    ok' := ok;
    ghost var all := writes + [bytes];
    assert all[..|writes|] == writes;
    if ok {
      ok' := sink.Write(bytes);
    } else {
      assert all[..start.budget] == writes[..start.budget];
    }
  }

  /** The value as the C function's parameter type cuts it off. */
  function Truncated(w: Sdnv.Width, value: nat): (r: nat)
    ensures r < w.Limit() && (value < w.Limit() ==> r == value)
  {
    value % w.Limit()
  }

  /** Writes a number through the reused buffer; values wider than the type are cut off. */
  method WriteNumber(ok: bool, sink: ByteSink, buffer: array<Byte>, w: Sdnv.Width, value: nat,
                     ghost start: Before, ghost writes: seq<seq<Byte>>)
    returns (ok': bool)
    requires buffer.Length == 10
    requires Wrote(ok, sink, start, writes)
    modifies sink, buffer
    ensures Truncated(w, value) < U64_LIMIT && Wrote(ok', sink, start, writes + [Number(Truncated(w, value))])
  {
    hide Truncated, Sdnv.Encode, Sdnv.SizeOf, Wrote;
    var v := Truncated(w, value);
    var n := Sdnv.Write(w, buffer, v);
    Sdnv.SizeSameForWidths(w, Sdnv.Width.U64, v);
    ok' := WriteBytes(ok, sink, buffer[..n], start, writes);
  }

  method WriteInfo(ok0: bool, sink: ByteSink, buffer: array<Byte>, info: EidInfo,
                   ghost start: Before, ghost writes: seq<seq<Byte>>)
    returns (ok: bool)
    requires buffer.Length == 10
    requires info.schemeOffset < U16_LIMIT && info.sspOffset < U16_LIMIT
    requires Wrote(ok0, sink, start, writes)
    modifies sink, buffer
    ensures Wrote(ok, sink, start, writes + InfoWrites(info))
  {
    hide Wrote, Number;
    ok := WriteNumber(ok0, sink, buffer, Sdnv.Width.U16, info.schemeOffset, start, writes);
    ghost var w := writes + [Number(info.schemeOffset)];
    ok := WriteNumber(ok, sink, buffer, Sdnv.Width.U16, info.sspOffset, start, w);
    assert w + [Number(info.sspOffset)] == writes + InfoWrites(info);
  }

  predicate InfosFit(d: DictDescriptor) {
    d.length < U16_LIMIT &&
    d.destination.schemeOffset < U16_LIMIT && d.destination.sspOffset < U16_LIMIT &&
    d.source.schemeOffset < U16_LIMIT && d.source.sspOffset < U16_LIMIT &&
    d.reportTo.schemeOffset < U16_LIMIT && d.reportTo.sspOffset < U16_LIMIT &&
    d.custodian.schemeOffset < U16_LIMIT && d.custodian.sspOffset < U16_LIMIT &&
    |d.references| < U16_LIMIT && InfosSmall(d.references)
  }

  predicate InfosSmall(infos: seq<EidInfo>) {
    forall i :: 0 <= i < |infos| ==> infos[i].schemeOffset < U16_LIMIT && infos[i].sspOffset < U16_LIMIT
  }

  /** The four pairs of dictionary offsets. */
  method WriteReferences(ok0: bool, sink: ByteSink, buffer: array<Byte>, d: DictDescriptor,
                         ghost start: Before, ghost writes: seq<seq<Byte>>)
    returns (ok: bool)
    requires buffer.Length == 10 && InfosFit(d)
    requires Wrote(ok0, sink, start, writes)
    modifies sink, buffer
    ensures Wrote(ok, sink, start, writes + ReferenceWrites(d))
  {
    hide InfoWrites, Wrote;
    ok := WriteInfo(ok0, sink, buffer, d.destination, start, writes);
    ghost var w := writes + InfoWrites(d.destination);
    ok := WriteInfo(ok, sink, buffer, d.source, start, w);
    w := w + InfoWrites(d.source);
    ok := WriteInfo(ok, sink, buffer, d.reportTo, start, w);
    w := w + InfoWrites(d.reportTo);
    ok := WriteInfo(ok, sink, buffer, d.custodian, start, w);
    assert w + InfoWrites(d.custodian) == writes + ReferenceWrites(d);
  }

  method WriteHead(sink: ByteSink, buffer: array<Byte>, b: Bundle, ghost start: Before)
    returns (ok: bool)
    requires buffer.Length == 10 && b.primaryLength < U16_LIMIT && start == Before(sink.data, sink.budget)
    modifies sink, buffer
    ensures Wrote(ok, sink, start, HeadWrites(b))
  {
    MaskKeepsFragmentFlag(b.procFlags);
    assert Wrote(true, sink, start, []);
    hide Wrote, Number, MaskFlags;
    ok := WriteBytes(true, sink, [b.version], start, []);
    ghost var w := [] + [[b.version]];
    ok := WriteNumber(ok, sink, buffer, Sdnv.Width.U32, MaskFlags(b.procFlags), start, w);
    w := w + [Number(MaskFlags(b.procFlags))];
    ok := WriteNumber(ok, sink, buffer, Sdnv.Width.U32, b.primaryLength, start, w);
    assert w + [Number(b.primaryLength)] == HeadWrites(b);
  }

  method WriteTimes(ok0: bool, sink: ByteSink, buffer: array<Byte>, b: Bundle,
                    ghost start: Before, ghost writes: seq<seq<Byte>>)
    returns (ok: bool)
    requires buffer.Length == 10
    requires b.creationMs < U64_LIMIT && b.sequence < U64_LIMIT && b.lifetimeMs < U64_LIMIT
    requires Wrote(ok0, sink, start, writes)
    modifies sink, buffer
    ensures Wrote(ok, sink, start, writes + TimeWrites(b))
  {
    hide Wrote, Number;
    ok := WriteNumber(ok0, sink, buffer, Sdnv.Width.U64, b.creationMs / 1000, start, writes);
    ghost var w := writes + [Number(b.creationMs / 1000)];
    ok := WriteNumber(ok, sink, buffer, Sdnv.Width.U64, b.sequence, start, w);
    w := w + [Number(b.sequence)];
    ok := WriteNumber(ok, sink, buffer, Sdnv.Width.U64, b.lifetimeMs / 1000, start, w);
    assert w + [Number(b.lifetimeMs / 1000)] == writes + TimeWrites(b);
  }

  method WriteFragmentFields(ok0: bool, sink: ByteSink, buffer: array<Byte>, b: Bundle,
                             ghost start: Before, ghost writes: seq<seq<Byte>>)
    returns (ok: bool)
    requires buffer.Length == 10
    requires b.fragmentOffset < U64_LIMIT && b.totalAduLength < U64_LIMIT
    requires Wrote(ok0, sink, start, writes)
    modifies sink, buffer
    ensures Wrote(ok, sink, start, writes + FragmentWrites(b))
  {
    hide Wrote, Number;
    ok := ok0;
    assert writes + [] == writes;
    if b.IsFragment() {
      ok := WriteNumber(ok, sink, buffer, Sdnv.Width.U64, b.fragmentOffset, start, writes);
      ghost var w := writes + [Number(b.fragmentOffset)];
      ok := WriteNumber(ok, sink, buffer, Sdnv.Width.U64, b.totalAduLength, start, w);
      assert w + [Number(b.totalAduLength)] == writes + FragmentWrites(b);
    }
  }

  predicate NumbersFit(b: Bundle) {
    b.primaryLength < U16_LIMIT && b.creationMs < U64_LIMIT && b.sequence < U64_LIMIT &&
    b.lifetimeMs < U64_LIMIT && b.fragmentOffset < U64_LIMIT && b.totalAduLength < U64_LIMIT
  }

  lemma SerializableFits(b: Bundle)
    requires Serializable(b)
    ensures NumbersFit(b) && InfosFit(DescriptorOf(b))
  {
    OffsetsInside(b);
  }

  method SerializedDictionary(b: Bundle, d: DictDescriptor) returns (bytes: seq<Byte>)
    requires d == DescriptorOf(b)
    ensures bytes == DictBytes(b)
  {
    var dict := new Byte[d.length];
    SerializeDictionary(dict, b, d);
    bytes := dict[..];
  }

  /** The primary block. */
  method WritePrimary(sink: ByteSink, buffer: array<Byte>, b: Bundle, d: DictDescriptor, ghost start: Before)
    returns (ok: bool)
    requires buffer.Length == 10 && NumbersFit(b) && d == DescriptorOf(b) && InfosFit(d)
    requires start == Before(sink.data, sink.budget)
    modifies sink, buffer
    ensures Wrote(ok, sink, start, PrimaryWrites(b))
  {
    hide Wrote, Number, ReferenceWrites, TimeWrites, FragmentWrites, HeadWrites, DescriptorOf, DictBytes;
    var dict := SerializedDictionary(b, d);
    ok := WriteHead(sink, buffer, b, start);
    ghost var w := HeadWrites(b);
    ok := WriteReferences(ok, sink, buffer, d, start, w);
    w := w + ReferenceWrites(d);
    ok := WriteTimes(ok, sink, buffer, b, start, w);
    w := w + TimeWrites(b);
    ok := WriteNumber(ok, sink, buffer, Sdnv.Width.U16, d.length, start, w);
    w := w + [Number(d.length)];
    ok := WriteBytes(ok, sink, dict, start, w);
    w := w + [dict];
    ok := WriteFragmentFields(ok, sink, buffer, b, start, w);
  }

  /** The count and the offsets of a block's references. */
  method WriteRefPart(ok0: bool, sink: ByteSink, buffer: array<Byte>, refs: seq<EidInfo>, block: Block,
                      ghost start: Before, ghost writes: seq<seq<Byte>>)
    returns (ok: bool)
    requires buffer.Length == 10 && |block.eidRefs| <= |refs| < U16_LIMIT && InfosSmall(refs)
    requires Wrote(ok0, sink, start, writes)
    modifies sink, buffer
    ensures Wrote(ok, sink, start, writes + RefWrites(refs, block))
  {
    hide Wrote, Number, InfoWrites, HasEidRefs, InfosWrites;
    ok := ok0;
    assert writes + [] == writes;
    if HasEidRefs(block.flags) {
      var count := |block.eidRefs|;
      ok := WriteNumber(ok, sink, buffer, Sdnv.Width.U16, count, start, writes);
      ghost var w := writes + [Number(count)];
      NoInfos();
      assert w + [] == w;
      for c := 0 to count
        invariant Wrote(ok, sink, start, w + InfosWrites(refs[..c]))
      {
        ok := WriteInfo(ok, sink, buffer, refs[c], start, w + InfosWrites(refs[..c]));
        NextInfo(refs, c);
        assert w + InfosWrites(refs[..c]) + InfoWrites(refs[c]) == w + InfosWrites(refs[..c + 1]);
      }
      assert w + InfosWrites(refs[..count]) == writes + RefWrites(refs, block);
    }
  }

  lemma NoInfos()
    ensures InfosWrites([]) == []
  {
  }

  lemma NextInfo(infos: seq<EidInfo>, c: nat)
    requires c < |infos|
    ensures InfosWrites(infos[..c + 1]) == InfosWrites(infos[..c]) + InfoWrites(infos[c])
  {
    assert infos[..c + 1][..c] == infos[..c];
  }

  /** One block; the references it writes are the first of the dictionary. */
  method WriteBlock(ok0: bool, sink: ByteSink, buffer: array<Byte>, refs: seq<EidInfo>, block: Block,
                    ghost start: Before, ghost writes: seq<seq<Byte>>)
    returns (ok: bool)
    requires buffer.Length == 10 && ValidBlock(block) && |block.eidRefs| <= |refs| < U16_LIMIT && InfosSmall(refs)
    requires Wrote(ok0, sink, start, writes)
    modifies sink, buffer
    ensures Wrote(ok, sink, start, writes + BlockWrites(refs, block))
  {
    hide Wrote, Number, RefWrites;
    ghost var w := writes;
    ok := WriteBytes(ok0, sink, [block.blockType], start, w);
    w := w + [[block.blockType]];
    ok := WriteNumber(ok, sink, buffer, Sdnv.Width.U32, block.flags, start, w);
    w := w + [Number(block.flags)];
    ok := WriteRefPart(ok, sink, buffer, refs, block, start, w);
    w := w + RefWrites(refs, block);
    ok := WriteNumber(ok, sink, buffer, Sdnv.Width.U64, block.length, start, w);
    w := w + [Number(block.length)];
    ok := WriteBytes(ok, sink, block.data, start, w);
    assert w + [block.data] == writes + BlockWrites(refs, block);
  }

  lemma {:induction false} RefsOfBlock(blocks: seq<Block>, i: nat)
    requires i < |blocks|
    ensures |blocks[i].eidRefs| <= |AllRefs(blocks)|
    ensures forall r :: r in blocks[i].eidRefs ==> r in AllRefs(blocks)
  {
    var n := |blocks| - 1;
    if i < n {
      RefsOfBlock(blocks[..n], i);
    }
  }

  lemma BlocksAreValid(b: Bundle)
    requires Serializable(b)
    ensures forall i :: 0 <= i < |b.blocks| ==> ValidBlock(b.blocks[i])
  {
  }

  /**
   Serialization succeeds exactly if the sink takes as many writes as the bundle needs; then
   the bundle has left, and otherwise as many first writes as were taken.
   */
  method Serialize(b: Bundle, sink: ByteSink) returns (ok: bool)
    requires Serializable(b)
    modifies sink
    ensures ok <==> |BundleWrites(b)| <= old(sink.budget)
    ensures sink.data == old(sink.data) +
      if ok then BundleBytes(b) else Joined(BundleWrites(b)[..old(sink.budget)])
    ensures sink.budget == if ok then old(sink.budget) - |BundleWrites(b)| else 0
  {
    hide Serializable, PrimaryWrites, BlockWrites, NumbersFit, InfosFit, DescriptorOf, ValidBlock, Wrote, AllRefs;
    ghost var start := Before(sink.data, sink.budget);
    var buffer := new Byte[10];
    SerializableFits(b);
    var d := CalculateDict(b);
    var refs := d.references;
    RefsFit(b);
    ok := WritePrimary(sink, buffer, b, d, start);
    ghost var w := PrimaryWrites(b);
    BlocksAreValid(b);
    assert w + BlocksWrites(refs, b.blocks[..0]) == w;
    var i := 0;
    while ok && i < |b.blocks|
      invariant 0 <= i <= |b.blocks|
      invariant Wrote(ok, sink, start, w + BlocksWrites(refs, b.blocks[..i]))
      decreases |b.blocks| - i
    {
      RefsOfBlock(b.blocks, i);
      ok := WriteBlock(ok, sink, buffer, refs, b.blocks[i], start, w + BlocksWrites(refs, b.blocks[..i]));
      assert b.blocks[..i + 1][..i] == b.blocks[..i];
      assert w + BlocksWrites(refs, b.blocks[..i]) + BlockWrites(refs, b.blocks[i])
          == w + BlocksWrites(refs, b.blocks[..i + 1]);
      i := i + 1;
    }
    BlocksPrefix(refs, b.blocks, i);
    assert b.blocks[..|b.blocks|] == b.blocks;
    WroteAll(ok, sink, start, w + BlocksWrites(refs, b.blocks[..i]), w + BlocksWrites(refs, b.blocks));
    WritesAreBytes(b);
  }

  lemma RefsFit(b: Bundle)
    requires InfosFit(DescriptorOf(b))
    ensures var refs := DescriptorOf(b).references;
      |refs| == |AllRefs(b.blocks)| < U16_LIMIT && InfosSmall(refs)
  {
  }

  /** Once a write was refused, nothing that would follow matters. */
  lemma WroteAll(ok: bool, sink: ByteSink, start: Before, part: seq<seq<Byte>>, all: seq<seq<Byte>>)
    requires Wrote(ok, sink, start, part) && part <= all && (ok ==> part == all)
    ensures ok <==> |all| <= start.budget
    ensures sink.data == start.data + Joined(if ok then all else all[..start.budget])
    ensures sink.budget == if ok then start.budget - |all| else 0
  {
    if !ok {
      assert part[..start.budget] == all[..start.budget];
    }
  }

  lemma {:induction false} BlocksPrefix(refs: seq<EidInfo>, blocks: seq<Block>, i: nat)
    requires i <= |blocks|
    ensures BlocksWrites(refs, blocks[..i]) <= BlocksWrites(refs, blocks)
    decreases |blocks| - i
  {
    hide BlockWrites;
    if i < |blocks| {
      BlocksPrefix(refs, blocks, i + 1);
      assert blocks[..i + 1][..i] == blocks[..i];
    } else {
      assert blocks[..i] == blocks;
    }
  }
}
