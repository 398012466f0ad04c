/**
 What a BPv6 bundle has lost when it arrives, and what it loses when it is sent on: its
 own fields nothing more, endpoint references of its blocks their order, or all.
 */
module Bundle6SecondTrip {
  import opened Bytes
  import opened Bundle6
  import opened Bundle6Serializer
  import opened Bundle6Parser
  import opened Bundle6RoundTrip

  // ---- Which blocks come back ----

  /**
   The blocks arrive as they were exactly if each block's references are, in reverse, the
   first of all the bundle's references, in the form in which a receiver reads them.
   */
  lemma BlocksComeBackExactly(b: Bundle)
    requires Serializable(b)
    ensures Received(b).blocks == b.blocks <==>
      forall i :: 0 <= i < |b.blocks| ==>
        var refs := b.blocks[i].eidRefs; refs == Reversed(Front(CanonicalRefs(AllRefs(b.blocks)), |refs|))
  {
    hide CanonicalRefs, AllRefs, Reversed, HasEidRefs;
    var eids := CanonicalRefs(AllRefs(b.blocks));
    BlocksAreValid(b);
    NothingReversed();
    forall i | 0 <= i < |b.blocks|
      ensures CameAll(b.blocks, eids)[i] == b.blocks[i] <==>
        b.blocks[i].eidRefs == Reversed(Front(eids, |b.blocks[i].eidRefs|))
    {
      CameAt(b.blocks, eids, i);
      assert ValidBlock(b.blocks[i]);
      assert Front(eids, 0) == [];
    }
  }

  lemma NothingReversed()
    ensures Reversed<seq<Byte>>([]) == []
  {
  }

  lemma TwoReversed(r: seq<Byte>, s: seq<Byte>)
    ensures Reversed([r]) == [r] && Reversed([r, s]) == [s, r]
    ensures Front([r, s], 2) == [r, s] && Front([r, s], 1) == [r]
  {
    assert [r, s][..1] == [r] && [r][..0] == [];
  }

  lemma TwoCanonical(r: seq<Byte>, s: seq<Byte>)
    requires COLON in r && COLON in s
    ensures CanonicalRefs([r, s]) == [r, s]
  {
    hide CanonicalEid;
    CanonicalIsIdentity(r);
    CanonicalIsIdentity(s);
  }

  /** Two references of one block arrive in the other order. */
  lemma ReferencesAreReversed(b: Bundle, block: Block, r: seq<Byte>, s: seq<Byte>)
    requires Serializable(b) && b.blocks == [block] && block.eidRefs == [r, s] && COLON in r && COLON in s
    ensures Received(b).blocks == [block.(eidRefs := [s, r])]
  {
    hide CanonicalRefs, Reversed, Front, ValidBlock, HasEidRefs;
    BlocksAreValid(b);
    FlaggedIfRefs(block);
    assert b.blocks[..0] == [] && AllRefs(b.blocks) == [] + [r, s] == [r, s];
    TwoCanonical(r, s);
    TwoReversed(r, s);
    assert CameRefs(block, [r, s]) == [s, r];
    assert CameAll([block], [r, s]) == [Came(block, [r, s])] + CameAll([], [r, s]);
  }

  lemma FlaggedIfRefs(block: Block)
    requires ValidBlock(block) && block.eidRefs != []
    ensures HasEidRefs(block.flags)
  {
  }

  lemma TwoBlocksRefs(x: Block, y: Block)
    ensures AllRefs([x, y]) == x.eidRefs + y.eidRefs
  {
    assert [x, y][..1] == [x] && [x][..0] == [];
    assert AllRefs([x]) == [] + x.eidRefs == x.eidRefs;
  }

  lemma TwoBlocksCome(x: Block, y: Block, eids: seq<seq<Byte>>)
    ensures CameAll([x, y], eids) == [Came(x, eids), Came(y, eids)]
  {
    hide Came;
    assert [x, y][1..] == [y] && [y][1..] == [];
    assert CameAll([y], eids) == [Came(y, eids)] + [];
  }

  /** A second block with a reference arrives with that of the first. */
  lemma LaterReferencesAreLost(b: Bundle, x: Block, y: Block, r: seq<Byte>, s: seq<Byte>)
    requires Serializable(b) && b.blocks == [x, y] && x.eidRefs == [r] && y.eidRefs == [s] && COLON in r && COLON in s
    ensures Received(b).blocks == [x, y.(eidRefs := [r])]
  {
    hide CanonicalRefs, AllRefs, CameAll, Reversed, Front, ValidBlock, HasEidRefs;
    BlocksAreValid(b);
    assert ValidBlock(b.blocks[0]) && ValidBlock(b.blocks[1]);
    FlaggedIfRefs(x);
    FlaggedIfRefs(y);
    TwoBlocksRefs(x, y);
    assert [r] + [s] == [r, s];
    TwoCanonical(r, s);
    TwoReversed(r, s);
    TwoBlocksCome(x, y, [r, s]);
    assert CameRefs(x, [r, s]) == [r] && CameRefs(y, [r, s]) == [r];
  }

  // ---- The second trip ----

  lemma SplitTwice(eid: Option<seq<Byte>>)
    requires ValidEid(eid)
    ensures SplitEid(Some(CanonicalEid(eid))) == SplitEid(eid)
    ensures ValidEid(Some(CanonicalEid(eid)))
  {
    SplitParts(eid);
    var (scheme, ssp) := SplitEid(eid);
    var e := scheme + [COLON] + ssp;
    FindIn(scheme, COLON, ssp);
    assert e[..|scheme|] == scheme && e[|scheme| + 1..] == ssp;
  }

  lemma SameEntry(eid: Option<seq<Byte>>, at: nat)
    requires ValidEid(eid)
    ensures var r := Some(CanonicalEid(eid));
      && EntryLength(r) == EntryLength(eid) && EntryBytes(r) == EntryBytes(eid)
      && InfoBytes(EidInfoAt(r, at)) == InfoBytes(EidInfoAt(eid, at))
      && InfoSize(EidInfoAt(r, at)) == InfoSize(EidInfoAt(eid, at))
  {
    SplitTwice(eid);
    hide SplitEid, CanonicalEid, Number, Size64;
  }

  /** Entries and offsets of the received bundle's dictionary are those of the bundle's. */
  lemma SameDictionary(b: Bundle)
    requires Serializable(b) && Received(b).blocks == b.blocks
    ensures var r, d, e := Received(b), DescriptorOf(b), DescriptorOf(Received(b));
      && DictBytes(r) == DictBytes(b) && e.length == d.length && e.references == d.references
      && ReferenceBytes(e) == ReferenceBytes(d)
      && InfoSize(e.destination) == InfoSize(d.destination) && InfoSize(e.source) == InfoSize(d.source)
      && InfoSize(e.reportTo) == InfoSize(d.reportTo) && InfoSize(e.custodian) == InfoSize(d.custodian)
  {
    hide EntryLength, EntryBytes, EidInfoAt, CanonicalEid, AllRefs, RefsBytes, RefInfos, RefsLength, InfoBytes,
         InfoSize, CameAll, CanonicalRefs, MaskFlags, Floor, ValidBlock, PrimaryLengthOf, ValidEid;
    var at1 := EntryLength(b.destination);
    var at2 := at1 + EntryLength(b.source);
    SameEntry(b.destination, 0);
    SameEntry(b.source, at1);
    SameEntry(b.reportTo, at2);
    SameEntry(b.custodian, at2 + EntryLength(b.reportTo));
  }

  lemma SameRest(b: Bundle)
    ensures var r := Received(b);
      && MaskFlags(r.procFlags) == MaskFlags(b.procFlags) && (r.IsFragment() <==> b.IsFragment())
      && TimeBytes(r) == TimeBytes(b) && FragmentBytes(r) == FragmentBytes(b)
      && r.creationMs / 1000 == b.creationMs / 1000 && r.lifetimeMs / 1000 == b.lifetimeMs / 1000
  {
    hide MaskFlags, CanonicalEid, CameAll, CanonicalRefs, AllRefs, Number;
    MaskKeepsFragmentFlag(b.procFlags);
    assert Floor(b.creationMs) / 1000 == b.creationMs / 1000 && Floor(b.lifetimeMs) / 1000 == b.lifetimeMs / 1000;
  }

  lemma SameSizes(b: Bundle)
    requires Serializable(b) && Received(b).blocks == b.blocks
    ensures PrimaryLengthOf(Received(b)) == PrimaryLengthOf(b)
  {
    SameDictionary(b);
    SameRest(b);
    hide DescriptorOf, Size64, MaskFlags, CanonicalEid, CameAll, CanonicalRefs, AllRefs, InfoSize;
  }

  /** What has arrived can be sent on as it is, in the same bytes. */
  lemma ReceivedIsSerializable(b: Bundle)
    requires Serializable(b) && Received(b).blocks == b.blocks
    ensures Serializable(Received(b)) && BundleBytes(Received(b)) == BundleBytes(b)
  {
    SameSizes(b);
    SameDictionary(b);
    SameRest(b);
    SplitTwice(b.destination);
    SplitTwice(b.source);
    SplitTwice(b.reportTo);
    SplitTwice(b.custodian);
    FloorsBelow(b);
    hide DescriptorOf, MaskFlags, CanonicalEid, CameAll, CanonicalRefs, AllRefs, DictBytes, ReferenceBytes, TimeBytes,
         FragmentBytes, Number, BlocksBytes, PrimaryLengthOf, ValidBlock, ValidEid;
  }

  lemma FloorsBelow(b: Bundle)
    ensures Floor(b.creationMs) <= b.creationMs && Floor(b.lifetimeMs) <= b.lifetimeMs
  {
  }

  /** A second trip changes nothing: what was received, sent on as it is, is received again as it is. */
  lemma ReceivedTwice(b: Bundle, structSize: nat, rest: seq<Byte>)
    requires Serializable(b) && LastFlagAtEnd(b.blocks) && Received(b).blocks == b.blocks
    requires RoomFor(structSize + DescriptorOf(b).length + 1, b.blocks)
    requires structSize + DescriptorOf(b).length + 1 <= BUNDLE_MAX_SIZE
    ensures Valid(Reset(structSize)) && Serializable(Received(b)) && Received(Received(b)) == Received(b)
    ensures var (p, left) := Feed(Reset(structSize), BundleBytes(Received(b)) + rest);
      && p.status == Done && p.error == NoError && left == rest
      && p.sent == if HasPayload(b.blocks) then Some(Received(b)) else None
  {
    hide *;
    ResetIsReady(structSize);
    ReceivedIsSerializable(b);
    ReceivedAgain(b);
    RoundTrip(b, structSize, rest);
  }

  lemma ReceivedAgain(b: Bundle)
    requires Serializable(b) && Received(b).blocks == b.blocks
    ensures Received(Received(b)) == Received(b)
  {
    SplitTwice(b.destination);
    SplitTwice(b.source);
    SplitTwice(b.reportTo);
    SplitTwice(b.custodian);
    SameRest(b);
    FloorTwice(b.creationMs);
    FloorTwice(b.lifetimeMs);
    MaskKeepsFragmentFlag(b.procFlags);
    hide MaskFlags, CameAll, CanonicalRefs, AllRefs, Floor, SplitEid;
  }
}
