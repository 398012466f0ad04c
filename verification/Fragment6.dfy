/**
 Fragmentation of a BPv6 bundle (section 5.8 of RFC 5050): which blocks a fragment
 takes along, and which of them is marked as the last one.
 */
module Fragment6 {
  import opened Bytes
  import opened Bundle6
  import Bundle6RoundTrip
  import Bundle6Serializer

  predicate IsPayload(b: Block) {
    b.blockType == PAYLOAD_BLOCK_TYPE
  }

  predicate Replicated(b: Block) {
    b.flags % 2 == 1
  }

  /** Where a fragment lies in its ADU decides which blocks go with it. */
  datatype Place = Place(isFirst: bool, isLast: bool)

  predicate Taken(b: Block, behindPayload: bool, place: Place) {
    (place.isFirst && !behindPayload) || (place.isLast && behindPayload) || Replicated(b)
  }

  /** The blocks in their order, the payload block replaced by the fragment's own. */
  function Distribute(blocks: seq<Block>, behindPayload: bool, place: Place, payload: Block): seq<Block> {
    if blocks == [] then []
    else if IsPayload(blocks[0]) then [payload] + Distribute(blocks[1..], true, place, payload)
    else
      (if Taken(blocks[0], behindPayload, place) then [blocks[0]] else [])
      + Distribute(blocks[1..], behindPayload, place, payload)
  }

  function WithLastFlag(b: Block): Block {
    if IsLastBlock(b.flags) then b else b.(flags := b.flags + 8)
  }

  function MarkEnd(blocks: seq<Block>): seq<Block> {
    if blocks == [] then []
    else blocks[..|blocks| - 1] + [WithLastFlag(blocks[|blocks| - 1])]
  }

  /** The payload block of a bundle. */
  function PayloadOf(blocks: seq<Block>): Option<Block> {
    if blocks == [] then None
    else if IsPayload(blocks[0]) then Some(blocks[0])
    else PayloadOf(blocks[1..])
  }

  function AduLength(b: Bundle): nat {
    if b.IsFragment() then b.totalAduLength
    else if PayloadOf(b.blocks).Some? then |PayloadOf(b.blocks).value.data|
    else 0
  }

  function PlaceOf(b: Bundle, offset: nat, length: nat): Place {
    Place(b.fragmentOffset + offset == 0, AduLength(b) == b.fragmentOffset + offset + length)
  }

  /** A part of the payload, under the flags of the whole. */
  function PartOf(whole: Block, offset: nat, length: nat): (r: Block)
    requires offset + length <= |whole.data|
  {
    Block(PAYLOAD_BLOCK_TYPE, whole.flags, [], length, whole.data[offset..offset + length])
  }

  /** Refused: more than there is, all there is, or nothing. */
  function FragmentBlocks(b: Bundle, offset: nat, length: nat): Option<seq<Block>>
    requires PayloadOf(b.blocks).Some?
  {
    var whole := PayloadOf(b.blocks).value;
    if offset + length > |whole.data| then None
    else if offset == 0 && length >= |whole.data| then None
    else if length == 0 then None
    else Some(MarkEnd(Distribute(b.blocks, false, PlaceOf(b, offset, length), PartOf(whole, offset, length))))
  }

  /** The fragment: the header of the bundle with the place in the ADU, and its blocks. */
  function FragmentOf(b: Bundle, offset: nat, length: nat): Option<Bundle>
    requires PayloadOf(b.blocks).Some?
  {
    match FragmentBlocks(b, offset, length)
    case None => None
    case Some(blocks) => Some(WithHeader(b, offset, blocks))
  }

  function WithHeader(b: Bundle, offset: nat, blocks: seq<Block>): Bundle {
    var f := b.(procFlags := if b.IsFragment() then b.procFlags else b.procFlags + 1, totalAduLength := AduLength(b),
                fragmentOffset := b.fragmentOffset + offset, blocks := blocks);
    f.(primaryLength := PrimaryLengthOf(f))
  }

  // ---- The last-block flag ----

  predicate NoFlagBeforeEnd(blocks: seq<Block>) {
    forall i :: 0 <= i < |blocks| - 1 ==> !IsLastBlock(blocks[i].flags)
  }

  lemma {:induction false} DistributeKeepsEnd(blocks: seq<Block>, behind: bool, place: Place, payload: Block)
    requires NoFlagBeforeEnd(blocks)
    requires forall b :: b in blocks && IsPayload(b) ==> b.flags == payload.flags
    ensures NoFlagBeforeEnd(Distribute(blocks, behind, place, payload))
    ensures (exists b :: b in blocks && IsPayload(b)) ==> payload in Distribute(blocks, behind, place, payload)
  {
    if blocks != [] {
      var rest := blocks[1..];
      var seen := behind || IsPayload(blocks[0]);
      assert forall i :: 0 <= i < |rest| ==> rest[i] == blocks[i + 1];
      DistributeKeepsEnd(rest, seen, place, payload);
      var later := Distribute(rest, seen, place, payload);
      assert rest == [] ==> later == [];
      assert blocks == [blocks[0]] + rest;
    }
  }

  lemma LastFlagIsSet(b: Block)
    ensures IsLastBlock(WithLastFlag(b).flags) && WithLastFlag(b).blockType == b.blockType
  {
  }

  lemma MarkedEnd(blocks: seq<Block>)
    requires NoFlagBeforeEnd(blocks) && blocks != []
    ensures Bundle6RoundTrip.LastFlagAtEnd(MarkEnd(blocks))
  {
    LastFlagIsSet(blocks[|blocks| - 1]);
  }

  lemma {:induction false} PayloadIsIn(blocks: seq<Block>)
    requires PayloadOf(blocks).Some?
    ensures PayloadOf(blocks).value in blocks && IsPayload(PayloadOf(blocks).value)
  {
    if !IsPayload(blocks[0]) {
      PayloadIsIn(blocks[1..]);
    }
  }

  lemma PayloadStays(blocks: seq<Block>, payload: Block)
    requires payload in blocks && IsPayload(payload)
    ensures Bundle6RoundTrip.HasPayload(MarkEnd(blocks))
  {
    var i :| 0 <= i < |blocks| && blocks[i] == payload;
    LastFlagIsSet(blocks[|blocks| - 1]);
    assert MarkEnd(blocks)[i].blockType == PAYLOAD_BLOCK_TYPE;
  }

  predicate OnePayload(blocks: seq<Block>) {
    forall b :: b in blocks && IsPayload(b) ==> Some(b) == PayloadOf(blocks)
  }

  /** Every fragment of a well-formed bundle has a payload and exactly its last block marked as such. */
  lemma FragmentIsWellFormed(b: Bundle, offset: nat, length: nat)
    requires PayloadOf(b.blocks).Some? && OnePayload(b.blocks) && Bundle6RoundTrip.LastFlagAtEnd(b.blocks)
    requires FragmentBlocks(b, offset, length).Some?
    ensures Bundle6RoundTrip.LastFlagAtEnd(FragmentBlocks(b, offset, length).value)
    ensures Bundle6RoundTrip.HasPayload(FragmentBlocks(b, offset, length).value)
  {
    PayloadIsIn(b.blocks);
    var part := PartOf(PayloadOf(b.blocks).value, offset, length);
    var list := Distribute(b.blocks, false, PlaceOf(b, offset, length), part);
    DistributeKeepsEnd(b.blocks, false, PlaceOf(b, offset, length), part);
    MarkedEnd(list);
    PayloadStays(list, part);
  }

  // ---- What a fragment is made of ----

  function OnlyReplicated(blocks: seq<Block>): seq<Block> {
    if blocks == [] then []
    else (if blocks[0].flags % 2 == 1 then [blocks[0]] else []) + OnlyReplicated(blocks[1..])
  }

  lemma {:induction false} ReplicatedMembers(blocks: seq<Block>)
    ensures forall b :: b in OnlyReplicated(blocks) <==> b in blocks && b.flags % 2 == 1
  {
    if blocks != [] {
      ReplicatedMembers(blocks[1..]);
      assert blocks == [blocks[0]] + blocks[1..];
    }
  }

  /** The blocks of a bundle around its one payload block. */
  predicate Around(blocks: seq<Block>, front: seq<Block>, whole: Block, back: seq<Block>) {
    && blocks == front + [whole] + back && whole.blockType == 1
    && (forall b :: b in front ==> b.blockType != 1) && (forall b :: b in back ==> b.blockType != 1)
  }

  lemma {:induction false} DistributeBack(back: seq<Block>, place: Place, payload: Block)
    requires forall b :: b in back ==> b.blockType != 1
    ensures Distribute(back, true, place, payload) == if place.isLast then back else OnlyReplicated(back)
  {
    if back != [] {
      DistributeBack(back[1..], place, payload);
      assert back == [back[0]] + back[1..];
    }
  }

  lemma NoFront(whole: Block, back: seq<Block>, place: Place, payload: Block)
    requires whole.blockType == 1 && forall b :: b in back ==> b.blockType != 1
    ensures Distribute([whole] + back, false, place, payload) ==
      FrontTaken([], place) + [payload] + BackTaken(back, place)
    ensures PayloadOf([whole] + back) == Some(whole)
  {
    assert ([whole] + back)[1..] == back;
    DistributeBack(back, place, payload);
    assert FrontTaken([], place) + [payload] == [payload];
  }

  lemma {:induction false} DistributeAround(front: seq<Block>, whole: Block, back: seq<Block>, place: Place,
                                            payload: Block)
    requires Around(front + [whole] + back, front, whole, back)
    ensures Distribute(front + [whole] + back, false, place, payload) ==
      FrontTaken(front, place) + [payload] + BackTaken(back, place)
    ensures PayloadOf(front + [whole] + back) == Some(whole)
    decreases |front|
  {
    hide Distribute, OnlyReplicated, PayloadOf, Taken, FrontTaken;
    var all := front + [whole] + back;
    if front == [] {
      NoFront(whole, back, place, payload);
      assert all == [whole] + back;
    } else {
      assert all[0] == front[0] && front[0] in front;
      assert all[1..] == front[1..] + [whole] + back;
      DistributeAround(front[1..], whole, back, place, payload);
      DistributeFirst(all, place, payload);
      TakenFirst(front, place);
      Regroup(if Taken(front[0], false, place) then [front[0]] else [], FrontTaken(front[1..], place), [payload],
              BackTaken(back, place));
    }
  }

  lemma Regroup(a: seq<Block>, b: seq<Block>, c: seq<Block>, d: seq<Block>)
    ensures a + (b + c + d) == a + b + c + d
  {
  }

  /** Of the blocks in front of the payload, those that go with the fragment. */
  function FrontTaken(front: seq<Block>, place: Place): seq<Block> {
    if place.isFirst then front else OnlyReplicated(front)
  }

  /** Of the blocks behind it. */
  function BackTaken(back: seq<Block>, place: Place): seq<Block> {
    if place.isLast then back else OnlyReplicated(back)
  }

  lemma TakenFirst(front: seq<Block>, place: Place)
    requires front != []
    ensures FrontTaken(front, place) ==
      (if Taken(front[0], false, place) then [front[0]] else []) + FrontTaken(front[1..], place)
  {
  }

  lemma DistributeFirst(blocks: seq<Block>, place: Place, payload: Block)
    requires blocks != [] && blocks[0].blockType != 1
    ensures Distribute(blocks, false, place, payload) ==
      (if Taken(blocks[0], false, place) then [blocks[0]] else []) + Distribute(blocks[1..], false, place, payload)
    ensures PayloadOf(blocks) == PayloadOf(blocks[1..])
  {
  }

  /** Marking changes one bit of the last block and nothing else. */
  lemma MarkEndMeans(blocks: seq<Block>, k: nat)
    requires blocks != []
    ensures var r, n := MarkEnd(blocks), |blocks| - 1;
      && |r| == |blocks| && r[..n] == blocks[..n] && r[n] == blocks[n].(flags := r[n].flags)
      && (Bit(r[n].flags, k) <==> Bit(blocks[n].flags, k) || k == 3)
  {
    SetBit(blocks[|blocks| - 1].flags, k);
  }

  lemma SetBit(flags: nat, k: nat)
    ensures Bit(if IsLastBlock(flags) then flags else flags + 8, k) <==> Bit(flags, k) || k == 3
  {
    var low, high := flags % 8, flags / 8;
    assert Pow2(1) == 2 && Pow2(2) == 4 && Pow2(3) == 8;
    BitsJoin(low, high, 3, k);
    if !IsLastBlock(flags) {
      assert high % 2 == 0;
      assert flags + 8 == low + 8 * (high + 1);
      BitsJoin(low, high + 1, 3, k);
      if k > 3 {
        assert (high + 1) / 2 == high / 2;
      }
    } else {
      assert high % 2 == 1;
    }
  }

  /** A bundle that is no fragment begins its ADU, and a fragment lies inside. */
  predicate LiesInAdu(b: Bundle, whole: Block) {
    if b.procFlags % 2 == 0 then b.fragmentOffset == 0 else b.fragmentOffset + |whole.data| <= b.totalAduLength
  }

  /** The header of a fragment: that of the bundle, with its place in the ADU. */
  predicate KeepsHeader(b: Bundle, whole: Block, f: Bundle, offset: nat) {
    && f.procFlags % 2 == 1 && f.procFlags / 2 == b.procFlags / 2
    && f.fragmentOffset == b.fragmentOffset + offset
    && f.totalAduLength == (if b.procFlags % 2 == 1 then b.totalAduLength else |whole.data|)
    && f == b.(procFlags := f.procFlags, fragmentOffset := f.fragmentOffset, totalAduLength := f.totalAduLength,
               primaryLength := f.primaryLength, blocks := f.blocks)
  }

  /** A fragment of a bundle that can be serialized can be serialized, unless its header outgrows its length field. */
  lemma FragmentIsSerializable(b: Bundle, offset: nat, length: nat, front: seq<Block>, whole: Block, back: seq<Block>)
    requires Around(b.blocks, front, whole, back) && LiesInAdu(b, whole) && Bundle6Serializer.Serializable(b)
    requires 0 < length && offset + length <= |whole.data| && !(offset == 0 && length == |whole.data|)
    ensures PayloadOf(b.blocks) == Some(whole) && FragmentOf(b, offset, length).Some?
    ensures var f := FragmentOf(b, offset, length).value;
      && KeepsHeader(b, whole, f, offset)
      && (PrimaryLengthOf(f) < U16_LIMIT ==> Bundle6Serializer.Serializable(f))
  {
    hide PrimaryLengthOf, Distribute, Bundle6Serializer.ValidEid, CString, PayloadOf, MarkEnd;
    var place, part := PlaceOf(b, offset, length), PartOf(whole, offset, length);
    DistributeAround(front, whole, back, place, part);
    var list := Distribute(b.blocks, false, place, part);
    assert b.blocks[|front|] == whole;
    ReplicatedMembers(front);
    ReplicatedMembers(back);
    forall x | x in list ensures Bundle6Serializer.ValidBlock(x) {
      if x != part {
        assert x in b.blocks;
      }
    }
    MarkKeepsValid(list);
    SameParity(b);
    LengthIsOfRest(FragmentOf(b, offset, length).value, 0);
    LengthIsOfRest(FragmentOf(b, offset, length).value, b.primaryLength);
  }

  lemma LengthIsOfRest(f: Bundle, n: nat)
    ensures PrimaryLengthOf(f.(primaryLength := n)) == PrimaryLengthOf(f)
  {
  }

  lemma SameParity(b: Bundle)
    ensures !b.IsFragment() ==> (b.procFlags + 1) % 2 == 1 && (b.procFlags + 1) / 2 == b.procFlags / 2
  {
  }

  lemma MarkKeepsValid(list: seq<Block>)
    requires forall x :: x in list ==> Bundle6Serializer.ValidBlock(x)
    ensures forall x :: x in MarkEnd(list) ==> Bundle6Serializer.ValidBlock(x)
  {
    if list != [] {
      var last := list[|list| - 1];
      assert last in list;
      FlagStaysByte(last);
      hide Bundle6Serializer.ValidBlock, WithLastFlag;
    }
  }

  lemma FlagStaysByte(b: Block)
    requires Bundle6Serializer.ValidBlock(b)
    ensures Bundle6Serializer.ValidBlock(WithLastFlag(b))
  {
    assert !IsLastBlock(b.flags) ==> (b.flags + 8) / 0x40 == b.flags / 0x40;
  }

  // ---- All the fragments of a payload ----

  datatype Request = Request(offset: nat, length: nat)

  /** Non-empty parts one behind the other, up to `to`. */
  predicate Parts(cuts: seq<Request>, from: nat, to: nat) {
    if cuts == [] then from == to
    else cuts[0].offset == from && cuts[0].length > 0 && Parts(cuts[1..], from + cuts[0].length, to)
  }

  lemma {:induction false} PartLies(cuts: seq<Request>, from: nat, to: nat, i: nat)
    requires Parts(cuts, from, to) && i < |cuts|
    ensures from <= cuts[i].offset && cuts[i].length > 0 && cuts[i].offset + cuts[i].length <= to
    ensures cuts[i].offset == from <==> i == 0
    ensures cuts[i].offset + cuts[i].length == to <==> i == |cuts| - 1
  {
    PartsEnd(cuts[1..], from + cuts[0].length, to);
    if i > 0 {
      PartLies(cuts[1..], from + cuts[0].length, to, i - 1);
    }
  }

  lemma {:induction false} PartsEnd(cuts: seq<Request>, from: nat, to: nat)
    requires Parts(cuts, from, to)
    ensures from <= to && (from == to <==> cuts == [])
  {
    if cuts != [] {
      PartsEnd(cuts[1..], from + cuts[0].length, to);
    }
  }

  /** The end of a bundle's payload is the end of its ADU. */
  predicate EndsAdu(b: Bundle, whole: Block) {
    b.procFlags % 2 == 0 || b.fragmentOffset + |whole.data| == b.totalAduLength
  }

  /** The blocks of the `i`-th fragment, before its last one is marked. */
  function PartBlocks(b: Bundle, cuts: seq<Request>, i: nat, front: seq<Block>, whole: Block, back: seq<Block>)
    : seq<Block>
    requires i < |cuts| && cuts[i].offset + cuts[i].length <= |whole.data|
  {
    var from, length := cuts[i].offset, cuts[i].length;
    (if i == 0 && b.fragmentOffset == 0 then front else OnlyReplicated(front))
    + [Block(1, whole.flags, [], length, whole.data[from..from + length])]
    + (if i == |cuts| - 1 && EndsAdu(b, whole) then back else OnlyReplicated(back))
  }

  /**
   When a payload is cut up, every fragment has its part of the payload, and of the other
   blocks those to be replicated; those in front of the payload all come with the fragment
   at the front of the ADU, and those behind it with the one at its end.
   */
  lemma FragmentsExactly(b: Bundle, cuts: seq<Request>, i: nat, front: seq<Block>, whole: Block, back: seq<Block>)
    requires Around(b.blocks, front, whole, back) && LiesInAdu(b, whole)
    requires Parts(cuts, 0, |whole.data|) && |cuts| > 1 && i < |cuts|
    ensures PayloadOf(b.blocks) == Some(whole) && cuts[i].offset + cuts[i].length <= |whole.data|
    ensures FragmentBlocks(b, cuts[i].offset, cuts[i].length)
      == Some(MarkEnd(PartBlocks(b, cuts, i, front, whole, back)))
  {
    hide Distribute, MarkEnd, OnlyReplicated, PayloadOf;
    PartLies(cuts, 0, |whole.data|, i);
    var part := PartOf(whole, cuts[i].offset, cuts[i].length);
    DistributeAround(front, whole, back, PlaceOf(b, cuts[i].offset, cuts[i].length), part);
  }

  /**
   A block that need not be replicated is in the fragment at the front of the ADU if it
   stands in front of the payload, in the one at its end if behind, and in no other.
   */
  lemma BlocksTravelOnce(b: Bundle, cuts: seq<Request>, i: nat, front: seq<Block>, whole: Block, back: seq<Block>,
                         x: Block)
    requires Around(b.blocks, front, whole, back) && LiesInAdu(b, whole)
    requires Parts(cuts, 0, |whole.data|) && |cuts| > 1 && i < |cuts|
    requires Bundle6RoundTrip.LastFlagAtEnd(b.blocks) && x.blockType != 1 && x.flags % 2 == 0
    ensures PayloadOf(b.blocks).Some? && FragmentBlocks(b, cuts[i].offset, cuts[i].length).Some?
    ensures x in FragmentBlocks(b, cuts[i].offset, cuts[i].length).value <==>
      || (x in front && i == 0 && b.fragmentOffset == 0)
      || (x in back && i == |cuts| - 1 && EndsAdu(b, whole))
  {
    FragmentsExactly(b, cuts, i, front, whole, back);
    ReplicatedMembers(front);
    ReplicatedMembers(back);
    var list := PartBlocks(b, cuts, i, front, whole, back);
    assert x in list <==>
      (x in front && i == 0 && b.fragmentOffset == 0) || (x in back && i == |cuts| - 1 && EndsAdu(b, whole)) by {
      hide OnlyReplicated;
    }
    LastOfPart(b, cuts, i, front, whole, back);
    MarkKeeps(list, x);
  }

  /** The last block of a fragment is its payload, or replicated, or the last one of the bundle. */
  lemma LastOfPart(b: Bundle, cuts: seq<Request>, i: nat, front: seq<Block>, whole: Block, back: seq<Block>)
    requires Around(b.blocks, front, whole, back) && Bundle6RoundTrip.LastFlagAtEnd(b.blocks)
    requires i < |cuts| && cuts[i].offset + cuts[i].length <= |whole.data|
    ensures var list := PartBlocks(b, cuts, i, front, whole, back);
      list != [] && Ends(list[|list| - 1])
  {
    hide OnlyReplicated, IsLastBlock;
    var some := OnlyReplicated(back);
    ReplicatedMembers(back);
    if some != [] {
      assert some[|some| - 1] in some;
    }
    if back != [] {
      assert back[|back| - 1] == b.blocks[|b.blocks| - 1];
    }
  }

  predicate Ends(b: Block) {
    b.blockType == 1 || b.flags % 2 == 1 || IsLastBlock(b.flags)
  }

  lemma MarkKeeps(list: seq<Block>, x: Block)
    requires list != [] && Ends(list[|list| - 1]) && x.blockType != 1 && x.flags % 2 == 0
    ensures x in MarkEnd(list) <==> x in list
  {
    var n := |list| - 1;
    assert list == list[..n] + [list[n]];
  }

  /** Together, the fragments carry the payload. */
  function Carried(b: Bundle, cuts: seq<Request>): seq<Byte>
    requires PayloadOf(b.blocks).Some?
  {
    if cuts == [] then []
    else
      var f := FragmentBlocks(b, cuts[0].offset, cuts[0].length);
      (if f.Some? && PayloadOf(f.value).Some? then PayloadOf(f.value).value.data else []) + Carried(b, cuts[1..])
  }

  lemma {:induction false} PayloadBehind(front: seq<Block>, p: Block, back: seq<Block>)
    requires p.blockType == 1 && forall b :: b in front ==> b.blockType != 1
    ensures PayloadOf(front + [p] + back) == Some(p)
    decreases |front|
  {
    var all := front + [p] + back;
    if front != [] {
      assert all[0] == front[0] && front[0] in front;
      assert all[1..] == front[1..] + [p] + back;
      PayloadBehind(front[1..], p, back);
    }
  }

  /** The payload block of a marked list of blocks, up to its flags. */
  lemma PayloadOfMarked(front: seq<Block>, p: Block, back: seq<Block>)
    requires p.blockType == 1 && forall b :: b in front ==> b.blockType != 1
    ensures var r := PayloadOf(MarkEnd(front + [p] + back));
      r.Some? && r.value == p.(flags := r.value.flags) && (back != [] ==> r.value == p)
  {
    var all := front + [p] + back;
    if back == [] {
      assert MarkEnd(all) == front + [WithLastFlag(p)] + [];
      PayloadBehind(front, WithLastFlag(p), []);
    } else {
      var n := |back| - 1;
      assert MarkEnd(all) == front + [p] + (back[..n] + [WithLastFlag(back[n])]);
      PayloadBehind(front, p, back[..n] + [WithLastFlag(back[n])]);
    }
  }

  lemma {:induction false} CarriedFrom(b: Bundle, cuts: seq<Request>, i: nat, front: seq<Block>, whole: Block,
                                       back: seq<Block>)
    requires Around(b.blocks, front, whole, back) && LiesInAdu(b, whole)
    requires Parts(cuts, 0, |whole.data|) && |cuts| > 1 && i <= |cuts|
    ensures PayloadOf(b.blocks) == Some(whole)
    ensures var from := if i < |cuts| then cuts[i].offset else |whole.data|;
      from <= |whole.data| && Carried(b, cuts[i..]) == whole.data[from..]
    decreases |cuts| - i
  {
    hide MarkEnd, FragmentBlocks, PayloadOf, Around, LiesInAdu, Parts;
    FragmentsExactly(b, cuts, 0, front, whole, back);
    if i < |cuts| {
      var from, length := cuts[i].offset, cuts[i].length;
      CarriedFrom(b, cuts, i + 1, front, whole, back);
      PartCarries(b, cuts, i, front, whole, back);
      NextPart(cuts, 0, |whole.data|, i);
      CarriedStep(b, cuts, i, whole.data[from..from + length]);
      assert whole.data[from..] == whole.data[from..from + length] + whole.data[from + length..];
    } else {
      assert cuts[i..] == [];
    }
  }

  lemma PartCarries(b: Bundle, cuts: seq<Request>, i: nat, front: seq<Block>, whole: Block, back: seq<Block>)
    requires Around(b.blocks, front, whole, back) && LiesInAdu(b, whole)
    requires Parts(cuts, 0, |whole.data|) && |cuts| > 1 && i < |cuts|
    ensures PayloadOf(b.blocks) == Some(whole) && cuts[i].offset + cuts[i].length <= |whole.data|
    ensures var f := FragmentBlocks(b, cuts[i].offset, cuts[i].length);
      && f.Some? && PayloadOf(f.value).Some?
      && PayloadOf(f.value).value.data == whole.data[cuts[i].offset..cuts[i].offset + cuts[i].length]
  {
    hide MarkEnd, OnlyReplicated, FragmentBlocks, PayloadOf, Parts;
    FragmentsExactly(b, cuts, i, front, whole, back);
    ReplicatedMembers(front);
    var from, length := cuts[i].offset, cuts[i].length;
    var some := if i == 0 && b.fragmentOffset == 0 then front else OnlyReplicated(front);
    var rest := if i == |cuts| - 1 && EndsAdu(b, whole) then back else OnlyReplicated(back);
    PayloadOfMarked(some, Block(1, whole.flags, [], length, whole.data[from..from + length]), rest);
  }

  lemma CarriedStep(b: Bundle, cuts: seq<Request>, i: nat, data: seq<Byte>)
    requires i < |cuts| && PayloadOf(b.blocks).Some?
    requires FragmentBlocks(b, cuts[i].offset, cuts[i].length).Some?
    requires var p := PayloadOf(FragmentBlocks(b, cuts[i].offset, cuts[i].length).value);
      p.Some? && p.value.data == data
    ensures Carried(b, cuts[i..]) == data + Carried(b, cuts[i + 1..])
  {
    hide FragmentBlocks, PayloadOf;
    assert cuts[i..][0] == cuts[i] && cuts[i..][1..] == cuts[i + 1..];
  }

  lemma {:induction false} NextPart(cuts: seq<Request>, from: nat, to: nat, i: nat)
    requires Parts(cuts, from, to) && i < |cuts|
    ensures cuts[i].offset + cuts[i].length == if i + 1 < |cuts| then cuts[i + 1].offset else to
  {
    if i > 0 {
      NextPart(cuts[1..], from + cuts[0].length, to, i - 1);
    }
  }

  /** Cut anywhere into non-empty parts, the payload is carried whole, in order, by the fragments. */
  lemma FragmentsCarryAll(b: Bundle, cuts: seq<Request>, front: seq<Block>, whole: Block, back: seq<Block>)
    requires Around(b.blocks, front, whole, back) && LiesInAdu(b, whole)
    requires Parts(cuts, 0, |whole.data|) && |cuts| > 1
    ensures PayloadOf(b.blocks) == Some(whole) && Carried(b, cuts) == whole.data
  {
    CarriedFrom(b, cuts, 0, front, whole, back);
    assert cuts[0..] == cuts && cuts[0].offset == 0;
  }

  // ---- The code ----

  lemma NextBlock(blocks: seq<Block>, i: nat, behind: bool, place: Place, payload: Block, list: seq<Block>)
    requires i < |blocks|
    ensures var b := blocks[i];
      list + Distribute(blocks[i..], behind, place, payload) ==
      (if IsPayload(b) then list + [payload] else if Taken(b, behind, place) then list + [b] else list)
      + Distribute(blocks[i + 1..], behind || IsPayload(b), place, payload)
  {
    assert blocks[i..][0] == blocks[i] && blocks[i..][1..] == blocks[i + 1..];
  }

  method CopyBlocks(blocks: seq<Block>, place: Place, payload: Block) returns (list: seq<Block>)
    ensures list == Distribute(blocks, false, place, payload)
  {
    list := [];
    var payloadFound := false;
    assert blocks[0..] == blocks;
    assert list + Distribute(blocks, false, place, payload) == Distribute(blocks, false, place, payload);
    for i := 0 to |blocks|
      invariant Distribute(blocks, false, place, payload)
             == list + Distribute(blocks[i..], payloadFound, place, payload)
    {
      hide Distribute;
      NextBlock(blocks, i, payloadFound, place, payload, list);
      var block := blocks[i];
      if IsPayload(block) {
        payloadFound := true;
        list := list + [payload];
      } else if (place.isFirst && !payloadFound) || (place.isLast && payloadFound) || Replicated(block) {
        list := list + [block];
      }
    }
    assert list + [] == list;
  }

  method MakeFragment(b: Bundle, offset: nat, length: nat) returns (fragment: Option<Bundle>)
    requires PayloadOf(b.blocks).Some?
    ensures fragment == FragmentOf(b, offset, length)
  {
    hide Distribute, PayloadOf, WithHeader, PlaceOf, PartOf;
    var whole := PayloadOf(b.blocks).value;
    if offset + length > |whole.data| || (offset == 0 && length >= |whole.data|) || length == 0 {
      return None;
    }
    var list := CopyBlocks(b.blocks, PlaceOf(b, offset, length), PartOf(whole, offset, length));
    if list != [] {
      list := list[..|list| - 1] + [WithLastFlag(list[|list| - 1])];
    }
    var f := MakeHeader(b, offset, list);
    return Some(f);
  }

  method MakeHeader(b: Bundle, offset: nat, blocks: seq<Block>) returns (f: Bundle)
    ensures f == WithHeader(b, offset, blocks)
  {
    hide PrimaryLengthOf, AduLength;
    f := b.(totalAduLength := AduLength(b), fragmentOffset := b.fragmentOffset + offset, blocks := blocks);
    if !b.IsFragment() {
      f := f.(procFlags := f.procFlags + 1);
    }
    f := f.(primaryLength := PrimaryLengthOf(f));
  }
}
