/**
 The BPv6 parser: a stage machine that takes the input byte by byte, except for
 block data, which it asks its environment to read in bulk.
 */
module Bundle6Parser {
  import opened Bytes
  import opened Bundle6
  import Sdnv

  datatype Stage =
    | Version | ProcFlags | PrimaryLength
    | DestinationScheme | DestinationSsp | SourceScheme | SourceSsp
    | ReportScheme | ReportSsp | CustodianScheme | CustodianSsp
    | Timestamp | SequenceNum | Lifetime | DictLength | Dictionary
    | FragmentOffset | AduLength
    | BlockType | BlockFlags | EidRefCount | EidRefScheme | EidRefSsp
    | DataLength | BlockData | Finished

  datatype Part = Primary | Generic | Payload | Extension

  datatype Status = Good | Done | Failed

  datatype Error = NoError | LengthExhausted | SdnvFailure

  /** A pair of dictionary offsets, or of numbers when the dictionary is empty. */
  datatype Reference = Reference(scheme: nat, ssp: nat)

  /**
   `numbers` holds the variables that the number stages read into, by stage;
   variables not read yet are zero.
   */
  datatype Parser = Parser(
    status: Status, bulkRead: bool, nextBytes: nat, error: Error,
    stage: Stage, next: Stage, part: Part, sdnv: Sdnv.State,
    numbers: map<Stage, nat>, primaryRemaining: nat, dataRemaining: nat, index: nat, size: nat,
    version: Byte, dict: seq<Byte>, eids: Endpoints, blocks: seq<Block>, open: OpenBlock,
    sent: Option<Bundle>)

  datatype Endpoints = Endpoints(
    destination: Option<seq<Byte>>, source: Option<seq<Byte>>,
    reportTo: Option<seq<Byte>>, custodian: Option<seq<Byte>>)

  datatype OpenBlock = OpenBlock(blockType: Byte, eidRefs: seq<seq<Byte>>, data: seq<Byte>, last: bool)

  /** Bundles requiring more space are dropped for safety. */
  const BUNDLE_MAX_SIZE := 0x4000_0000

  /** The state after a reset; the start value of `size` is the size of the bundle structure. */
  function Reset(structSize: nat): Parser {
    Parser(Good, false, 0, NoError, Version, Version, Primary, Sdnv.RESET,
           map[], 0, 0, 0, structSize, 0, [], Endpoints(None, None, None, None), [],
           OpenBlock(0, [], [], false), None)
  }

  // ---- Stages that read one number ----

  predicate ReadsNumber(stage: Stage) {
    !stage.Version? && !stage.Dictionary? && !stage.BlockType? && !stage.BlockData? && !stage.Finished?
  }

  function WidthOf(stage: Stage): Sdnv.Width {
    match stage
    case ProcFlags => Sdnv.U32
    case PrimaryLength => Sdnv.U16
    case DictLength => Sdnv.U16
    case BlockFlags => Sdnv.U8
    case EidRefCount => Sdnv.U32
    case _ => Sdnv.U64
  }

  /** The variable of a number stage; the reference count is kept in the size counter. */
  function Get(p: Parser, stage: Stage): nat {
    if stage == EidRefCount then p.size
    else if stage in p.numbers then p.numbers[stage]
    else 0
  }

  function Set(p: Parser, stage: Stage, v: nat): Parser {
    if stage == EidRefCount then p.(size := v) else p.(numbers := p.numbers[stage := v])
  }

  function ReferenceAt(p: Parser, scheme: Stage, ssp: Stage): Reference {
    Reference(Get(p, scheme), Get(p, ssp))
  }

  /** The stage that follows a complete number. */
  function Successor(stage: Stage): Stage {
    match stage
    case ProcFlags => PrimaryLength
    case PrimaryLength => DestinationScheme
    case DestinationScheme => DestinationSsp
    case DestinationSsp => SourceScheme
    case SourceScheme => SourceSsp
    case SourceSsp => ReportScheme
    case ReportScheme => ReportSsp
    case ReportSsp => CustodianScheme
    case CustodianScheme => CustodianSsp
    case CustodianSsp => Timestamp
    case Timestamp => SequenceNum
    case SequenceNum => Lifetime
    case Lifetime => DictLength
    case DictLength => Dictionary
    case FragmentOffset => AduLength
    case AduLength => BlockType
    case BlockFlags => DataLength
    case EidRefCount => EidRefScheme
    case EidRefScheme => EidRefSsp
    case EidRefSsp => EidRefScheme
    case DataLength => BlockData
    case _ => stage
  }

  /** Stages from the first one behind the primary length field on. */
  predicate LengthKnown(stage: Stage) {
    !stage.Version? && !stage.ProcFlags? && !stage.PrimaryLength?
  }

  predicate BehindDictionary(stage: Stage) {
    stage.FragmentOffset? || stage.AduLength? || stage.BlockType? || stage.BlockFlags? || stage.EidRefCount? ||
    stage.EidRefScheme? || stage.EidRefSsp? || stage.DataLength? || stage.BlockData?
  }

  // ---- Endpoint identifiers ----

  /** The C string that starts at `at`. */
  function CStringAt(s: seq<Byte>, at: nat): seq<Byte>
    requires at <= |s|
  {
    s[at..at + Find(s[at..], 0)]
  }

  /** Reads an identifier from the zero-terminated dictionary. */
  function ReadEid(dict: seq<Byte>, length: nat, ref: Reference): (r: Option<seq<Byte>>)
    requires |dict| == length
  {
    if ref.scheme >= length || ref.ssp >= length then None
    else
      var terminated := dict + [0];
      var scheme := CStringAt(terminated, ref.scheme);
      var ssp := CStringAt(terminated, ref.ssp);
      if ref.scheme + |scheme| > length then None
      else if COLON in scheme then None
      else if ref.ssp + |ssp| > length then None
      else Some(scheme + [COLON] + ssp)
  }

  const IPN: seq<Byte> := [0x69, 0x70, 0x6E]
  const DOT: Byte := 0x2E

  function Decimal(n: nat): seq<Byte> {
    if n < 10 then [0x30 + n] else Decimal(n / 10) + [0x30 + n % 10]
  }

  /** An identifier whose two numbers stand in for dictionary offsets (section 2.2 of RFC 6260). */
  function CompressedEid(ref: Reference): seq<Byte> {
    if ref.scheme == 0 || ref.ssp == 0 then DTN + [COLON] + NONE
    else IPN + [COLON] + Decimal(ref.scheme) + [DOT] + Decimal(ref.ssp)
  }

  // ---- Entering a stage ----

  /** The bundle structure as filled so far. */
  function Assemble(p: Parser): Bundle {
    Bundle(p.version, Get(p, ProcFlags), p.eids.destination, p.eids.source, p.eids.reportTo, p.eids.custodian,
           Get(p, Timestamp), Get(p, SequenceNum), Get(p, Lifetime),
           Get(p, FragmentOffset), Get(p, AduLength), Get(p, PrimaryLength), p.blocks)
  }

  predicate IsFragment(p: Parser) {
    Get(p, ProcFlags) % 2 == 1
  }

  /** Hands the bundle over; one without a payload block is dropped. */
  function SendBundle(p: Parser): Parser {
    var hasPayload := exists i :: 0 <= i < |p.blocks| && p.blocks[i].blockType == PAYLOAD_BLOCK_TYPE;
    p.(status := Done, sent := if hasPayload then Some(Assemble(p)) else None)
  }

  function EnterDictionary(p: Parser): Parser {
    var length := Get(p, DictLength);
    if length == 0 then
      var eids := Endpoints(Some(CompressedEid(ReferenceAt(p, DestinationScheme, DestinationSsp))),
                            Some(CompressedEid(ReferenceAt(p, SourceScheme, SourceSsp))),
                            Some(CompressedEid(ReferenceAt(p, ReportScheme, ReportSsp))),
                            Some(CompressedEid(ReferenceAt(p, CustodianScheme, CustodianSsp))));
      var p := p.(index := 0, eids := eids);
      // The SDNV state is left as it is here.
      if IsFragment(p) then p.(next := FragmentOffset) else p.(next := BlockType, part := Generic)
    else
      var size := (p.size + length + 1) % U32_LIMIT;
      p.(index := 0, dataRemaining := length, size := size, dict := [],
         status := if size > BUNDLE_MAX_SIZE then Failed else p.status)
  }

  function EnterBlockData(p: Parser): Parser {
    var bytes := Get(p, DataLength);
    var size := (p.size + bytes) % U32_LIMIT;
    var p := p.(index := 0, dataRemaining := 0, nextBytes := bytes, size := size);
    if size > BUNDLE_MAX_SIZE then p.(status := Failed) else p.(bulkRead := true)
  }

  /** Seconds on the wire become milliseconds. */
  function ToMilliseconds(p: Parser, stage: Stage): Parser {
    Set(p, stage, Get(p, stage) * 1000 % U64_LIMIT)
  }

  /** What entering the next stage does, before it becomes the current one. */
  function Enter(p: Parser): Parser {
    match p.next
    case Version => p
    case Dictionary => EnterDictionary(p)
    case BlockType => p.(part := Generic)
    case BlockData => EnterBlockData(p)
    case Finished => p
    case DestinationScheme => p.(primaryRemaining := Get(p, PrimaryLength), sdnv := Sdnv.RESET)
    case SequenceNum => ToMilliseconds(p, Timestamp).(sdnv := Sdnv.RESET)
    case DictLength => ToMilliseconds(p, Lifetime).(sdnv := Sdnv.RESET)
    case _ => p.(sdnv := Sdnv.RESET)
  }

  function Advance(p: Parser): Parser {
    var entered := Enter(p);
    var p := entered.(stage := entered.next);
    if p.stage == Finished then SendBundle(p) else p
  }

  // ---- Reading a byte ----

  /** The dictionary has been read, or there is none. */
  predicate DictionaryKnown(p: Parser) {
    Get(p, DictLength) == 0 || |p.dict| == Get(p, DictLength)
  }

  /** What the parser relies on at every byte: room in the dictionary, and later all of it. */
  predicate Valid(p: Parser) {
    && p.stage == p.next
    && (p.stage == Dictionary ==> p.dataRemaining > 0 && |p.dict| + p.dataRemaining == Get(p, DictLength))
    && (BehindDictionary(p.stage) ==> DictionaryKnown(p))
    && (p.bulkRead ==> p.stage == BlockData)
  }

  /** Result of a number stage: wait, go on, or report the failure. */
  function WaitForSdnv(p: Parser, next: Stage): Parser {
    match p.sdnv.status
    case InProgress => p
    case Done => p.(next := next)
    case Failed => p.(status := Failed, error := SdnvFailure)
  }

  function ReadNumber(p: Parser, b: Byte): Parser
    requires ReadsNumber(p.stage) && (BehindDictionary(p.stage) ==> DictionaryKnown(p))
  {
    var (sdnv, v) := Sdnv.Read(WidthOf(p.stage), p.sdnv, Get(p, p.stage), b);
    var p' := WaitForSdnv(Set(p.(sdnv := sdnv), p.stage, v), Successor(p.stage));
    if sdnv.status == Sdnv.Done then FinishNumber(p') else p'
  }

  /** Further work of some stages once their number is complete. */
  function FinishNumber(p: Parser): Parser
    requires BehindDictionary(p.stage) ==> DictionaryKnown(p)
  {
    match p.stage
    case BlockFlags =>
      var flags := Get(p, BlockFlags);
      p.(open := p.open.(last := IsLastBlock(flags)), next := if HasEidRefs(flags) then EidRefCount else DataLength)
    case EidRefCount => p.(index := 0, next := if p.size == 0 then DataLength else EidRefScheme)
    case EidRefSsp => AddEidRef(p)
    case _ => p
  }

  /** A complete endpoint reference goes in front of the block's list. */
  function AddEidRef(p: Parser): Parser
    requires DictionaryKnown(p)
  {
    var length := Get(p, DictLength);
    var ref := ReferenceAt(p, EidRefScheme, EidRefSsp);
    var eid := if length == 0 then Some(CompressedEid(ref)) else ReadEid(p.dict, length, ref);
    var p := p.(index := (p.index + 1) % U32_LIMIT);
    match eid
    case None => p.(status := Failed)
    case Some(e) =>
      p.(open := p.open.(eidRefs := [e] + p.open.eidRefs), next := if p.index == p.size then DataLength else p.next)
  }

  function ReadDictionary(p: Parser, b: Byte): Parser
    requires p.dataRemaining > 0 && |p.dict| + p.dataRemaining == Get(p, DictLength)
  {
    var p := p.(dataRemaining := p.dataRemaining - 1, dict := p.dict + [b], index := p.index + 1);
    if p.dataRemaining != 0 then p
    else
      var length := Get(p, DictLength);
      var eids := Endpoints(ReadEid(p.dict, length, ReferenceAt(p, DestinationScheme, DestinationSsp)),
                            ReadEid(p.dict, length, ReferenceAt(p, SourceScheme, SourceSsp)),
                            ReadEid(p.dict, length, ReferenceAt(p, ReportScheme, ReportSsp)),
                            ReadEid(p.dict, length, ReferenceAt(p, CustodianScheme, CustodianSsp)));
      var p := p.(index := p.index + 1, eids := eids);
      if eids.destination == None || eids.source == None || eids.reportTo == None || eids.custodian == None then
        p.(status := Failed)
      else p.(next := if IsFragment(p) then FragmentOffset else BlockType)
  }

  function BeginBlock(p: Parser, blockType: Byte): Parser {
    p.(next := BlockFlags, part := if blockType == PAYLOAD_BLOCK_TYPE then Payload else Extension,
       open := OpenBlock(blockType, [], [], p.open.last))
  }

  function EndBlock(p: Parser): Parser {
    var block := Block(p.open.blockType, Get(p, BlockFlags), p.open.eidRefs, Get(p, DataLength), p.open.data);
    p.(blocks := p.blocks + [block],
       next := if p.open.last then Finished else BlockType)
  }

  /** The stage's own work on one byte. */
  function ReadInStage(p: Parser, b: Byte): Parser
    requires Valid(p)
  {
    if ReadsNumber(p.stage) then ReadNumber(p, b)
    else
      match p.stage
      case Version => p.(version := b, next := ProcFlags)
      case Dictionary => ReadDictionary(p, b)
      case BlockType => BeginBlock(p, b)
      case BlockData => if p.dataRemaining != 0 then p.(status := Failed) else EndBlock(p)
      case _ => p.(status := Failed)
  }

  function CountPrimary(p: Parser): Parser {
    if p.part == Primary && p.primaryRemaining != 0 then p.(primaryRemaining := p.primaryRemaining - 1) else p
  }

  /** Inside the primary block every byte is counted; none may follow the last counted one. */
  function ReadByte(p: Parser, b: Byte): Parser
    requires Valid(p)
  {
    if p.part == Primary && LengthKnown(p.stage) && p.primaryRemaining == 0 then
      p.(status := Failed, error := LengthExhausted)
    else
      var p' := ReadInStage(CountPrimary(p), b);
      if p'.stage != p'.next && p'.status != Failed then Advance(p') else p'
  }

  // ---- The size limit ----

  /**
   The length of a block is added to the 32-bit size counter before the counter is checked.
   If the sum of the two exceeds the limit, the block passes exactly if the sum wraps
   around to within it. The counter is the size of the bundle only until a block has a
   reference count, which is read into it.
   */
  lemma BlockPassesLimitExactly(p: Parser)
    requires p.status == Good && p.size <= BUNDLE_MAX_SIZE
    ensures var q := EnterBlockData(p); var sum := p.size + Get(p, DataLength);
      && q.nextBytes == Get(p, DataLength)
      && (q.status == Good && sum > BUNDLE_MAX_SIZE <==>
            exists k :: k > 0 && U32_LIMIT * k <= sum <= U32_LIMIT * k + BUNDLE_MAX_SIZE)
      && (q.status == Good && sum < U32_LIMIT ==> q.size == sum <= BUNDLE_MAX_SIZE)
  {
    var sum := p.size + Get(p, DataLength);
    var k := sum / U32_LIMIT;
    assert sum == U32_LIMIT * k + sum % U32_LIMIT;
    if EnterBlockData(p).status == Good && sum > BUNDLE_MAX_SIZE {
      assert k > 0 && U32_LIMIT * k <= sum <= U32_LIMIT * k + BUNDLE_MAX_SIZE;
    }
    if j :| j > 0 && U32_LIMIT * j <= sum <= U32_LIMIT * j + BUNDLE_MAX_SIZE {
      assert sum - U32_LIMIT * j < U32_LIMIT;
      assert j == k;
    }
  }

  // ---- Valid states are kept ----

  /** What the next stage of `p` needs is there. */
  predicate CanEnter(p: Parser) {
    !p.bulkRead && (BehindDictionary(p.next) ==> DictionaryKnown(p))
  }

  lemma FinishNumberCanEnter(p: Parser)
    requires ReadsNumber(p.stage) && p.next == Successor(p.stage) && !p.bulkRead
    requires BehindDictionary(p.stage) ==> DictionaryKnown(p)
    ensures var q := FinishNumber(p);
            q.stage == p.stage && (q.status != Failed ==> CanEnter(q) && q.stage != q.next)
  {
  }

  lemma ReadNumberCanEnter(p: Parser, b: Byte)
    requires Valid(p) && !p.bulkRead && ReadsNumber(p.stage)
    ensures var q := ReadNumber(p, b);
            && q.stage == p.stage
            && (q.status != Failed ==> CanEnter(q) && (q.stage == q.next ==> Valid(q)))
  {
    hide FinishNumber, Sdnv.Read;
    var (sdnv, v) := Sdnv.Read(WidthOf(p.stage), p.sdnv, Get(p, p.stage), b);
    var p' := WaitForSdnv(Set(p.(sdnv := sdnv), p.stage, v), Successor(p.stage));
    if sdnv.status == Sdnv.Done {
      FinishNumberCanEnter(p');
    }
  }

  lemma ReadInStageCanEnter(p: Parser, b: Byte)
    requires Valid(p) && !p.bulkRead
    ensures var q := ReadInStage(p, b);
            && q.stage == p.stage
            && (q.status != Failed ==> CanEnter(q) && (q.stage == q.next ==> Valid(q)))
  {
    hide ReadNumber, ReadDictionary, BeginBlock, EndBlock;
    if ReadsNumber(p.stage) {
      ReadNumberCanEnter(p, b);
    } else if p.stage == Dictionary {
      ReadDictionaryCanEnter(p, b);
    } else {
      BlockStagesCanEnter(p, b);
    }
  }

  lemma ReadDictionaryCanEnter(p: Parser, b: Byte)
    requires Valid(p) && !p.bulkRead && p.stage == Dictionary
    ensures var q := ReadDictionary(p, b);
            && q.stage == p.stage
            && (q.status != Failed ==> CanEnter(q) && (q.stage == q.next ==> Valid(q)))
  {
    hide ReadEid, ReferenceAt;
  }

  lemma BlockStagesCanEnter(p: Parser, b: Byte)
    requires Valid(p) && !p.bulkRead && !ReadsNumber(p.stage) && p.stage != Dictionary
    ensures var q := ReadInStage(p, b);
            && q.stage == p.stage
            && (q.status != Failed ==> CanEnter(q) && (q.stage == q.next ==> Valid(q)))
  {
  }

  lemma EnterDictionaryIsValid(p: Parser)
    requires CanEnter(p) && p.next == Dictionary
    ensures var q := EnterDictionary(p);
            !q.bulkRead && (q.status == Good ==> Valid(q.(stage := q.next)))
  {
    hide CompressedEid;
  }

  /** Entering a stage establishes what the stage relies on. */
  lemma AdvanceIsValid(p: Parser)
    requires CanEnter(p)
    ensures Advance(p).status == Good ==> Valid(Advance(p))
  {
    hide EnterDictionary, Assemble;
    if p.next == Dictionary {
      EnterDictionaryIsValid(p);
    }
  }

  /** No byte leads out of the valid states. */
  lemma ReadByteKeepsValid(p: Parser, b: Byte)
    requires Valid(p) && !p.bulkRead
    ensures ReadByte(p, b).status == Good ==> Valid(ReadByte(p, b))
    ensures ReadByte(p, b).status == Good && ReadByte(p, b).bulkRead ==> ReadByte(p, b).stage == BlockData
  {
    hide ReadInStage, Advance;
    var counted := CountPrimary(p);
    ReadInStageCanEnter(counted, b);
    var q := ReadInStage(counted, b);
    if q.stage != q.next && q.status != Failed {
      AdvanceIsValid(q);
    }
  }
}
