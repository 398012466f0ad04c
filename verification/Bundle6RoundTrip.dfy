/** What the serializer writes, the parser reads back: the BPv6 round trip. */
module Bundle6RoundTrip {
  import opened Bytes
  import opened Bundle6
  import opened Bundle6Serializer
  import opened Bundle6Parser
  import Sdnv

  /** Bulk data has been placed in the block's buffer; a zero byte triggers the parser. */
  function FinishBulk(p: Parser, data: seq<Byte>): Parser
    requires Valid(p) && p.bulkRead
  {
    ReadByte(p.(open := p.open.(data := data), bulkRead := false), 0)
  }

  /** Feeds input until the parser stops or needs more; gives what is left. */
  function Feed(p: Parser, input: seq<Byte>): (r: (Parser, seq<Byte>))
    requires p.status == Good ==> Valid(p)
    decreases |input|, if p.bulkRead then 1 else 0
  {
    if p.status != Good then (p, input)
    else if p.bulkRead then
      if p.nextBytes > |input| then (p, input)
      else
        hide Bundle6Parser.ReadByte;
        var rest := input[p.nextBytes..];
        FinishBulkKeepsValid(p, input[..p.nextBytes]);
        Feed(FinishBulk(p, input[..p.nextBytes]), rest)
    else if input == [] then (p, input)
    else
      hide Bundle6Parser.ReadByte;
      ReadByteKeepsValid(p, input[0]);
      Feed(ReadByte(p, input[0]), input[1..])
  }

  lemma FinishBulkKeepsValid(p: Parser, data: seq<Byte>)
    requires Valid(p) && p.bulkRead
    ensures FinishBulk(p, data).status == Good ==> Valid(FinishBulk(p, data))
    ensures !FinishBulk(p, data).bulkRead
  {
    hide Bundle6Parser.ReadByte;
    var q := p.(open := p.open.(data := data), bulkRead := false);
    ReadByteKeepsValid(q, 0);
    DataEnds(q);
  }

  /** The trigger byte behind bulk data starts no bulk read. */
  lemma DataEnds(q: Parser)
    requires Valid(q) && !q.bulkRead && q.stage == BlockData
    ensures !ReadByte(q, 0).bulkRead
  {
    hide Bundle6Parser.EnterDictionary, Bundle6Parser.ReadNumber, Bundle6Parser.ReadDictionary;
  }

  /** Ready for the next byte. */
  predicate Ready(p: Parser) {
    Valid(p) && p.status == Good && !p.bulkRead
  }

  lemma FeedByte(p: Parser, b: Byte, rest: seq<Byte>)
    requires Ready(p)
    ensures ReadByte(p, b).status == Good ==> Valid(ReadByte(p, b))
    ensures Feed(p, [b] + rest) == Feed(ReadByte(p, b), rest)
  {
    ReadByteKeepsValid(p, b);
    assert ([b] + rest)[1..] == rest;
  }

  // ---- One number ----

  /** The counter of the primary block after `n` more bytes. */
  function Counted(p: Parser, n: nat): Parser {
    if p.part == Primary then p.(primaryRemaining := if p.primaryRemaining < n then 0 else p.primaryRemaining - n)
    else p
  }

  predicate Allowed(p: Parser, n: nat) {
    p.part == Primary && LengthKnown(p.stage) ==> n <= p.primaryRemaining
  }

  predicate AtNumber(p: Parser, v: nat) {
    Ready(p) && ReadsNumber(p.stage) && v < WidthOf(p.stage).Limit() && v < U64_LIMIT
  }

  /** The number is in its variable and the stage has done its work. */
  function Taken(p: Parser, n: nat, v: nat): Parser
    requires BehindDictionary(p.stage) ==> DictionaryKnown(p)
  {
    var sdnv := Sdnv.State(Sdnv.Done, Sdnv.NoError, n);
    FinishNumber(Set(p.(sdnv := sdnv, next := Successor(p.stage)), p.stage, v))
  }

  /** The state behind a byte that leaves `m - 1` groups of the number. */
  function AfterGroup(p: Parser, v: nat, n: nat, m: nat): Parser
    requires 1 <= m <= n
  {
    Set(Counted(p, 1).(sdnv := Sdnv.State(Sdnv.InProgress, Sdnv.NoError, n - m + 1)),
        p.stage, Sdnv.Shift(v, m - 1))
  }

  /** A byte of a number that is not its last one. */
  lemma FeedGroup(p: Parser, v: nat, n: nat, m: nat)
    requires AtNumber(p, v) && n == Size64(v) && 1 < m <= n
    requires p.sdnv == Sdnv.State(Sdnv.InProgress, Sdnv.NoError, n - m)
    requires m < n ==> Get(p, p.stage) == Sdnv.Shift(v, m)
    requires Allowed(p, m)
    ensures ReadByte(p, Number(v)[n - m]) == AfterGroup(p, v, n, m)
  {
    hide Bundle6Parser.FinishNumber, Bundle6Parser.Advance, Sdnv.Read, Sdnv.Shift, Sdnv.SizeOf;
    var w := WidthOf(p.stage);
    Sdnv.SizeSameForWidths(w, Sdnv.Width.U64, v);
    Sdnv.ReadOneGroup(w, p.sdnv, Get(p, p.stage), v, n, m);
    assert CountPrimary(p) == Counted(p, 1);
  }

  lemma AfterGroupGoesOn(p: Parser, v: nat, n: nat, m: nat)
    requires AtNumber(p, v) && 1 < m <= n && Allowed(p, m)
    ensures var q := AfterGroup(p, v, n, m);
            && AtNumber(q, v) && Allowed(q, m - 1) && q.stage == p.stage
            && q.sdnv == Sdnv.State(Sdnv.InProgress, Sdnv.NoError, n - (m - 1))
            && Get(q, q.stage) == Sdnv.Shift(v, m - 1)
  {
  }

  /** What a state must offer so that the number leads on to another stage. */
  predicate LeadsOn(q: Parser, stage: Stage) {
    q.status == Good && q.next != stage && q.stage == stage && CanEnter(q)
  }

  /** The last byte of a number. */
  lemma FeedLastGroup(p: Parser, v: nat, n: nat)
    requires AtNumber(p, v) && n == Size64(v)
    requires p.sdnv == Sdnv.State(Sdnv.InProgress, Sdnv.NoError, n - 1)
    requires 1 < n ==> Get(p, p.stage) == Sdnv.Shift(v, 1)
    requires Allowed(p, 1)
    requires LeadsOn(Taken(Counted(p, 1), n, v), p.stage)
    ensures ReadByte(p, Number(v)[n - 1]) == Advance(Taken(Counted(p, 1), n, v))
  {
    hide Bundle6Parser.FinishNumber, Bundle6Parser.Advance, Sdnv.Read;
    var w := WidthOf(p.stage);
    Sdnv.SizeSameForWidths(w, Sdnv.Width.U64, v);
    Sdnv.SizeIsLeast(w, v);
    Sdnv.ReadOneGroup(w, p.sdnv, Get(p, p.stage), v, n, 1);
    assert CountPrimary(p) == Counted(p, 1);
  }

  lemma NumberIsReady(p: Parser, v: nat)
    requires AtNumber(p, v)
    ensures Ready(p)
  {
  }

  lemma LeadsOnMeans(q: Parser, stage: Stage)
    requires LeadsOn(q, stage)
    ensures CanEnter(q)
  {
  }

  lemma TakesOne(p: Parser, n: nat, v: nat)
    requires AtNumber(p, v) && Allowed(p, n) && 1 <= n
    ensures Allowed(p, 1) && ReadsNumber(p.stage)
    ensures BehindDictionary(p.stage) ==> DictionaryKnown(p)
    ensures forall m :: BehindDictionary(p.stage) ==> DictionaryKnown(Counted(p, m)) && Counted(p, m).stage == p.stage
    ensures Counted(p, n).stage == p.stage
  {
    hide Sdnv.Width.Limit;
  }

  lemma CutNumber(v: nat, k: nat, rest: seq<Byte>)
    requires k < Size64(v)
    ensures Number(v)[k..] + rest == [Number(v)[k]] + (Number(v)[k + 1..] + rest)
    ensures k + 1 == Size64(v) ==> Number(v)[k + 1..] + rest == rest
  {
    hide Size64;
  }

  /** Feeding the last `m` groups of a number. */
  lemma {:induction false} FeedGroups(p: Parser, v: nat, n: nat, m: nat, rest: seq<Byte>)
    requires AtNumber(p, v) && n == Size64(v) && 1 <= m <= n
    requires p.sdnv == Sdnv.State(Sdnv.InProgress, Sdnv.NoError, n - m)
    requires m < n ==> Get(p, p.stage) == Sdnv.Shift(v, m)
    requires Allowed(p, m)
    requires LeadsOn(Taken(Counted(p, m), n, v), p.stage)
    ensures var next := Advance(Taken(Counted(p, m), n, v));
            (next.status == Good ==> Valid(next)) && Feed(p, Number(v)[n - m..] + rest) == Feed(next, rest)
    decreases m
  {
    hide Bundle6Parser.ReadByte, Bundle6Parser.Advance, Bundle6Parser.FinishNumber, AfterGroup, Sdnv.Shift,
         Feed, AtNumber, Ready, Bundle6Parser.Valid, LeadsOn, Taken, Allowed, Counted, Get, Size64, Number;
    CutNumber(v, n - m, rest);
    NumberIsReady(p, v);
    TakesOne(p, m, v);
    LeadsOnMeans(Taken(Counted(p, m), n, v), p.stage);
    FeedByte(p, Number(v)[n - m], Number(v)[n - m + 1..] + rest);
    if m == 1 {
      FeedLastGroup(p, v, n);
      AdvanceIsValid(Taken(Counted(p, 1), n, v));
    } else {
      FeedGroup(p, v, n, m);
      AfterGroupGoesOn(p, v, n, m);
      TakenTwice(p, n, m, v);
      FeedGroups(AfterGroup(p, v, n, m), v, n, m - 1, rest);
    }
  }

  lemma TakenTwice(p: Parser, n: nat, m: nat, v: nat)
    requires 1 < m <= n && ReadsNumber(p.stage)
    requires BehindDictionary(p.stage) ==> DictionaryKnown(p)
    requires Allowed(p, m)
    ensures var p' := Counted(AfterGroup(p, v, n, m), m - 1);
            && p'.stage == p.stage && (BehindDictionary(p'.stage) ==> DictionaryKnown(p'))
            && Taken(p', n, v) == Taken(Counted(p, m), n, v)
  {
    hide Bundle6Parser.FinishNumber;
    var mid := Sdnv.State(Sdnv.InProgress, Sdnv.NoError, n - m + 1);
    assert Counted(AfterGroup(p, v, n, m), m - 1)
        == Set(Counted(p, m).(sdnv := mid), p.stage, Sdnv.Shift(v, m - 1));
    if p.stage != EidRefCount {
      assert p.numbers[p.stage := Sdnv.Shift(v, m - 1)][p.stage := v] == p.numbers[p.stage := v];
    }
  }

  /** Feeding a whole number. */
  lemma FeedNumber(p: Parser, v: nat, rest: seq<Byte>)
    requires AtNumber(p, v) && p.sdnv == Sdnv.RESET && Allowed(p, Size64(v))
    requires LeadsOn(Taken(Counted(p, Size64(v)), Size64(v), v), p.stage)
    ensures var next := Advance(Taken(Counted(p, Size64(v)), Size64(v), v));
            (next.status == Good ==> Valid(next)) && Feed(p, Number(v) + rest) == Feed(next, rest)
  {
    var n := Size64(v);
    Sdnv.SizeIsLeast(Sdnv.Width.U64, v);
    assert Number(v)[0..] == Number(v);
    FeedGroups(p, v, n, n, rest);
  }

  // ---- The primary block ----

  /** Stages whose successor only resets the number reader. */
  predicate PlainStage(stage: Stage) {
    stage.ProcFlags? || stage.DestinationScheme? || stage.DestinationSsp? || stage.SourceScheme? ||
    stage.SourceSsp? || stage.ReportScheme? || stage.ReportSsp? || stage.CustodianScheme? ||
    stage.CustodianSsp? || stage.SequenceNum? || stage.FragmentOffset? || stage.EidRefScheme?
  }

  /** The state behind a number: `stored` is what its variable finally holds. */
  function Behind(p: Parser, n: nat, stored: nat): Parser {
    var next := Successor(p.stage);
    Set(Counted(p, n), p.stage, stored).(stage := next, next := next, sdnv := Sdnv.RESET)
  }

  /** Stages that are entered with a fresh number reader and nothing else. */
  predicate OnlyResets(stage: Stage) {
    stage.PrimaryLength? || stage.DestinationSsp? || stage.SourceScheme? || stage.SourceSsp? ||
    stage.ReportScheme? || stage.ReportSsp? || stage.CustodianScheme? || stage.CustodianSsp? ||
    stage.Timestamp? || stage.Lifetime? || stage.AduLength? || stage.EidRefSsp?
  }

  lemma ResettingAdvance(q: Parser)
    requires OnlyResets(q.next)
    ensures Advance(q) == q.(sdnv := Sdnv.RESET, stage := q.next)
  {
    hide Bundle6Parser.EnterDictionary, Bundle6Parser.EnterBlockData;
  }

  /** Most stages do nothing more once their number is complete. */
  predicate NothingMore(stage: Stage) {
    !stage.BlockFlags? && !stage.EidRefCount? && !stage.EidRefSsp?
  }

  lemma TakenPlainly(p: Parser, n: nat, v: nat)
    requires NothingMore(p.stage) && (BehindDictionary(p.stage) ==> DictionaryKnown(p))
    ensures Taken(p, n, v)
         == Set(p.(sdnv := Sdnv.State(Sdnv.Done, Sdnv.NoError, n), next := Successor(p.stage)), p.stage, v)
  {
    hide Bundle6Parser.AddEidRef, Bundle6Parser.DictionaryKnown;
  }

  lemma PlainTaken(p: Parser, n: nat, v: nat)
    requires Ready(p) && ReadsNumber(p.stage) && PlainStage(p.stage)
    ensures var taken := Taken(Counted(p, n), n, v);
            && taken == Counted(p, n).(sdnv := Sdnv.State(Sdnv.Done, Sdnv.NoError, n), next := Successor(p.stage),
                                       numbers := p.numbers[p.stage := v])
            && OnlyResets(taken.next) && LeadsOn(taken, p.stage)
  {
    hide Taken;
    TakenPlainly(Counted(p, n), n, v);
  }

  lemma PlainBehind(p: Parser, n: nat, v: nat)
    requires Ready(p) && PlainStage(p.stage)
    ensures Behind(p, n, v) == Counted(p, n).(sdnv := Sdnv.RESET, stage := Successor(p.stage),
                                              next := Successor(p.stage), numbers := p.numbers[p.stage := v])
    ensures Ready(Behind(p, n, v))
  {
  }

  lemma PlainAdvance(p: Parser, n: nat, v: nat)
    requires Ready(p) && ReadsNumber(p.stage) && PlainStage(p.stage)
    ensures var taken := Taken(Counted(p, n), n, v);
            LeadsOn(taken, p.stage) && Advance(taken) == Behind(p, n, v) && Ready(Behind(p, n, v))
  {
    PlainBehind(p, n, v);
    PlainTaken(p, n, v);
    hide Bundle6Parser.Advance, Taken, Behind, Ready, LeadsOn, Counted, OnlyResets, Bundle6Parser.Valid;
    ResettingAdvance(Taken(Counted(p, n), n, v));
  }

  lemma FeedPlain(p: Parser, v: nat, rest: seq<Byte>)
    requires AtNumber(p, v) && p.sdnv == Sdnv.RESET && Allowed(p, Size64(v)) && PlainStage(p.stage)
    ensures Ready(Behind(p, Size64(v), v))
    ensures Feed(p, Number(v) + rest) == Feed(Behind(p, Size64(v), v), rest)
  {
    hide Bundle6Parser.Advance, Bundle6Parser.FinishNumber, Behind;
    PlainAdvance(p, Size64(v), v);
    FeedNumber(p, v, rest);
  }

  /** A time in seconds as it is kept. */
  function Milliseconds(v: nat): nat {
    v * 1000 % U64_LIMIT
  }

  lemma TimeAdvance(q: Parser, at: Stage, v: nat)
    requires at == Timestamp || at == Lifetime
    requires q.next == Successor(at) && Get(q, at) == v
    ensures Advance(q) == q.(sdnv := Sdnv.RESET, stage := q.next, numbers := q.numbers[at := Milliseconds(v)])
  {
    hide Bundle6Parser.EnterDictionary, Bundle6Parser.EnterBlockData, Get;
  }

  lemma TimeTaken(p: Parser, n: nat, v: nat)
    requires Ready(p) && (p.stage == Timestamp || p.stage == Lifetime)
    ensures var taken := Taken(Counted(p, n), n, v);
            && taken == Counted(p, n).(sdnv := Sdnv.State(Sdnv.Done, Sdnv.NoError, n), next := Successor(p.stage),
                                       numbers := p.numbers[p.stage := v])
            && LeadsOn(taken, p.stage) && Get(taken, p.stage) == v
  {
    hide Taken;
    TakenPlainly(Counted(p, n), n, v);
  }

  lemma TimeBehind(p: Parser, n: nat, v: nat)
    requires Ready(p) && (p.stage == Timestamp || p.stage == Lifetime)
    ensures Behind(p, n, v) == Counted(p, n).(sdnv := Sdnv.RESET, stage := Successor(p.stage),
                                              next := Successor(p.stage), numbers := p.numbers[p.stage := v])
    ensures Ready(Behind(p, n, v))
  {
  }

  lemma SecondsAdvance(p: Parser, n: nat, v: nat)
    requires Ready(p) && (p.stage == Timestamp || p.stage == Lifetime)
    ensures var taken := Taken(Counted(p, n), n, v);
            && LeadsOn(taken, p.stage) && Advance(taken) == Behind(p, n, Milliseconds(v))
            && Ready(Behind(p, n, Milliseconds(v)))
  {
    hide Bundle6Parser.Advance, Taken, Behind, LeadsOn, Milliseconds;
    TimeTaken(p, n, v);
    TimeBehind(p, n, Milliseconds(v));
    TimeAdvance(Taken(Counted(p, n), n, v), p.stage, v);
    assert p.numbers[p.stage := v][p.stage := Milliseconds(v)] == p.numbers[p.stage := Milliseconds(v)];
  }

  /** Any time that fits the wire is read, and wraps around if it is too large to be kept. */
  lemma FeedTime(p: Parser, v: nat, rest: seq<Byte>)
    requires Ready(p) && p.sdnv == Sdnv.RESET && v < U64_LIMIT
    requires p.stage == Timestamp || p.stage == Lifetime
    requires Allowed(p, Size64(v))
    ensures Ready(Behind(p, Size64(v), Milliseconds(v)))
    ensures Feed(p, Number(v) + rest) == Feed(Behind(p, Size64(v), Milliseconds(v)), rest)
  {
    hide Bundle6Parser.Advance, Bundle6Parser.FinishNumber, Behind, Milliseconds;
    SecondsAdvance(p, Size64(v), v);
    FeedNumber(p, v, rest);
  }

  /** A time is read in seconds and kept in milliseconds. */
  lemma FeedSeconds(p: Parser, ms: nat, rest: seq<Byte>)
    requires Ready(p) && p.sdnv == Sdnv.RESET && ms < U64_LIMIT
    requires p.stage == Timestamp || p.stage == Lifetime
    requires Allowed(p, Size64(ms / 1000))
    ensures Ready(Behind(p, Size64(ms / 1000), ms / 1000 * 1000))
    ensures Feed(p, Number(ms / 1000) + rest) == Feed(Behind(p, Size64(ms / 1000), ms / 1000 * 1000), rest)
  {
    assert Milliseconds(ms / 1000) == ms / 1000 * 1000;
    FeedTime(p, ms / 1000, rest);
  }

  lemma PrimaryLengthAdvance(p: Parser, n: nat, v: nat)
    requires Ready(p) && p.stage == PrimaryLength
    ensures var taken := Taken(Counted(p, n), n, v);
            && LeadsOn(taken, p.stage)
            && Advance(taken) == Behind(p, n, v).(primaryRemaining := v)
            && Ready(Behind(p, n, v).(primaryRemaining := v))
  {
  }

  /** The primary length starts the count of the bytes that follow. */
  lemma FeedPrimaryLength(p: Parser, v: nat, rest: seq<Byte>)
    requires AtNumber(p, v) && p.sdnv == Sdnv.RESET && p.stage == PrimaryLength
    ensures Ready(Behind(p, Size64(v), v).(primaryRemaining := v))
    ensures Feed(p, Number(v) + rest) == Feed(Behind(p, Size64(v), v).(primaryRemaining := v), rest)
  {
    hide Bundle6Parser.Advance, Bundle6Parser.FinishNumber, Behind;
    PrimaryLengthAdvance(p, Size64(v), v);
    FeedNumber(p, v, rest);
  }

  lemma FeedVersion(structSize: nat, version: Byte, rest: seq<Byte>)
    ensures var p := Reset(structSize).(version := version, stage := ProcFlags, next := ProcFlags);
            Ready(p) && Feed(Reset(structSize), [version] + rest) == Feed(p, rest)
  {
    FeedByte(Reset(structSize), version, rest);
    assert ReadByte(Reset(structSize), version)
        == Reset(structSize).(version := version, stage := ProcFlags, next := ProcFlags);
  }

  /** One pair of dictionary offsets. */
  function BehindInfo(p: Parser, info: EidInfo): Parser {
    Behind(Behind(p, Size64(info.schemeOffset), info.schemeOffset), Size64(info.sspOffset), info.sspOffset)
  }

  /** Numbers are counted in the primary block, behind its length field. */
  predicate AtReference(p: Parser, bytes: nat) {
    && Ready(p) && p.sdnv == Sdnv.RESET && p.part == Primary && bytes <= p.primaryRemaining
    && (p.stage.DestinationScheme? || p.stage.SourceScheme? || p.stage.ReportScheme? || p.stage.CustodianScheme?)
  }

  lemma AtNumberFor(p: Parser, v: nat, bytes: nat)
    requires AtReference(p, bytes) && v < U16_LIMIT
    ensures AtNumber(p, v) && PlainStage(p.stage) && (Size64(v) <= bytes ==> Allowed(p, Size64(v)))
  {
    hide Size64;
  }

  lemma AtSecondNumber(p: Parser, info: EidInfo)
    requires AtReference(p, InfoSize(info)) && info.sspOffset < U16_LIMIT
    requires Ready(Behind(p, Size64(info.schemeOffset), info.schemeOffset))
    ensures var q := Behind(p, Size64(info.schemeOffset), info.schemeOffset);
            AtNumber(q, info.sspOffset) && PlainStage(q.stage) && Allowed(q, Size64(info.sspOffset))
            && q.sdnv == Sdnv.RESET
  {
    hide Size64, Bundle6Parser.Valid;
  }

  lemma FeedInfo(p: Parser, info: EidInfo, rest: seq<Byte>)
    requires AtReference(p, InfoSize(info))
    requires info.schemeOffset < U16_LIMIT && info.sspOffset < U16_LIMIT
    ensures Ready(BehindInfo(p, info))
    ensures Feed(p, InfoBytes(info) + rest) == Feed(BehindInfo(p, info), rest)
  {
    hide Feed, Behind, Ready, AtNumber, Allowed, PlainStage, Size64;
    assert InfoBytes(info) + rest == Number(info.schemeOffset) + (Number(info.sspOffset) + rest);
    AtNumberFor(p, info.schemeOffset, InfoSize(info));
    FeedPlain(p, info.schemeOffset, Number(info.sspOffset) + rest);
    AtSecondNumber(p, info);
    FeedPlain(Behind(p, Size64(info.schemeOffset), info.schemeOffset), info.sspOffset, rest);
  }

  /** The number variables behind all four references. */
  function ReferenceNumbers(numbers: map<Stage, nat>, d: DictDescriptor): map<Stage, nat> {
    numbers[DestinationScheme := d.destination.schemeOffset][DestinationSsp := d.destination.sspOffset]
           [SourceScheme := d.source.schemeOffset][SourceSsp := d.source.sspOffset]
           [ReportScheme := d.reportTo.schemeOffset][ReportSsp := d.reportTo.sspOffset]
           [CustodianScheme := d.custodian.schemeOffset][CustodianSsp := d.custodian.sspOffset]
  }

  /** The state behind two pairs of offsets. */
  function BehindTwo(p: Parser, a: EidInfo, b: EidInfo): Parser {
    BehindInfo(BehindInfo(p, a), b)
  }

  predicate OffsetsFit(info: EidInfo) {
    info.schemeOffset < U16_LIMIT && info.sspOffset < U16_LIMIT
  }

  lemma SecondReference(p: Parser, a: EidInfo, bytes: nat)
    requires AtReference(p, InfoSize(a) + bytes) && !p.stage.CustodianScheme?
    requires Ready(BehindInfo(p, a))
    ensures AtReference(p, InfoSize(a)) && AtReference(BehindInfo(p, a), bytes)
    ensures BehindInfo(p, a).stage == Successor(Successor(p.stage))
  {
    hide Ready, InfoSize, Set;
    BehindInfoKeeps(p, a);
  }

  lemma BehindInfoKeeps(p: Parser, info: EidInfo)
    requires p.part == Primary && InfoSize(info) <= p.primaryRemaining
    requires p.stage.DestinationScheme? || p.stage.SourceScheme? || p.stage.ReportScheme? || p.stage.CustodianScheme?
    ensures var q := BehindInfo(p, info); var ssp := Successor(p.stage);
            q == p.(numbers := p.numbers[p.stage := info.schemeOffset][ssp := info.sspOffset],
                    stage := Successor(ssp), next := Successor(ssp), sdnv := Sdnv.RESET,
                    primaryRemaining := p.primaryRemaining - InfoSize(info))
  {
  }

  lemma FeedTwoInfos(p: Parser, a: EidInfo, b: EidInfo, rest: seq<Byte>)
    requires AtReference(p, InfoSize(a) + InfoSize(b)) && !p.stage.CustodianScheme?
    requires OffsetsFit(a) && OffsetsFit(b)
    ensures Ready(BehindInfo(p, a)) && Ready(BehindTwo(p, a, b))
    ensures Feed(p, InfoBytes(a) + InfoBytes(b) + rest) == Feed(BehindTwo(p, a, b), rest)
  {
    hide Feed, BehindInfo, InfoSize, InfoBytes, Ready;
    assert InfoBytes(a) + InfoBytes(b) + rest == InfoBytes(a) + (InfoBytes(b) + rest);
    assert AtReference(p, InfoSize(a));
    FeedInfo(p, a, InfoBytes(b) + rest);
    SecondReference(p, a, InfoSize(b));
    FeedInfo(BehindInfo(p, a), b, rest);
  }

  lemma BehindReferences(p: Parser, d: DictDescriptor)
    requires p.part == Primary && |ReferenceBytes(d)| <= p.primaryRemaining && p.stage == DestinationScheme
    requires p.sdnv == Sdnv.RESET
    ensures BehindTwo(BehindTwo(p, d.destination, d.source), d.reportTo, d.custodian)
         == p.(numbers := ReferenceNumbers(p.numbers, d), stage := Timestamp, next := Timestamp,
               primaryRemaining := p.primaryRemaining - |ReferenceBytes(d)|)
  {
    ReferenceSizes(d);
    hide BehindInfo, InfoBytes, InfoSize, ReferenceBytes;
    var p1 := BehindInfo(p, d.destination);
    BehindInfoKeeps(p, d.destination);
    var p2 := BehindInfo(p1, d.source);
    BehindInfoKeeps(p1, d.source);
    var p3 := BehindInfo(p2, d.reportTo);
    BehindInfoKeeps(p2, d.reportTo);
    BehindInfoKeeps(p3, d.custodian);
  }

  lemma ReferenceSizes(d: DictDescriptor)
    ensures |ReferenceBytes(d)|
         == InfoSize(d.destination) + InfoSize(d.source) + InfoSize(d.reportTo) + InfoSize(d.custodian)
  {
  }

  lemma ReferenceParts(d: DictDescriptor, rest: seq<Byte>)
    ensures ReferenceBytes(d) + rest == InfoBytes(d.destination) + InfoBytes(d.source) +
              (InfoBytes(d.reportTo) + InfoBytes(d.custodian) + rest)
    ensures InfosFit(d) ==>
      OffsetsFit(d.destination) && OffsetsFit(d.source) && OffsetsFit(d.reportTo) && OffsetsFit(d.custodian)
  {
    hide InfoBytes;
  }

  /** Behind the first two pairs the parser is ready for the others. */
  lemma HalfwayReferences(p: Parser, a: EidInfo, b: EidInfo, bytes: nat)
    requires AtReference(p, InfoSize(a) + InfoSize(b) + bytes) && p.stage == DestinationScheme
    requires Ready(BehindInfo(p, a)) && Ready(BehindTwo(p, a, b))
    ensures AtReference(p, InfoSize(a) + InfoSize(b))
    ensures AtReference(BehindTwo(p, a, b), bytes) && BehindTwo(p, a, b).stage == ReportScheme
  {
    hide Ready, InfoSize, BehindInfo;
    SecondReference(p, a, InfoSize(b) + bytes);
    SecondReference(BehindInfo(p, a), b, bytes);
  }

  lemma FeedReferences(p: Parser, d: DictDescriptor, rest: seq<Byte>)
    requires AtReference(p, |ReferenceBytes(d)|) && p.stage == DestinationScheme && InfosFit(d)
    ensures var q := p.(numbers := ReferenceNumbers(p.numbers, d), stage := Timestamp, next := Timestamp,
                        primaryRemaining := p.primaryRemaining - |ReferenceBytes(d)|);
            Ready(q) && Feed(p, ReferenceBytes(d) + rest) == Feed(q, rest)
  {
    hide Feed, InfoBytes, InfoSize, Ready, BehindTwo, ReferenceBytes, ReferenceNumbers, InfosFit, OffsetsFit;
    ReferenceSizes(d);
    ReferenceParts(d, rest);
    BehindReferences(p, d);
    var r := InfoBytes(d.reportTo) + InfoBytes(d.custodian) + rest;
    assert AtReference(p, InfoSize(d.destination) + InfoSize(d.source));
    FeedTwoInfos(p, d.destination, d.source, r);
    HalfwayReferences(p, d.destination, d.source, InfoSize(d.reportTo) + InfoSize(d.custodian));
    FeedTwoInfos(BehindTwo(p, d.destination, d.source), d.reportTo, d.custodian, rest);
  }

  /** The number variables behind the times and the sequence number. */
  function TimeNumbers(numbers: map<Stage, nat>, b: Bundle): map<Stage, nat> {
    numbers[Timestamp := b.creationMs / 1000 * 1000][SequenceNum := b.sequence]
           [Lifetime := b.lifetimeMs / 1000 * 1000]
  }

  lemma BehindIn(p: Parser, n: nat, v: nat)
    requires p.part == Primary && n <= p.primaryRemaining && !p.stage.EidRefCount?
    ensures Behind(p, n, v)
         == p.(numbers := p.numbers[p.stage := v], stage := Successor(p.stage), next := Successor(p.stage),
               sdnv := Sdnv.RESET, primaryRemaining := p.primaryRemaining - n)
  {
  }

  lemma NumberAt(p: Parser, v: nat)
    requires Ready(p) && (p.stage == SequenceNum || p.stage == FragmentOffset) && v < U64_LIMIT
    ensures AtNumber(p, v) && PlainStage(p.stage)
  {
    hide Ready;
  }

  lemma TimesParts(b: Bundle, rest: seq<Byte>)
    ensures TimeBytes(b) + rest
         == Number(b.creationMs / 1000) + (Number(b.sequence) + (Number(b.lifetimeMs / 1000) + rest))
    ensures |TimeBytes(b)| == Size64(b.creationMs / 1000) + Size64(b.sequence) + Size64(b.lifetimeMs / 1000)
    ensures NumbersFit(b) ==> b.creationMs < U64_LIMIT
    ensures NumbersFit(b) ==> b.sequence < U64_LIMIT && b.lifetimeMs < U64_LIMIT
  {
    hide Number, Size64;
  }

  lemma FeedTimes(p: Parser, b: Bundle, rest: seq<Byte>)
    requires Ready(p) && p.sdnv == Sdnv.RESET && p.part == Primary && p.stage == Timestamp
    requires NumbersFit(b) && |TimeBytes(b)| <= p.primaryRemaining
    ensures var q := p.(numbers := TimeNumbers(p.numbers, b), stage := DictLength, next := DictLength,
                        primaryRemaining := p.primaryRemaining - |TimeBytes(b)|);
            Ready(q) && Feed(p, TimeBytes(b) + rest) == Feed(q, rest)
  {
    hide Feed, Behind, Ready, Number, Size64, NumbersFit, TimeBytes, AtNumber, PlainStage;
    TimesParts(b, rest);
    var r2 := Number(b.lifetimeMs / 1000) + rest;
    FeedSeconds(p, b.creationMs, Number(b.sequence) + r2);
    var n1 := Size64(b.creationMs / 1000);
    BehindIn(p, n1, b.creationMs / 1000 * 1000);
    var p1 := Behind(p, n1, b.creationMs / 1000 * 1000);
    NumberAt(p1, b.sequence);
    FeedPlain(p1, b.sequence, r2);
    BehindIn(p1, Size64(b.sequence), b.sequence);
    var p2 := Behind(p1, Size64(b.sequence), b.sequence);
    FeedSeconds(p2, b.lifetimeMs, rest);
    BehindIn(p2, Size64(b.lifetimeMs / 1000), b.lifetimeMs / 1000 * 1000);
  }

  // ---- The dictionary ----

  /** The state at the start of the dictionary; the number reader is left as it is. */
  function AtDictionary(p: Parser, length: nat): Parser {
    p.(numbers := p.numbers[DictLength := length], stage := Dictionary, next := Dictionary,
       sdnv := Sdnv.State(Sdnv.Done, Sdnv.NoError, Size64(length)),
       primaryRemaining := p.primaryRemaining - (if p.primaryRemaining < Size64(length) then 0 else Size64(length)),
       index := 0, dataRemaining := length, size := p.size + length + 1, dict := [])
  }

  lemma FeedDictLength(p: Parser, length: nat, rest: seq<Byte>)
    requires Ready(p) && p.sdnv == Sdnv.RESET && p.part == Primary && p.stage == DictLength
    requires 0 < length < U16_LIMIT && Size64(length) <= p.primaryRemaining
    requires p.size + length + 1 <= BUNDLE_MAX_SIZE
    ensures Ready(AtDictionary(p, length))
    ensures Feed(p, Number(length) + rest) == Feed(AtDictionary(p, length), rest)
  {
    DictLengthAdvance(p, length);
    hide Bundle6Parser.Advance, AtDictionary;
    FeedNumber(p, length, rest);
  }

  lemma DictLengthAdvance(p: Parser, length: nat)
    requires Ready(p) && p.part == Primary && p.stage == DictLength
    requires 0 < length < U16_LIMIT && Size64(length) <= p.primaryRemaining
    requires p.size + length + 1 <= BUNDLE_MAX_SIZE
    ensures var taken := Taken(Counted(p, Size64(length)), Size64(length), length);
            && LeadsOn(taken, p.stage) && Advance(taken) == AtDictionary(p, length)
            && Ready(AtDictionary(p, length))
  {
  }

  lemma {:induction false} FindIn(a: seq<Byte>, c: Byte, t: seq<Byte>)
    requires c !in a
    ensures Find(a + [c] + t, c) == |a|
  {
    if a != [] {
      assert (a + [c] + t)[1..] == a[1..] + [c] + t;
      FindIn(a[1..], c, t);
    }
  }

  lemma CStringInside(dict: seq<Byte>, front: seq<Byte>, part: seq<Byte>, back: seq<Byte>)
    requires CString(part) && dict == front + part + [0] + back
    ensures CStringAt(dict + [0], |front|) == part
  {
    var terminated := dict + [0];
    assert terminated[|front|..] == part + [0] + (back + [0]);
    FindIn(part, 0, back + [0]);
  }

  /** An entry of the dictionary is read back as the identifier it was made of. */
  lemma ReadEntry(dict: seq<Byte>, front: seq<Byte>, eid: Option<seq<Byte>>, back: seq<Byte>)
    requires ValidEid(eid)
    requires dict == front + EntryBytes(eid) + back
    ensures var info := EidInfoAt(eid, |front|);
            ReadEid(dict, |dict|, Reference(info.schemeOffset, info.sspOffset)) == Some(CanonicalEid(eid))
  {
    hide SplitEid, CStringAt;
    SplitParts(eid);
    var (scheme, ssp) := SplitEid(eid);
    assert dict == front + scheme + [0] + (ssp + [0] + back);
    CStringInside(dict, front, scheme, ssp + [0] + back);
    assert dict == (front + scheme + [0]) + ssp + [0] + back;
    CStringInside(dict, front + scheme + [0], ssp, back);
  }

  function ReceivedEids(b: Bundle): Endpoints {
    Endpoints(Some(CanonicalEid(b.destination)), Some(CanonicalEid(b.source)),
              Some(CanonicalEid(b.reportTo)), Some(CanonicalEid(b.custodian)))
  }

  lemma DictionaryParts(b: Bundle)
    ensures var e1, e2, e3, e4 :=
              EntryBytes(b.destination), EntryBytes(b.source), EntryBytes(b.reportTo), EntryBytes(b.custodian);
            var r := RefsBytes(AllRefs(b.blocks));
            && DictBytes(b) == [] + e1 + (e2 + e3 + e4 + r) && DictBytes(b) == e1 + e2 + (e3 + e4 + r)
            && DictBytes(b) == (e1 + e2) + e3 + (e4 + r) && DictBytes(b) == (e1 + e2 + e3) + e4 + r
  {
    hide EntryBytes, RefsBytes, AllRefs;
    FivePieces(EntryBytes(b.destination), EntryBytes(b.source), EntryBytes(b.reportTo), EntryBytes(b.custodian),
               RefsBytes(AllRefs(b.blocks)));
  }

  lemma FivePieces(a: seq<Byte>, b: seq<Byte>, c: seq<Byte>, d: seq<Byte>, e: seq<Byte>)
    ensures var all := (a + b + c + d) + e;
      all == [] + a + (b + c + d + e) && all == a + b + (c + d + e) && all == (a + b) + c + (d + e)
      && all == (a + b + c) + d + e
  {
  }

  lemma DescriptorInfos(b: Bundle)
    ensures var e1, e2, e3 := EntryBytes(b.destination), EntryBytes(b.source), EntryBytes(b.reportTo);
            var d := DescriptorOf(b);
            && d.destination == EidInfoAt(b.destination, 0) && d.source == EidInfoAt(b.source, |e1|)
            && d.reportTo == EidInfoAt(b.reportTo, |e1 + e2|) && d.custodian == EidInfoAt(b.custodian, |e1 + e2 + e3|)
  {
    hide SplitEid;
  }

  /** All four identifiers are read back from the dictionary. */
  lemma ReadAllEntries(b: Bundle, p: Parser)
    requires ValidEid(b.destination) && ValidEid(b.source) && ValidEid(b.reportTo) && ValidEid(b.custodian)
    requires ReferencesOf(p, DescriptorOf(b))
    ensures var dict, n := DictBytes(b), |DictBytes(b)|;
            && ReadEid(dict, n, ReferenceAt(p, DestinationScheme, DestinationSsp)) == ReceivedEids(b).destination
            && ReadEid(dict, n, ReferenceAt(p, SourceScheme, SourceSsp)) == ReceivedEids(b).source
            && ReadEid(dict, n, ReferenceAt(p, ReportScheme, ReportSsp)) == ReceivedEids(b).reportTo
            && ReadEid(dict, n, ReferenceAt(p, CustodianScheme, CustodianSsp)) == ReceivedEids(b).custodian
  {
    hide ReadEid, EntryBytes, SplitEid, EidInfoAt, DictBytes, DescriptorOf, ValidEid, CanonicalEid, ReferenceAt,
         RefsBytes, AllRefs;
    DictionaryParts(b);
    DescriptorInfos(b);
    var e1, e2, e3, e4 :=
      EntryBytes(b.destination), EntryBytes(b.source), EntryBytes(b.reportTo), EntryBytes(b.custodian);
    var r := RefsBytes(AllRefs(b.blocks));
    ReadEntry(DictBytes(b), [], b.destination, e2 + e3 + e4 + r);
    ReadEntry(DictBytes(b), e1, b.source, e3 + e4 + r);
    ReadEntry(DictBytes(b), e1 + e2, b.reportTo, e4 + r);
    ReadEntry(DictBytes(b), e1 + e2 + e3, b.custodian, r);
  }

  /** The parser's references are the offsets of the descriptor. */
  predicate ReferencesOf(p: Parser, d: DictDescriptor) {
    && ReferenceAt(p, DestinationScheme, DestinationSsp)
       == Reference(d.destination.schemeOffset, d.destination.sspOffset)
    && ReferenceAt(p, SourceScheme, SourceSsp) == Reference(d.source.schemeOffset, d.source.sspOffset)
    && ReferenceAt(p, ReportScheme, ReportSsp) == Reference(d.reportTo.schemeOffset, d.reportTo.sspOffset)
    && ReferenceAt(p, CustodianScheme, CustodianSsp)
       == Reference(d.custodian.schemeOffset, d.custodian.sspOffset)
  }

  /** In the middle of the dictionary, with `k` of its bytes read. */
  predicate InDictionary(p: Parser, b: Bundle, k: nat) {
    DictionaryPart(p, b, k) && p.part == Primary && |DictBytes(b)| - k <= p.primaryRemaining
  }

  predicate DictionaryPart(p: Parser, b: Bundle, k: nat) {
    && Ready(p) && p.stage == Dictionary
    && k < |DictBytes(b)| && p.dict == DictBytes(b)[..k] && Get(p, DictLength) == |DictBytes(b)|
    && ReferencesOf(p, DescriptorOf(b))
  }

  /** The state behind the dictionary. */
  function BehindDict(p: Parser, b: Bundle, left: nat): Parser {
    var q := p.(dict := DictBytes(b), dataRemaining := 0, index := p.index + left + 1,
                primaryRemaining := if p.primaryRemaining < left then 0 else p.primaryRemaining - left,
                eids := ReceivedEids(b));
    if IsFragment(p) then q.(stage := FragmentOffset, next := FragmentOffset, sdnv := Sdnv.RESET)
    else q.(stage := BlockType, next := BlockType, part := Generic)
  }

  lemma CompleteDictionary(p: Parser, c: Byte, eids: Endpoints)
    requires p.dataRemaining == 1 && |p.dict| + 1 == Get(p, DictLength)
    requires var dict, n := p.dict + [c], Get(p, DictLength);
      && eids.destination.Some? && eids.source.Some? && eids.reportTo.Some? && eids.custodian.Some?
      && ReadEid(dict, n, ReferenceAt(p, DestinationScheme, DestinationSsp)) == eids.destination
      && ReadEid(dict, n, ReferenceAt(p, SourceScheme, SourceSsp)) == eids.source
      && ReadEid(dict, n, ReferenceAt(p, ReportScheme, ReportSsp)) == eids.reportTo
      && ReadEid(dict, n, ReferenceAt(p, CustodianScheme, CustodianSsp)) == eids.custodian
    ensures ReadDictionary(p, c)
         == p.(dict := p.dict + [c], dataRemaining := 0, index := p.index + 2, eids := eids,
               next := if IsFragment(p) then FragmentOffset else BlockType)
  {
    hide ReadEid, ReferenceAt, Get;
    var q := p.(dataRemaining := 0, dict := p.dict + [c], index := p.index + 1);
    SameReference(p, q, DestinationScheme, DestinationSsp);
    SameReference(p, q, SourceScheme, SourceSsp);
    SameReference(p, q, ReportScheme, ReportSsp);
    SameReference(p, q, CustodianScheme, CustodianSsp);
    SameNumbers(p, q, DictLength);
    SameNumbers(p, q.(index := p.index + 2, eids := eids), ProcFlags);
  }

  lemma SameReference(p: Parser, q: Parser, scheme: Stage, ssp: Stage)
    requires p.numbers == q.numbers && p.size == q.size
    ensures ReferenceAt(p, scheme, ssp) == ReferenceAt(q, scheme, ssp)
  {
    hide Get;
    SameNumbers(p, q, scheme);
    SameNumbers(p, q, ssp);
  }

  lemma PartFacts(p: Parser, b: Bundle, k: nat)
    requires DictionaryPart(p, b, k) && k + 1 == |DictBytes(b)|
    ensures p.dataRemaining == 1 && |p.dict| + 1 == Get(p, DictLength) == |DictBytes(b)|
    ensures p.dict + [DictBytes(b)[k]] == DictBytes(b) && ReferencesOf(p, DescriptorOf(b))
  {
    hide DictBytes, DescriptorOf, ReferencesOf;
    var dict := DictBytes(b);
    assert dict[..k] + [dict[k]] == dict;
  }

  lemma LastOfDictionary(p: Parser, b: Bundle)
    requires ValidEid(b.destination) && ValidEid(b.source) && ValidEid(b.reportTo) && ValidEid(b.custodian)
    requires DictionaryPart(p, b, |DictBytes(b)| - 1)
    ensures ReadDictionary(p, DictBytes(b)[|DictBytes(b)| - 1])
         == p.(dict := DictBytes(b), dataRemaining := 0, index := p.index + 2, eids := ReceivedEids(b),
               next := if IsFragment(p) then FragmentOffset else BlockType)
  {
    hide *;
    NotEmpty(b);
    PartFacts(p, b, |DictBytes(b)| - 1);
    ReadAllEntries(b, p);
    ReceivedAll(b);
    CompleteDictionary(p, DictBytes(b)[|DictBytes(b)| - 1], ReceivedEids(b));
  }

  lemma NotEmpty(b: Bundle)
    ensures |DictBytes(b)| > 0
  {
  }

  lemma ReceivedAll(b: Bundle)
    ensures var e := ReceivedEids(b);
      e.destination.Some? && e.source.Some? && e.reportTo.Some? && e.custodian.Some?
  {
    hide CanonicalEid;
  }

  /** One byte in the dictionary, within the counted part of the primary block. */
  lemma ByteInDictionary(p: Parser, c: Byte)
    requires Ready(p) && p.stage == Dictionary && p.part == Primary && p.primaryRemaining > 0
    ensures var counted := p.(primaryRemaining := p.primaryRemaining - 1);
            && counted.dataRemaining > 0 && |counted.dict| + counted.dataRemaining == Get(counted, DictLength)
            && var r := ReadDictionary(counted, c);
               ReadByte(p, c) == if r.stage != r.next && r.status != Failed then Advance(r) else r
  {
    hide Bundle6Parser.ReadDictionary, Bundle6Parser.Advance;
  }

  lemma AdvanceFromDictionary(r: Parser)
    requires r.next == FragmentOffset || r.next == BlockType
    ensures Advance(r) == if r.next == FragmentOffset then r.(stage := FragmentOffset, sdnv := Sdnv.RESET)
                          else r.(stage := BlockType, part := Generic)
  {
    hide Bundle6Parser.EnterDictionary, Bundle6Parser.EnterBlockData;
  }

  lemma DictIsKnown(p: Parser, b: Bundle, left: nat)
    requires p.status == Good && !p.bulkRead && left <= p.primaryRemaining && Get(p, DictLength) == |DictBytes(b)|
    ensures Ready(BehindDict(p, b, left))
  {
    hide DictBytes, ReceivedEids;
  }

  lemma CountedInDictionary(p: Parser, b: Bundle, k: nat)
    requires InDictionary(p, b, k)
    ensures Ready(p) && Valid(p) && p.status == Good && !p.bulkRead && p.stage == Dictionary && p.part == Primary
    ensures p.primaryRemaining >= |DictBytes(b)| - k > 0 && k < |DictBytes(b)| && Get(p, DictLength) == |DictBytes(b)|
    ensures DictionaryPart(p.(primaryRemaining := p.primaryRemaining - 1), b, k)
  {
    hide DictBytes, DescriptorOf;
  }

  lemma FeedLastOfDictionary(p: Parser, b: Bundle)
    requires ValidEid(b.destination) && ValidEid(b.source) && ValidEid(b.reportTo) && ValidEid(b.custodian)
    requires InDictionary(p, b, |DictBytes(b)| - 1)
    ensures Ready(BehindDict(p, b, 1))
    ensures ReadByte(p, DictBytes(b)[|DictBytes(b)| - 1]) == BehindDict(p, b, 1)
  {
    hide Bundle6Parser.ReadDictionary, DictBytes, ReceivedEids, InDictionary, DictionaryPart, Ready,
         Bundle6Parser.ReadByte, Bundle6Parser.Advance, ValidEid, Get;
    CountedInDictionary(p, b, |DictBytes(b)| - 1);
    DictIsKnown(p, b, 1);
    var counted := p.(primaryRemaining := p.primaryRemaining - 1);
    SameNumbers(p, counted, ProcFlags);
    LastOfDictionary(counted, b);
    ByteInDictionary(p, DictBytes(b)[|DictBytes(b)| - 1]);
    AdvanceFromDictionary(ReadDictionary(counted, DictBytes(b)[|DictBytes(b)| - 1]));
  }

  function Less(n: nat): nat {
    if n == 0 then 0 else n - 1
  }

  /** The state after one more byte of the dictionary. */
  function OneFurther(p: Parser, b: Bundle, k: nat): Parser
    requires k < |DictBytes(b)|
  {
    p.(dict := DictBytes(b)[..k + 1], dataRemaining := Less(p.dataRemaining), index := p.index + 1,
       primaryRemaining := Less(p.primaryRemaining))
  }

  lemma StillInDictionary(p: Parser, b: Bundle, k: nat)
    requires InDictionary(p, b, k) && k + 1 < |DictBytes(b)|
    ensures InDictionary(OneFurther(p, b, k), b, k + 1)
  {
    hide DictBytes, DescriptorOf;
  }

  lemma NotLastInDictionary(p: Parser, b: Bundle, k: nat)
    requires DictionaryPart(p, b, k) && k + 1 < |DictBytes(b)|
    ensures ReadDictionary(p, DictBytes(b)[k])
         == p.(dict := DictBytes(b)[..k + 1], dataRemaining := p.dataRemaining - 1, index := p.index + 1)
  {
    hide ReadEid, DictBytes, ReferencesOf;
    var dict := DictBytes(b);
    assert dict[..k] + [dict[k]] == dict[..k + 1];
  }

  lemma FeedOneOfDictionary(p: Parser, b: Bundle, k: nat)
    requires InDictionary(p, b, k) && k + 1 < |DictBytes(b)|
    ensures Valid(p) && ReadByte(p, DictBytes(b)[k]) == OneFurther(p, b, k)
    ensures InDictionary(OneFurther(p, b, k), b, k + 1)
  {
    hide *;
    CountedInDictionary(p, b, k);
    ReadyStage(p);
    ByteInDictionary(p, DictBytes(b)[k]);
    NotLastInDictionary(p.(primaryRemaining := p.primaryRemaining - 1), b, k);
    IsOneFurther(p, b, k);
    StillInDictionary(p, b, k);
  }

  lemma IsOneFurther(p: Parser, b: Bundle, k: nat)
    requires k < |DictBytes(b)| && p.dataRemaining > 0 && p.primaryRemaining > 0
    ensures OneFurther(p, b, k) ==
      p.(primaryRemaining := p.primaryRemaining - 1,
         dict := DictBytes(b)[..k + 1], dataRemaining := p.dataRemaining - 1, index := p.index + 1)
  {
    hide DictBytes;
  }

  lemma ReadyStage(p: Parser)
    requires Ready(p)
    ensures p.stage == p.next
    ensures p.stage == Dictionary ==> p.dataRemaining > 0
  {
  }

  lemma BehindDictOneLess(p: Parser, b: Bundle, k: nat)
    requires k < |DictBytes(b)| && |DictBytes(b)| - k <= p.primaryRemaining
    ensures BehindDict(OneFurther(p, b, k), b, |DictBytes(b)| - k - 1) == BehindDict(p, b, |DictBytes(b)| - k)
  {
    hide DictBytes, ReceivedEids, Get;
    SameNumbers(p, OneFurther(p, b, k), ProcFlags);
  }

  lemma SameNumbers(p: Parser, q: Parser, stage: Stage)
    requires p.numbers == q.numbers && p.size == q.size
    ensures Get(p, stage) == Get(q, stage)
  {
  }

  lemma CutDictionary(b: Bundle, k: nat, rest: seq<Byte>)
    requires k < |DictBytes(b)|
    ensures DictBytes(b)[k..] + rest == [DictBytes(b)[k]] + (DictBytes(b)[k + 1..] + rest)
    ensures k + 1 == |DictBytes(b)| ==> DictBytes(b)[k + 1..] + rest == rest
  {
    hide DictBytes;
  }

  lemma {:induction false} FeedDictionary(p: Parser, b: Bundle, k: nat, rest: seq<Byte>)
    requires ValidEid(b.destination) && ValidEid(b.source) && ValidEid(b.reportTo) && ValidEid(b.custodian)
    requires InDictionary(p, b, k)
    ensures var q := BehindDict(p, b, |DictBytes(b)| - k);
            Ready(q) && Feed(p, DictBytes(b)[k..] + rest) == Feed(q, rest)
    decreases |DictBytes(b)| - k
  {
    hide *;
    CountedInDictionary(p, b, k);
    CutDictionary(b, k, rest);
    FeedByte(p, DictBytes(b)[k], DictBytes(b)[k + 1..] + rest);
    if k + 1 == |DictBytes(b)| {
      FeedLastOfDictionary(p, b);
    } else {
      FeedOneOfDictionary(p, b, k);
      BehindDictOneLess(p, b, k);
      FeedDictionary(OneFurther(p, b, k), b, k + 1, rest);
    }
  }

  // ---- The fields of a fragment ----

  /** The state behind the primary block. */
  function BehindFragmentFields(p: Parser, b: Bundle): Parser {
    p.(numbers := p.numbers[FragmentOffset := b.fragmentOffset][AduLength := b.totalAduLength],
       stage := BlockType, next := BlockType, part := Generic,
       sdnv := Sdnv.State(Sdnv.Done, Sdnv.NoError, Size64(b.totalAduLength)),
       primaryRemaining := 0)
  }

  lemma AduLengthAdvance(p: Parser, n: nat, v: nat)
    requires Ready(p) && p.stage == AduLength && p.part == Primary && p.primaryRemaining == n
    ensures var taken := Taken(Counted(p, n), n, v);
            var q := p.(numbers := p.numbers[AduLength := v], stage := BlockType, next := BlockType,
                        part := Generic, sdnv := Sdnv.State(Sdnv.Done, Sdnv.NoError, n), primaryRemaining := 0);
            LeadsOn(taken, p.stage) && Advance(taken) == q && Ready(q)
  {
    hide Bundle6Parser.EnterDictionary, Bundle6Parser.EnterBlockData, Bundle6Parser.AddEidRef;
  }

  lemma FeedFragmentFields(p: Parser, b: Bundle, rest: seq<Byte>)
    requires Ready(p) && p.stage == FragmentOffset && p.part == Primary && p.sdnv == Sdnv.RESET
    requires b.fragmentOffset < U64_LIMIT && b.totalAduLength < U64_LIMIT
    requires p.primaryRemaining == Size64(b.fragmentOffset) + Size64(b.totalAduLength)
    ensures Ready(BehindFragmentFields(p, b))
    ensures Feed(p, Number(b.fragmentOffset) + Number(b.totalAduLength) + rest)
         == Feed(BehindFragmentFields(p, b), rest)
  {
    hide Feed, Bundle6Parser.Advance, Bundle6Parser.FinishNumber;
    assert Number(b.fragmentOffset) + Number(b.totalAduLength) + rest
        == Number(b.fragmentOffset) + (Number(b.totalAduLength) + rest);
    FeedPlain(p, b.fragmentOffset, Number(b.totalAduLength) + rest);
    var p1 := Behind(p, Size64(b.fragmentOffset), b.fragmentOffset);
    AduLengthAdvance(p1, Size64(b.totalAduLength), b.totalAduLength);
    FeedNumber(p1, b.totalAduLength, rest);
  }

  // ---- Endpoint references of blocks ----

  /** The offsets lead to these identifiers in the dictionary. */
  predicate Readable(dict: seq<Byte>, infos: seq<EidInfo>, eids: seq<seq<Byte>>) {
    && |infos| == |eids| < U16_LIMIT
    && forall i :: 0 <= i < |infos| ==>
      && infos[i].schemeOffset < U16_LIMIT && infos[i].sspOffset < U16_LIMIT
      && ReadEid(dict, |dict|, Reference(infos[i].schemeOffset, infos[i].sspOffset)) == Some(eids[i])
  }

  predicate HasDict(p: Parser, dict: seq<Byte>) {
    p.dict == dict && Get(p, DictLength) == |dict| > 0
  }

  function Reversed<T>(s: seq<T>): (r: seq<T>)
    ensures |r| == |s|
  {
    if s == [] then [] else [s[|s| - 1]] + Reversed(s[..|s| - 1])
  }

  /** The state behind the number of references. */
  function CountTaken(p: Parser, n: nat): Parser {
    var next := if n == 0 then DataLength else EidRefScheme;
    p.(size := n, index := 0, sdnv := Sdnv.RESET, stage := next, next := next)
  }

  /** The state behind one reference. */
  function RefTaken(p: Parser, info: EidInfo, eid: seq<Byte>): Parser {
    var next := if p.index + 1 == p.size then DataLength else EidRefScheme;
    p.(numbers := p.numbers[EidRefScheme := info.schemeOffset][EidRefSsp := info.sspOffset], index := p.index + 1,
       sdnv := Sdnv.RESET, open := p.open.(eidRefs := [eid] + p.open.eidRefs), stage := next, next := next)
  }

  lemma AdvanceResets(q: Parser)
    requires q.next == DataLength || q.next == EidRefCount || q.next == EidRefScheme || q.next == EidRefSsp
    ensures Advance(q) == q.(sdnv := Sdnv.RESET, stage := q.next)
  {
    hide Bundle6Parser.EnterDictionary, Bundle6Parser.EnterBlockData;
  }

  lemma CountIsTaken(p: Parser, bytes: nat, n: nat)
    requires Ready(p) && p.stage == EidRefCount && p.part != Primary
    ensures var taken := Taken(Counted(p, bytes), bytes, n);
      && taken == CountTaken(p, n).(sdnv := Sdnv.State(Sdnv.Done, Sdnv.NoError, bytes), stage := EidRefCount)
      && LeadsOn(taken, p.stage) && Ready(CountTaken(p, n))
  {
    hide Bundle6Parser.AddEidRef;
  }

  lemma FeedRefCount(p: Parser, n: nat, rest: seq<Byte>)
    requires Ready(p) && p.stage == EidRefCount && p.part != Primary && p.sdnv == Sdnv.RESET && n < U16_LIMIT
    ensures Ready(CountTaken(p, n))
    ensures Feed(p, Number(n) + rest) == Feed(CountTaken(p, n), rest)
  {
    hide Feed, Bundle6Parser.Advance, Taken, LeadsOn, Size64, Number;
    CountIsTaken(p, Size64(n), n);
    AdvanceResets(Taken(Counted(p, Size64(n)), Size64(n), n));
    FeedNumber(p, n, rest);
  }

  /** In front of the second number of a reference. */
  predicate AtSsp(p: Parser, dict: seq<Byte>, scheme: nat) {
    && Ready(p) && p.stage == EidRefSsp && p.part != Primary && p.sdnv == Sdnv.RESET && HasDict(p, dict)
    && Get(p, EidRefScheme) == scheme && p.index < p.size < U16_LIMIT
  }

  /** The state behind the second number of a reference. */
  function SspTaken(p: Parser, ssp: nat, eid: seq<Byte>): Parser {
    var next := if p.index + 1 == p.size then DataLength else EidRefScheme;
    p.(numbers := p.numbers[EidRefSsp := ssp], index := p.index + 1, sdnv := Sdnv.RESET,
       open := p.open.(eidRefs := [eid] + p.open.eidRefs), stage := next, next := next)
  }

  lemma AddsRef(q: Parser, dict: seq<Byte>, eid: seq<Byte>)
    requires HasDict(q, dict) && DictionaryKnown(q) && q.index < q.size < U16_LIMIT
    requires ReadEid(dict, |dict|, ReferenceAt(q, EidRefScheme, EidRefSsp)) == Some(eid)
    ensures AddEidRef(q) == q.(index := q.index + 1, open := q.open.(eidRefs := [eid] + q.open.eidRefs),
                               next := if q.index + 1 == q.size then DataLength else q.next)
  {
    hide ReadEid, ReferenceAt, CompressedEid;
  }

  lemma SspStored(p: Parser, dict: seq<Byte>, scheme: nat, bytes: nat, ssp: nat)
    requires AtSsp(p, dict, scheme)
    ensures var q := Set(p.(sdnv := Sdnv.State(Sdnv.Done, Sdnv.NoError, bytes), next := EidRefScheme), EidRefSsp, ssp);
      && HasDict(q, dict) && DictionaryKnown(q) && ReferenceAt(q, EidRefScheme, EidRefSsp) == Reference(scheme, ssp)
      && Counted(p, bytes) == p && DictionaryKnown(p) && q.stage == EidRefSsp
  {
  }

  lemma SspTakenIsReady(p: Parser, dict: seq<Byte>, scheme: nat, ssp: nat, eid: seq<Byte>)
    requires AtSsp(p, dict, scheme)
    ensures Ready(SspTaken(p, ssp, eid)) && SspTaken(p, ssp, eid).next != EidRefSsp
  {
  }

  lemma SspIsTaken(p: Parser, bytes: nat, dict: seq<Byte>, scheme: nat, ssp: nat, eid: seq<Byte>)
    requires AtSsp(p, dict, scheme) && ReadEid(dict, |dict|, Reference(scheme, ssp)) == Some(eid)
    ensures Counted(p, bytes) == p && DictionaryKnown(p)
    ensures var taken := Taken(Counted(p, bytes), bytes, ssp);
      && taken == SspTaken(p, ssp, eid).(sdnv := Sdnv.State(Sdnv.Done, Sdnv.NoError, bytes), stage := EidRefSsp)
      && LeadsOn(taken, p.stage) && Ready(SspTaken(p, ssp, eid)) && SspTaken(p, ssp, eid).next != EidRefSsp
  {
    hide ReadEid, ReferenceAt, Bundle6Parser.AddEidRef, HasDict;
    SspStored(p, dict, scheme, bytes, ssp);
    SspTakenIsReady(p, dict, scheme, ssp, eid);
    var q := Set(p.(sdnv := Sdnv.State(Sdnv.Done, Sdnv.NoError, bytes), next := EidRefScheme), EidRefSsp, ssp);
    AddsRef(q, dict, eid);
    assert Taken(p, bytes, ssp) == AddEidRef(q);
  }

  lemma FeedSsp(p: Parser, dict: seq<Byte>, scheme: nat, ssp: nat, eid: seq<Byte>, rest: seq<Byte>)
    requires AtSsp(p, dict, scheme) && ReadEid(dict, |dict|, Reference(scheme, ssp)) == Some(eid) && ssp < U16_LIMIT
    ensures Ready(SspTaken(p, ssp, eid))
    ensures Feed(p, Number(ssp) + rest) == Feed(SspTaken(p, ssp, eid), rest)
  {
    hide Feed, Bundle6Parser.Advance, Taken, LeadsOn, Size64, Number, Bundle6Parser.Valid, ReadEid;
    SspIsTaken(p, Size64(ssp), dict, scheme, ssp, eid);
    AdvanceResets(Taken(Counted(p, Size64(ssp)), Size64(ssp), ssp));
    FeedNumber(p, ssp, rest);
  }

  /** In front of a reference. */
  predicate AtRef(p: Parser, dict: seq<Byte>) {
    && Ready(p) && p.stage == EidRefScheme && p.part != Primary && p.sdnv == Sdnv.RESET && HasDict(p, dict)
    && p.index < p.size < U16_LIMIT
  }

  lemma SchemeLeadsToSsp(p: Parser, dict: seq<Byte>, info: EidInfo, eid: seq<Byte>)
    requires AtRef(p, dict) && Ready(Behind(p, Size64(info.schemeOffset), info.schemeOffset))
    ensures var q := Behind(p, Size64(info.schemeOffset), info.schemeOffset);
      AtSsp(q, dict, info.schemeOffset) && SspTaken(q, info.sspOffset, eid) == RefTaken(p, info, eid)
  {
    hide Size64, Ready;
  }

  lemma FeedRef(p: Parser, dict: seq<Byte>, info: EidInfo, eid: seq<Byte>, rest: seq<Byte>)
    requires AtRef(p, dict) && info.schemeOffset < U16_LIMIT && info.sspOffset < U16_LIMIT
    requires ReadEid(dict, |dict|, Reference(info.schemeOffset, info.sspOffset)) == Some(eid)
    ensures Ready(RefTaken(p, info, eid))
    ensures Feed(p, InfoBytes(info) + rest) == Feed(RefTaken(p, info, eid), rest)
  {
    hide Feed, Behind, Size64, Number, ReadEid, SspTaken, RefTaken, HasDict, Bundle6Parser.Valid;
    assert InfoBytes(info) + rest == Number(info.schemeOffset) + (Number(info.sspOffset) + rest);
    FeedPlain(p, info.schemeOffset, Number(info.sspOffset) + rest);
    SchemeLeadsToSsp(p, dict, info, eid);
    var q := Behind(p, Size64(info.schemeOffset), info.schemeOffset);
    FeedSsp(q, dict, info.schemeOffset, info.sspOffset, eid, rest);
  }

  /** The number variables behind references. */
  function RefNumbers(numbers: map<Stage, nat>, infos: seq<EidInfo>): map<Stage, nat> {
    if infos == [] then numbers
    else numbers[EidRefScheme := infos[|infos| - 1].schemeOffset][EidRefSsp := infos[|infos| - 1].sspOffset]
  }

  /** The state with `c` references read. */
  function RefsRead(p: Parser, infos: seq<EidInfo>, eids: seq<seq<Byte>>, c: nat): Parser
    requires c <= |infos| == |eids|
  {
    var next := if c == |infos| then DataLength else EidRefScheme;
    p.(numbers := RefNumbers(p.numbers, infos[..c]), size := |infos|, index := c, sdnv := Sdnv.RESET,
       open := p.open.(eidRefs := Reversed(eids[..c])), stage := next, next := next)
  }

  lemma NextRefRead(p: Parser, infos: seq<EidInfo>, eids: seq<seq<Byte>>, c: nat)
    requires c < |infos| == |eids|
    ensures RefTaken(RefsRead(p, infos, eids, c), infos[c], eids[c]) == RefsRead(p, infos, eids, c + 1)
  {
    assert infos[..c + 1][..c] == infos[..c] && eids[..c + 1][..c] == eids[..c];
    var numbers := p.numbers;
    assert RefNumbers(numbers, infos[..c])[EidRefScheme := infos[c].schemeOffset][EidRefSsp := infos[c].sspOffset]
        == RefNumbers(numbers, infos[..c + 1]);
  }

  lemma CountIsNoneRead(p: Parser, infos: seq<EidInfo>, eids: seq<seq<Byte>>)
    requires |infos| == |eids| && p.open.eidRefs == []
    ensures CountTaken(p, |infos|) == RefsRead(p, infos, eids, 0)
  {
    assert infos[..0] == [] && eids[..0] == [];
  }

  lemma RefsReadIsAtRef(p: Parser, dict: seq<Byte>, infos: seq<EidInfo>, eids: seq<seq<Byte>>, c: nat)
    requires c < |infos| == |eids| < U16_LIMIT && p.part != Primary && HasDict(p, dict)
    requires Ready(RefsRead(p, infos, eids, c))
    ensures AtRef(RefsRead(p, infos, eids, c), dict)
  {
    hide Ready, Reversed;
  }

  lemma {:induction false} FeedRefs(p: Parser, dict: seq<Byte>, infos: seq<EidInfo>, eids: seq<seq<Byte>>, c: nat,
                                    rest: seq<Byte>)
    requires Readable(dict, infos, eids) && c <= |infos| && p.part != Primary && HasDict(p, dict)
    requires Ready(RefsRead(p, infos, eids, c))
    ensures Ready(RefsRead(p, infos, eids, |infos|))
    ensures Feed(RefsRead(p, infos, eids, c), InfosBytes(infos[c..]) + rest)
         == Feed(RefsRead(p, infos, eids, |infos|), rest)
    decreases |infos| - c
  {
    hide Feed, RefsRead, RefTaken, ReadEid, InfoBytes, HasDict, Ready, AtRef;
    if c == |infos| {
      assert InfosBytes(infos[c..]) + rest == rest;
    } else {
      var more := InfosBytes(infos[c + 1..]) + rest;
      assert infos[c..][0] == infos[c] && infos[c..][1..] == infos[c + 1..];
      assert InfosBytes(infos[c..]) + rest == InfoBytes(infos[c]) + more;
      RefsReadIsAtRef(p, dict, infos, eids, c);
      FeedRef(RefsRead(p, infos, eids, c), dict, infos[c], eids[c], more);
      NextRefRead(p, infos, eids, c);
      FeedRefs(p, dict, infos, eids, c + 1, rest);
    }
  }

  // ---- Blocks ----

  predicate AtBlock(p: Parser) {
    Ready(p) && p.stage == BlockType && p.part == Generic && p.dataRemaining == 0
  }

  /** The references with which a block arrives: the first ones of the dictionary's list, in reverse. */
  function CameRefs(block: Block, eids: seq<seq<Byte>>): seq<seq<Byte>> {
    if HasEidRefs(block.flags) then Reversed(Front(eids, |block.eidRefs|)) else []
  }

  function Came(block: Block, eids: seq<seq<Byte>>): Block {
    block.(eidRefs := CameRefs(block, eids))
  }

  /** The 32-bit size counter behind a block; the count of references takes its place. */
  function SizeBehind(size: nat, block: Block): nat {
    ((if HasEidRefs(block.flags) then |block.eidRefs| else size) + block.length) % U32_LIMIT
  }

  function BlockBegun(p: Parser, blockType: Byte): Parser {
    p.(stage := BlockFlags, next := BlockFlags, sdnv := Sdnv.RESET,
       part := if blockType == PAYLOAD_BLOCK_TYPE then Payload else Extension,
       open := OpenBlock(blockType, [], [], p.open.last))
  }

  function FlagsTaken(p: Parser, flags: nat): Parser {
    var next := if HasEidRefs(flags) then EidRefCount else DataLength;
    p.(stage := next, next := next, sdnv := Sdnv.RESET,
       numbers := p.numbers[BlockFlags := flags], open := p.open.(last := IsLastBlock(flags)))
  }

  /** The state in front of the length of the data. */
  function HeadTaken(p: Parser, block: Block, infos: seq<EidInfo>, eids: seq<seq<Byte>>): Parser
    requires |infos| == |eids|
  {
    var q := FlagsTaken(BlockBegun(p, block.blockType), block.flags);
    var n := |block.eidRefs|;
    if HasEidRefs(block.flags) then RefsRead(q, Front(infos, n), Front(eids, n), |Front(infos, n)|) else q
  }

  function LengthTaken(p: Parser, length: nat): Parser {
    p.(stage := BlockData, next := BlockData, bulkRead := true, nextBytes := length,
       sdnv := Sdnv.State(Sdnv.Done, Sdnv.NoError, Size64(length)), index := 0,
       dataRemaining := 0, size := (p.size + length) % U32_LIMIT, numbers := p.numbers[DataLength := length])
  }

  /** The state between the head of a block and its data. */
  function AtData(p: Parser, block: Block, infos: seq<EidInfo>, eids: seq<seq<Byte>>): Parser
    requires |infos| == |eids|
  {
    LengthTaken(HeadTaken(p, block, infos, eids), block.length)
  }

  /** The state behind a block that is not the last one. */
  function BehindBlock(p: Parser, block: Block, infos: seq<EidInfo>, eids: seq<seq<Byte>>): Parser
    requires |infos| == |eids|
  {
    var q := AtData(p, block, infos, eids);
    q.(open := q.open.(data := block.data), bulkRead := false, blocks := p.blocks + [Came(block, eids)],
       stage := BlockType, next := BlockType, part := Generic)
  }

  lemma BeginsBlock(p: Parser, blockType: Byte)
    requires AtBlock(p)
    ensures ReadByte(p, blockType) == BlockBegun(p, blockType) && Ready(BlockBegun(p, blockType))
  {
    hide Bundle6Parser.EnterDictionary, Bundle6Parser.EnterBlockData, Bundle6Parser.ReadNumber,
         Bundle6Parser.ReadDictionary, Bundle6Parser.EndBlock, Bundle6Parser.SendBundle;
  }

  lemma FeedBlockType(p: Parser, blockType: Byte, rest: seq<Byte>)
    requires AtBlock(p)
    ensures Ready(BlockBegun(p, blockType))
    ensures Feed(p, [blockType] + rest) == Feed(BlockBegun(p, blockType), rest)
  {
    hide Bundle6Parser.ReadByte, BlockBegun;
    BeginsBlock(p, blockType);
    FeedByte(p, blockType, rest);
  }

  lemma FlagsAreTaken(p: Parser, n: nat, flags: nat)
    requires Ready(p) && p.stage == BlockFlags && p.part != Primary
    ensures var taken := Taken(Counted(p, n), n, flags);
            && taken == FlagsTaken(p, flags).(sdnv := Sdnv.State(Sdnv.Done, Sdnv.NoError, n), stage := BlockFlags)
            && LeadsOn(taken, p.stage)
  {
    hide Bundle6Parser.AddEidRef, HasEidRefs, IsLastBlock;
  }

  lemma FlagsTakenIsReady(p: Parser, flags: nat)
    requires Ready(p) && p.stage == BlockFlags
    ensures Ready(FlagsTaken(p, flags))
    ensures FlagsTaken(p, flags).next == DataLength || FlagsTaken(p, flags).next == EidRefCount
  {
    hide IsLastBlock;
  }

  lemma BlockFlagsAdvance(p: Parser, flags: nat)
    requires Ready(p) && p.stage == BlockFlags && p.part != Primary
    ensures var taken := Taken(Counted(p, Size64(flags)), Size64(flags), flags);
            LeadsOn(taken, p.stage) && Advance(taken) == FlagsTaken(p, flags) && Ready(FlagsTaken(p, flags))
  {
    hide Bundle6Parser.Advance, Taken, LeadsOn, HasEidRefs, IsLastBlock, Size64;
    FlagsAreTaken(p, Size64(flags), flags);
    FlagsTakenIsReady(p, flags);
    AdvanceResets(Taken(Counted(p, Size64(flags)), Size64(flags), flags));
  }

  lemma AdvanceToData(q: Parser)
    requires q.next == BlockData && (q.size + Get(q, DataLength)) % U32_LIMIT <= BUNDLE_MAX_SIZE
    ensures var bytes := Get(q, DataLength);
            Advance(q) == q.(stage := BlockData, bulkRead := true, nextBytes := bytes, index := 0,
                             dataRemaining := 0, size := (q.size + bytes) % U32_LIMIT)
  {
    hide Bundle6Parser.EnterDictionary, Get;
  }

  lemma DataLengthTaken(p: Parser, n: nat, length: nat)
    requires Ready(p) && p.stage == DataLength && p.part != Primary
    ensures var taken := Taken(Counted(p, n), n, length);
            && taken == p.(sdnv := Sdnv.State(Sdnv.Done, Sdnv.NoError, n), next := BlockData,
                           numbers := p.numbers[DataLength := length])
            && LeadsOn(taken, p.stage) && Get(taken, DataLength) == length
  {
    hide Taken;
    TakenPlainly(Counted(p, n), n, length);
  }

  lemma LengthTakenIsValid(p: Parser, length: nat)
    requires Ready(p) && p.stage == DataLength
    ensures Valid(LengthTaken(p, length))
  {
  }

  lemma DataLengthAdvance(p: Parser, length: nat)
    requires Ready(p) && p.stage == DataLength && p.part != Primary
    requires (p.size + length) % U32_LIMIT <= BUNDLE_MAX_SIZE
    ensures var taken := Taken(Counted(p, Size64(length)), Size64(length), length);
            LeadsOn(taken, p.stage) && Advance(taken) == LengthTaken(p, length) && Valid(LengthTaken(p, length))
  {
    hide Bundle6Parser.Advance, Taken, LeadsOn, Get, Size64;
    LengthTakenIsValid(p, length);
    DataLengthTaken(p, Size64(length), length);
    AdvanceToData(Taken(Counted(p, Size64(length)), Size64(length), length));
  }

  lemma FeedBlockFlags(p: Parser, flags: nat, rest: seq<Byte>)
    requires Ready(p) && p.stage == BlockFlags && p.part != Primary && p.sdnv == Sdnv.RESET
    requires flags < 0x100
    ensures Ready(FlagsTaken(p, flags))
    ensures Feed(p, Number(flags) + rest) == Feed(FlagsTaken(p, flags), rest)
  {
    hide Feed, Bundle6Parser.Advance, Bundle6Parser.FinishNumber, HasEidRefs, FlagsTaken;
    BlockFlagsAdvance(p, flags);
    FeedNumber(p, flags, rest);
  }

  lemma FeedDataLength(p: Parser, length: nat, rest: seq<Byte>)
    requires Ready(p) && p.stage == DataLength && p.part != Primary && p.sdnv == Sdnv.RESET
    requires (p.size + length) % U32_LIMIT <= BUNDLE_MAX_SIZE && length < U64_LIMIT
    ensures Valid(LengthTaken(p, length)) && LengthTaken(p, length).status == Good
    ensures Feed(p, Number(length) + rest) == Feed(LengthTaken(p, length), rest)
  {
    DataLengthAdvance(p, length);
    hide Feed, Bundle6Parser.Advance, Bundle6Parser.FinishNumber;
    FeedNumber(p, length, rest);
  }

  lemma ReadableFront(dict: seq<Byte>, infos: seq<EidInfo>, eids: seq<seq<Byte>>, n: nat)
    requires Readable(dict, infos, eids)
    ensures Readable(dict, Front(infos, n), Front(eids, n))
  {
    hide ReadEid;
  }

  lemma FlagsTakenFacts(p: Parser, block: Block, dict: seq<Byte>)
    requires HasDict(p, dict)
    ensures var q := FlagsTaken(BlockBegun(p, block.blockType), block.flags);
      && q.part != Primary && q.sdnv == Sdnv.RESET && q.open.eidRefs == [] && q.size == p.size && HasDict(q, dict)
      && q.stage == if HasEidRefs(block.flags) then EidRefCount else DataLength
  {
    hide HasEidRefs, IsLastBlock;
  }

  lemma RefsReadFacts(p: Parser, infos: seq<EidInfo>, eids: seq<seq<Byte>>)
    requires |infos| == |eids|
    ensures var q := RefsRead(p, infos, eids, |infos|);
      q.stage == DataLength && q.part == p.part && q.sdnv == Sdnv.RESET && q.size == |infos|
  {
    hide Reversed, RefNumbers;
  }

  /** Behind the flags, the references of a block, if it has any. */
  lemma FeedRefPart(p: Parser, block: Block, dict: seq<Byte>, infos: seq<EidInfo>, eids: seq<seq<Byte>>,
                    rest: seq<Byte>)
    requires AtBlock(p) && HasDict(p, dict) && Readable(dict, infos, eids) && |block.eidRefs| <= |infos|
    requires Ready(FlagsTaken(BlockBegun(p, block.blockType), block.flags))
    ensures var q := HeadTaken(p, block, infos, eids);
      && Ready(q) && q.stage == DataLength && q.part != Primary && q.sdnv == Sdnv.RESET
      && (q.size + block.length) % U32_LIMIT == SizeBehind(p.size, block)
      && Feed(FlagsTaken(BlockBegun(p, block.blockType), block.flags), RefPart(infos, block) + rest) == Feed(q, rest)
  {
    hide Feed, RefsRead, HasEidRefs, Ready, HasDict, FlagsTaken, BlockBegun, Number, InfosBytes, Readable;
    var q := FlagsTaken(BlockBegun(p, block.blockType), block.flags);
    FlagsTakenFacts(p, block, dict);
    if HasEidRefs(block.flags) {
      var n := |block.eidRefs|;
      var first, ids := Front(infos, n), Front(eids, n);
      ReadableFront(dict, infos, eids, n);
      ReadableMeans(dict, infos, eids);
      assert |first| == n == |ids|;
      assert RefPart(infos, block) + rest == Number(n) + (InfosBytes(first) + rest);
      FeedRefCount(q, n, InfosBytes(first) + rest);
      CountIsNoneRead(q, first, ids);
      assert first[0..] == first;
      FeedRefs(q, dict, first, ids, 0, rest);
      RefsReadFacts(q, first, ids);
    } else {
      assert RefPart(infos, block) + rest == rest;
    }
  }

  lemma ReadableMeans(dict: seq<Byte>, infos: seq<EidInfo>, eids: seq<seq<Byte>>)
    requires Readable(dict, infos, eids)
    ensures |infos| == |eids| < U16_LIMIT
  {
  }

  /** The head of a block leads to a bulk read of its data. */
  lemma FeedBlockHead(p: Parser, block: Block, dict: seq<Byte>, infos: seq<EidInfo>, eids: seq<seq<Byte>>,
                      rest: seq<Byte>)
    requires AtBlock(p) && ValidBlock(block) && SizeBehind(p.size, block) <= BUNDLE_MAX_SIZE
    requires HasDict(p, dict) && Readable(dict, infos, eids) && |block.eidRefs| <= |infos|
    ensures |infos| == |eids| && Valid(AtData(p, block, infos, eids)) && AtData(p, block, infos, eids).status == Good
    ensures Feed(p, [block.blockType] + Number(block.flags) + RefPart(infos, block) + Number(block.length) + rest)
         == Feed(AtData(p, block, infos, eids), rest)
  {
    hide Feed, HasEidRefs, IsLastBlock, LengthTaken, HeadTaken, FlagsTaken, BlockBegun, Bundle6Parser.Valid, RefPart,
         Number, HasDict, Readable, SizeBehind;
    ReadableMeans(dict, infos, eids);
    var r3 := Number(block.length) + rest;
    var r2 := RefPart(infos, block) + r3;
    var r1 := Number(block.flags) + r2;
    assert [block.blockType] + Number(block.flags) + RefPart(infos, block) + Number(block.length) + rest
        == [block.blockType] + r1;
    FeedBlockType(p, block.blockType, r1);
    BlockBegunFacts(p, block.blockType);
    FeedBlockFlags(BlockBegun(p, block.blockType), block.flags, r2);
    FeedRefPart(p, block, dict, infos, eids, r3);
    FeedDataLength(HeadTaken(p, block, infos, eids), block.length, rest);
  }

  lemma BlockBegunFacts(p: Parser, blockType: Byte)
    ensures var q := BlockBegun(p, blockType); q.stage == BlockFlags && q.part != Primary && q.sdnv == Sdnv.RESET
  {
  }

  lemma AdvanceFromBlock(r: Parser)
    requires r.next == BlockType || r.next == Finished
    ensures Advance(r) == if r.next == Finished then SendBundle(r.(stage := Finished))
                          else r.(stage := BlockType, part := Generic)
  {
    hide Bundle6Parser.EnterDictionary, Bundle6Parser.EnterBlockData, Bundle6Parser.SendBundle;
  }

  /** The zero byte behind the data ends the block. */
  lemma TriggerEndsBlock(q: Parser)
    requires Valid(q) && q.stage == BlockData && q.dataRemaining == 0 && q.status == Good
    requires q.part == Payload || q.part == Extension
    ensures ReadByte(q, 0) == Advance(EndBlock(q))
  {
    hide Bundle6Parser.Advance, Get;
  }

  /** The data of a block, and what follows it. */
  lemma FinishBlock(q: Parser, data: seq<Byte>)
    requires Valid(q) && q.bulkRead && q.stage == BlockData && q.dataRemaining == 0 && q.status == Good
    requires q.part == Payload || q.part == Extension
    ensures var block := Block(q.open.blockType, Get(q, BlockFlags), q.open.eidRefs, Get(q, DataLength), data);
            var r := q.(open := q.open.(data := data), bulkRead := false, blocks := q.blocks + [block]);
            FinishBulk(q, data)
            == if q.open.last then SendBundle(r.(stage := Finished, next := Finished))
               else r.(stage := BlockType, next := BlockType, part := Generic)
  {
    StillValid(q, data);
    hide Bundle6Parser.ReadByte, Bundle6Parser.Advance, Bundle6Parser.SendBundle, Bundle6Parser.Valid, Get;
    var filled := q.(open := q.open.(data := data), bulkRead := false);
    SameNumbers(q, filled, BlockFlags);
    SameNumbers(q, filled, DataLength);
    TriggerEndsBlock(filled);
    AdvanceFromBlock(EndBlock(filled));
  }

  lemma StillValid(q: Parser, data: seq<Byte>)
    requires Valid(q) && q.stage == BlockData
    ensures Valid(q.(open := q.open.(data := data), bulkRead := false))
  {
  }

  /** What the head of a block leaves alone, and what it sets. */
  lemma HeadTakenFacts(p: Parser, block: Block, infos: seq<EidInfo>, eids: seq<seq<Byte>>)
    requires |infos| == |eids|
    ensures var q := HeadTaken(p, block, infos, eids);
      && q.part == (if block.blockType == PAYLOAD_BLOCK_TYPE then Payload else Extension)
      && q.open == OpenBlock(block.blockType, CameRefs(block, eids), [], IsLastBlock(block.flags))
      && q == p.(part := q.part, open := q.open, stage := q.stage, next := q.next, sdnv := q.sdnv, numbers := q.numbers,
                 size := q.size, index := q.index)
      && BlockFlags in q.numbers && q.numbers[BlockFlags] == block.flags
      && (forall stage :: stage != BlockFlags && stage != EidRefScheme && stage != EidRefSsp ==>
            && (stage in q.numbers <==> stage in p.numbers)
            && (stage in p.numbers ==> q.numbers[stage] == p.numbers[stage]))
  {
    hide IsLastBlock, HasEidRefs;
    var n := |block.eidRefs|;
    assert Front(eids, n)[..|Front(eids, n)|] == Front(eids, n);
    assert Front(infos, n)[..|Front(infos, n)|] == Front(infos, n);
  }

  lemma AtDataFacts(p: Parser, block: Block, infos: seq<EidInfo>, eids: seq<seq<Byte>>)
    requires AtBlock(p) && |infos| == |eids|
    ensures var q := AtData(p, block, infos, eids);
            && q.bulkRead && q.nextBytes == block.length && q.stage == BlockData && q.dataRemaining == 0
            && q.status == Good && q.part == (if block.blockType == PAYLOAD_BLOCK_TYPE then Payload else Extension)
            && Get(q, BlockFlags) == block.flags && Get(q, DataLength) == block.length
            && q.open == OpenBlock(block.blockType, CameRefs(block, eids), [], IsLastBlock(block.flags))
            && q.blocks == p.blocks
  {
    hide IsLastBlock, HeadTaken, CameRefs;
    HeadTakenFacts(p, block, infos, eids);
  }

  /** What a block sets: everything else is as it was. */
  lemma BehindBlockParts(p: Parser, block: Block, infos: seq<EidInfo>, eids: seq<seq<Byte>>)
    requires |infos| == |eids| && |block.eidRefs| <= |infos|
    ensures var q := BehindBlock(p, block, infos, eids);
      && q == p.(stage := BlockType, next := BlockType, part := Generic, bulkRead := false, dataRemaining := 0,
                 open := q.open, sdnv := q.sdnv, numbers := q.numbers, size := SizeBehind(p.size, block), index := 0,
                 nextBytes := block.length, blocks := p.blocks + [Came(block, eids)])
      && (forall stage :: stage != BlockFlags && stage != EidRefScheme && stage != EidRefSsp && stage != DataLength ==>
            && (stage in q.numbers <==> stage in p.numbers)
            && (stage in p.numbers ==> q.numbers[stage] == p.numbers[stage]))
  {
    hide IsLastBlock, CameRefs, HasEidRefs, HeadTaken, SizeBehind;
    SizeOfHead(p, block, infos, eids);
    HeadTakenFacts(p, block, infos, eids);
  }

  lemma SameGet(p: Parser, q: Parser, stage: Stage)
    requires stage != EidRefCount && (stage in q.numbers <==> stage in p.numbers)
    requires stage in p.numbers ==> q.numbers[stage] == p.numbers[stage]
    ensures Get(q, stage) == Get(p, stage)
  {
  }

  /** The parser behind a block: ready for another one, with the primary block's values as they were. */
  lemma BehindBlockFacts(p: Parser, block: Block, dict: seq<Byte>, infos: seq<EidInfo>, eids: seq<seq<Byte>>)
    requires AtBlock(p) && |infos| == |eids| && HasDict(p, dict) && |block.eidRefs| <= |infos|
    ensures var q := BehindBlock(p, block, infos, eids);
      && AtBlock(q) && HasDict(q, dict) && q.size == SizeBehind(p.size, block)
      && q.error == p.error && q.primaryRemaining == p.primaryRemaining && q.blocks == p.blocks + [Came(block, eids)]
      && Assemble(q) == Assemble(p).(blocks := p.blocks + [Came(block, eids)])
  {
    hide BehindBlock, Came, SizeBehind, Get;
    BehindBlockParts(p, block, infos, eids);
    var q := BehindBlock(p, block, infos, eids);
    SameGet(p, q, DictLength);
    SameGet(p, q, ProcFlags);
    SameGet(p, q, Timestamp);
    SameGet(p, q, SequenceNum);
    SameGet(p, q, Lifetime);
    SameGet(p, q, FragmentOffset);
    SameGet(p, q, AduLength);
    SameGet(p, q, PrimaryLength);
  }

  lemma SizeOfHead(p: Parser, block: Block, infos: seq<EidInfo>, eids: seq<seq<Byte>>)
    requires |infos| == |eids| && |block.eidRefs| <= |infos|
    ensures (HeadTaken(p, block, infos, eids).size + block.length) % U32_LIMIT == SizeBehind(p.size, block)
  {
    hide IsLastBlock, HasEidRefs, Reversed;
  }

  lemma BlockParts(infos: seq<EidInfo>, block: Block, rest: seq<Byte>)
    requires ValidBlock(block)
    ensures BlockBytes(infos, block) + rest
         == [block.blockType] + Number(block.flags) + RefPart(infos, block) + Number(block.length) + (block.data + rest)
    ensures |block.data| == block.length
    ensures (block.data + rest)[..block.length] == block.data && (block.data + rest)[block.length..] == rest
  {
    hide Number, HasEidRefs, RefPart;
  }

  lemma FeedBulk(q: Parser, input: seq<Byte>)
    requires Valid(q) && q.status == Good && q.bulkRead && q.nextBytes <= |input|
    ensures var r := FinishBulk(q, input[..q.nextBytes]);
            (r.status == Good ==> Valid(r)) && Feed(q, input) == Feed(r, input[q.nextBytes..])
  {
    hide FinishBulk, Bundle6Parser.ReadByte, Bundle6Parser.Valid;
    FinishBulkKeepsValid(q, input[..q.nextBytes]);
  }

  /** The state behind a block, whether it is the last one or not. */
  function AfterBlock(p: Parser, block: Block, infos: seq<EidInfo>, eids: seq<seq<Byte>>): Parser
    requires |infos| == |eids|
  {
    if IsLastBlock(block.flags) then
      SendBundle(BehindBlock(p, block, infos, eids).(
                   stage := Finished, next := Finished,
                   part := if block.blockType == PAYLOAD_BLOCK_TYPE then Payload else Extension))
    else BehindBlock(p, block, infos, eids)
  }

  lemma FinishesAfterBlock(p: Parser, block: Block, infos: seq<EidInfo>, eids: seq<seq<Byte>>)
    requires AtBlock(p) && |infos| == |eids| && Valid(AtData(p, block, infos, eids))
    ensures FinishBulk(AtData(p, block, infos, eids), block.data) == AfterBlock(p, block, infos, eids)
  {
    hide FinishBulk, Get, IsLastBlock, Bundle6Parser.SendBundle, Bundle6Parser.Valid, AtBlock, AtData, CameRefs;
    AtDataFacts(p, block, infos, eids);
    FinishBlock(AtData(p, block, infos, eids), block.data);
    assert Block(block.blockType, block.flags, CameRefs(block, eids), block.length, block.data) == Came(block, eids);
  }

  lemma FeedBlock(p: Parser, block: Block, dict: seq<Byte>, infos: seq<EidInfo>, eids: seq<seq<Byte>>, rest: seq<Byte>)
    requires AtBlock(p) && ValidBlock(block) && SizeBehind(p.size, block) <= BUNDLE_MAX_SIZE
    requires HasDict(p, dict) && Readable(dict, infos, eids) && |block.eidRefs| <= |infos|
    ensures |infos| == |eids|
    ensures AfterBlock(p, block, infos, eids).status == Good ==> Valid(AfterBlock(p, block, infos, eids))
    ensures Feed(p, BlockBytes(infos, block) + rest) == Feed(AfterBlock(p, block, infos, eids), rest)
  {
    hide Feed, FinishBulk, Bundle6Parser.Valid, AtBlock, AtData, AfterBlock, ValidBlock, BlockBytes, Number, RefPart,
         HasDict, Readable, SizeBehind;
    BlockParts(infos, block, rest);
    FeedBlockHead(p, block, dict, infos, eids, block.data + rest);
    AtDataFacts(p, block, infos, eids);
    FeedBulk(AtData(p, block, infos, eids), block.data + rest);
    FinishesAfterBlock(p, block, infos, eids);
  }

  /** All blocks with the references with which they arrive. */
  function CameAll(blocks: seq<Block>, eids: seq<seq<Byte>>): (came: seq<Block>)
    ensures |came| == |blocks|
  {
    if blocks == [] then [] else [Came(blocks[0], eids)] + CameAll(blocks[1..], eids)
  }

  /** The parser's size counter is within its limit behind each block. */
  predicate RoomFor(size: nat, blocks: seq<Block>)
    decreases |blocks|
  {
    blocks == [] ||
    (SizeBehind(size, blocks[0]) <= BUNDLE_MAX_SIZE && RoomFor(SizeBehind(size, blocks[0]), blocks[1..]))
  }

  /** The last-block flag is where section 4.5.2 of RFC 5050 wants it. */
  predicate LastFlagAtEnd(blocks: seq<Block>) {
    blocks != [] &&
    forall i :: 0 <= i < |blocks| ==> (IsLastBlock(blocks[i].flags) <==> i == |blocks| - 1)
  }

  predicate HasPayload(blocks: seq<Block>) {
    exists i :: 0 <= i < |blocks| && blocks[i].blockType == PAYLOAD_BLOCK_TYPE
  }

  /** The blocks as a stretch of the bundle: valid, with no more references each than there are. */
  predicate Sendables(blocks: seq<Block>, infos: seq<EidInfo>) {
    forall i :: 0 <= i < |blocks| ==> ValidBlock(blocks[i]) && |blocks[i].eidRefs| <= |infos|
  }

  /** The outcome of all blocks, given the parser state in front of them. */
  ghost predicate BlocksSent(p: Parser, blocks: seq<Block>, q: Parser) {
    var all := p.blocks + blocks;
    && q.status == Done && q.error == p.error && q.primaryRemaining == p.primaryRemaining
    && q.sent == if HasPayload(all) then Some(Assemble(p).(blocks := all)) else None
  }

  lemma BlocksSentStep(p: Parser, p': Parser, first: Block, blocks: seq<Block>, q: Parser)
    requires p'.error == p.error && p'.primaryRemaining == p.primaryRemaining && p'.blocks == p.blocks + [first]
    requires Assemble(p') == Assemble(p).(blocks := p.blocks + [first])
    requires BlocksSent(p', blocks, q)
    ensures BlocksSent(p, [first] + blocks, q)
  {
    hide Assemble;
    assert p.blocks + [first] + blocks == p.blocks + ([first] + blocks);
  }

  lemma FirstOfMany(blocks: seq<Block>)
    requires |blocks| > 1 && LastFlagAtEnd(blocks)
    ensures !IsLastBlock(blocks[0].flags) && LastFlagAtEnd(blocks[1..])
  {
  }

  lemma FirstBlock(blocks: seq<Block>, infos: seq<EidInfo>, size: nat)
    requires LastFlagAtEnd(blocks) && Sendables(blocks, infos) && RoomFor(size, blocks)
    ensures blocks != [] && ValidBlock(blocks[0]) && |blocks[0].eidRefs| <= |infos|
    ensures SizeBehind(size, blocks[0]) <= BUNDLE_MAX_SIZE && RoomFor(SizeBehind(size, blocks[0]), blocks[1..])
    ensures Sendables(blocks[1..], infos)
    ensures IsLastBlock(blocks[0].flags) <==> |blocks| == 1
    ensures |blocks| == 1 ==> blocks == [blocks[0]] && blocks[1..] == []
  {
    hide IsLastBlock, ValidBlock, SizeBehind;
  }

  lemma BlocksParts(infos: seq<EidInfo>, blocks: seq<Block>, rest: seq<Byte>)
    requires blocks != []
    ensures BlocksBytes(infos, blocks) + rest
         == BlockBytes(infos, blocks[0]) + (BlocksBytes(infos, blocks[1..]) + rest)
  {
    hide BlockBytes;
    assert BlocksBytes(infos, blocks) == BlockBytes(infos, blocks[0]) + BlocksBytes(infos, blocks[1..]);
  }

  lemma AtBlockIsValid(p: Parser)
    requires AtBlock(p)
    ensures Valid(p)
  {
  }

  lemma CameFirst(blocks: seq<Block>, eids: seq<seq<Byte>>)
    requires blocks != []
    ensures CameAll(blocks, eids) == [Came(blocks[0], eids)] + CameAll(blocks[1..], eids)
    ensures |blocks| == 1 ==> CameAll(blocks, eids) == [Came(blocks[0], eids)]
  {
    hide Came;
  }

  /** All blocks up to the end of the bundle. */
  lemma {:induction false} FeedBlocks(p: Parser, blocks: seq<Block>, dict: seq<Byte>, infos: seq<EidInfo>,
                                      eids: seq<seq<Byte>>, rest: seq<Byte>)
    requires AtBlock(p) && LastFlagAtEnd(blocks) && Sendables(blocks, infos) && RoomFor(p.size, blocks)
    requires HasDict(p, dict) && Readable(dict, infos, eids)
    ensures var (q, left) := Feed(p, BlocksBytes(infos, blocks) + rest);
            BlocksSent(p, CameAll(blocks, eids), q) && left == rest
    decreases |blocks|
  {
    hide *;
    FirstBlock(blocks, infos, p.size);
    ReadableMeans(dict, infos, eids);
    CameFirst(blocks, eids);
    BlocksParts(infos, blocks, rest);
    AtBlockIsValid(p);
    var block := blocks[0];
    FeedBlock(p, block, dict, infos, eids, BlocksBytes(infos, blocks[1..]) + rest);
    if |blocks| == 1 {
      IsAfterBlock(p, block, infos, eids);
      LastBlockSends(p, block, dict, infos, eids, rest);
    } else {
      FirstOfMany(blocks);
      IsAfterBlock(p, block, infos, eids);
      BehindBlockFacts(p, block, dict, infos, eids);
      var next := BehindBlock(p, block, infos, eids);
      FeedBlocks(next, blocks[1..], dict, infos, eids, rest);
      var q := Feed(p, BlocksBytes(infos, blocks) + rest).0;
      BlocksSentStep(p, next, Came(block, eids), CameAll(blocks[1..], eids), q);
    }
  }

  lemma IsAfterBlock(p: Parser, block: Block, infos: seq<EidInfo>, eids: seq<seq<Byte>>)
    requires |infos| == |eids|
    ensures IsLastBlock(block.flags) ==>
      AfterBlock(p, block, infos, eids) == SendBundle(LastBlock(p, block, infos, eids))
    ensures !IsLastBlock(block.flags) ==> AfterBlock(p, block, infos, eids) == BehindBlock(p, block, infos, eids)
  {
    hide BehindBlock, IsLastBlock, Bundle6Parser.SendBundle;
  }

  /** The state at the end of the last block, before the bundle is handed over. */
  function LastBlock(p: Parser, block: Block, infos: seq<EidInfo>, eids: seq<seq<Byte>>): Parser
    requires |infos| == |eids|
  {
    BehindBlock(p, block, infos, eids).(
      stage := Finished, next := Finished,
      part := if block.blockType == PAYLOAD_BLOCK_TYPE then Payload else Extension)
  }

  lemma Sends(p: Parser)
    ensures var q := SendBundle(p);
            && q.status == Done && q.error == p.error && q.primaryRemaining == p.primaryRemaining
            && q.sent == if HasPayload(p.blocks) then Some(Assemble(p)) else None
  {
    hide Assemble;
  }

  lemma AssembleLast(p: Parser, block: Block, infos: seq<EidInfo>, eids: seq<seq<Byte>>)
    requires |infos| == |eids|
    ensures var b, q := BehindBlock(p, block, infos, eids), LastBlock(p, block, infos, eids);
      && Assemble(q) == Assemble(b) && q.blocks == b.blocks
      && q.error == b.error && q.primaryRemaining == b.primaryRemaining
  {
    hide BehindBlock;
  }

  lemma FeedStopped(q: Parser, rest: seq<Byte>)
    requires q.status != Good
    ensures Feed(q, rest) == (q, rest)
  {
  }

  lemma SentIsAll(p: Parser, block: Block, q: Parser)
    requires q.status == Done && q.error == p.error && q.primaryRemaining == p.primaryRemaining
    requires q.sent == if HasPayload(p.blocks + [block]) then Some(Assemble(p).(blocks := p.blocks + [block])) else None
    ensures BlocksSent(p, [block], q)
  {
    hide HasPayload, Assemble;
  }

  lemma LastBlockSends(p: Parser, block: Block, dict: seq<Byte>, infos: seq<EidInfo>, eids: seq<seq<Byte>>,
                       rest: seq<Byte>)
    requires AtBlock(p) && |infos| == |eids| && HasDict(p, dict) && |block.eidRefs| <= |infos|
    ensures var q := SendBundle(LastBlock(p, block, infos, eids));
            && q.status == Done && Feed(q, BlocksBytes(infos, []) + rest) == (q, rest)
            && BlocksSent(p, [Came(block, eids)], q)
  {
    NoBlocksBytes(infos, rest);
    hide *;
    BehindBlockFacts(p, block, dict, infos, eids);
    AssembleLast(p, block, infos, eids);
    var last := LastBlock(p, block, infos, eids);
    Sends(last);
    FeedStopped(SendBundle(last), rest);
    SentIsAll(p, Came(block, eids), SendBundle(last));
  }

  lemma NoBlocksBytes(infos: seq<EidInfo>, rest: seq<Byte>)
    ensures BlocksBytes(infos, []) + rest == rest
  {
    assert [] + rest == rest;
  }

  // ---- The round trip ----

  /** Milliseconds that are left of a time sent in seconds. */
  function Floor(ms: nat): nat {
    ms / 1000 * 1000
  }

  lemma FloorTwice(ms: nat)
    ensures Floor(Floor(ms)) == Floor(ms)
  {
  }

  /** The identifiers of all references, as a receiver reads them. */
  function CanonicalRefs(refs: seq<seq<Byte>>): (eids: seq<seq<Byte>>)
    ensures |eids| == |refs|
  {
    seq(|refs|, i requires 0 <= i < |refs| => CanonicalEid(Some(refs[i])))
  }

  /**
   The bundle that arrives: flags masked, identifiers canonical, times floored
   to seconds, fragment fields only for a fragment, and for each block as many of the
   bundle's first endpoint references as it has, in reverse.
   */
  function Received(b: Bundle): Bundle {
    Bundle(b.version, MaskFlags(b.procFlags),
           Some(CanonicalEid(b.destination)), Some(CanonicalEid(b.source)),
           Some(CanonicalEid(b.reportTo)), Some(CanonicalEid(b.custodian)),
           Floor(b.creationMs), b.sequence, Floor(b.lifetimeMs),
           if b.IsFragment() then b.fragmentOffset else 0,
           if b.IsFragment() then b.totalAduLength else 0,
           b.primaryLength, CameAll(b.blocks, CanonicalRefs(AllRefs(b.blocks))))
  }

  /** The number variables when the primary block has been read. */
  function PrimaryNumbers(b: Bundle): map<Stage, nat> {
    var head := map[ProcFlags := MaskFlags(b.procFlags), PrimaryLength := b.primaryLength];
    var known := TimeNumbers(ReferenceNumbers(head, DescriptorOf(b)), b)[DictLength := DescriptorOf(b).length];
    if b.IsFragment() then known[FragmentOffset := b.fragmentOffset][AduLength := b.totalAduLength] else known
  }

  /** The parser state in front of the dictionary. */
  function AtDictStart(b: Bundle, structSize: nat): Parser {
    var d := DescriptorOf(b);
    var head := map[ProcFlags := MaskFlags(b.procFlags), PrimaryLength := b.primaryLength];
    Reset(structSize).(
      version := b.version, stage := Dictionary, next := Dictionary,
      numbers := TimeNumbers(ReferenceNumbers(head, d), b)[DictLength := d.length],
      sdnv := Sdnv.State(Sdnv.Done, Sdnv.NoError, Size64(d.length)),
      primaryRemaining := d.length + FragmentFieldsSize(b),
      dataRemaining := d.length, size := structSize + d.length + 1)
  }

  /** The parser state behind the primary length field. */
  function AtReferences(b: Bundle, structSize: nat): Parser {
    Reset(structSize).(
      version := b.version, stage := DestinationScheme, next := DestinationScheme,
      numbers := map[ProcFlags := MaskFlags(b.procFlags), PrimaryLength := b.primaryLength],
      primaryRemaining := b.primaryLength)
  }

  /** The parser state behind the version byte. */
  function AtFlags(b: Bundle, structSize: nat): Parser {
    Reset(structSize).(version := b.version, stage := ProcFlags, next := ProcFlags)
  }

  lemma FlagsCanBeRead(b: Bundle, structSize: nat)
    requires Ready(AtFlags(b, structSize))
    ensures var p, v := AtFlags(b, structSize), MaskFlags(b.procFlags);
            && AtNumber(p, v) && p.sdnv == Sdnv.RESET && Allowed(p, Size64(v)) && PlainStage(p.stage)
  {
    hide MaskFlags, Size64, Ready;
    MaskKeepsFragmentFlag(b.procFlags);
  }

  lemma LengthCanBeRead(b: Bundle, structSize: nat, n: nat)
    requires b.primaryLength < U16_LIMIT
    ensures var q := Behind(AtFlags(b, structSize), n, MaskFlags(b.procFlags));
            && q.sdnv == Sdnv.RESET && q.stage == PrimaryLength && (Ready(q) ==> AtNumber(q, b.primaryLength))
            && Behind(q, Size64(b.primaryLength), b.primaryLength).(primaryRemaining := b.primaryLength)
               == AtReferences(b, structSize)
  {
    hide MaskFlags, Size64, Ready;
    assert map[][ProcFlags := MaskFlags(b.procFlags)][PrimaryLength := b.primaryLength]
        == map[ProcFlags := MaskFlags(b.procFlags), PrimaryLength := b.primaryLength];
  }

  lemma HeadParts(b: Bundle, rest: seq<Byte>)
    ensures HeadBytes(b) + rest
         == [b.version] + (Number(MaskFlags(b.procFlags)) + (Number(b.primaryLength) + rest))
  {
    hide Number, MaskFlags;
  }

  lemma FeedHead(b: Bundle, structSize: nat, rest: seq<Byte>)
    requires b.primaryLength < U16_LIMIT
    ensures Ready(AtReferences(b, structSize))
    ensures Feed(Reset(structSize), HeadBytes(b) + rest) == Feed(AtReferences(b, structSize), rest)
  {
    ResetIsReady(structSize);
    hide Feed, MaskFlags, Number, Size64, HeadBytes, AtReferences, Behind, AtNumber, Allowed, PlainStage, Ready,
         Bundle6Parser.Valid, Reset;
    var v := MaskFlags(b.procFlags);
    HeadParts(b, rest);
    FeedVersion(structSize, b.version, Number(v) + (Number(b.primaryLength) + rest));
    FlagsCanBeRead(b, structSize);
    FeedPlain(AtFlags(b, structSize), v, Number(b.primaryLength) + rest);
    LengthCanBeRead(b, structSize, Size64(v));
    FeedPrimaryLength(Behind(AtFlags(b, structSize), Size64(v), v), b.primaryLength, rest);
  }

  lemma ResetIsReady(structSize: nat)
    ensures Valid(Reset(structSize)) && Ready(Reset(structSize))
  {
  }

  /** The parser state in front of the times. */
  function AtTimes(b: Bundle, structSize: nat): Parser {
    var p := AtReferences(b, structSize);
    var n := |ReferenceBytes(DescriptorOf(b))|;
    p.(numbers := ReferenceNumbers(p.numbers, DescriptorOf(b)), stage := Timestamp, next := Timestamp,
       primaryRemaining := if p.primaryRemaining < n then 0 else p.primaryRemaining - n)
  }

  /** The parser state in front of the dictionary length. */
  function AtDictLength(b: Bundle, structSize: nat): Parser {
    var p := AtTimes(b, structSize);
    var n := |TimeBytes(b)|;
    p.(numbers := TimeNumbers(p.numbers, b), stage := DictLength, next := DictLength,
       primaryRemaining := if p.primaryRemaining < n then 0 else p.primaryRemaining - n)
  }

  lemma ReferencesFed(b: Bundle, structSize: nat, rest: seq<Byte>)
    requires Ready(AtReferences(b, structSize)) && InfosFit(DescriptorOf(b))
    requires |ReferenceBytes(DescriptorOf(b))| <= b.primaryLength
    ensures Ready(AtTimes(b, structSize))
    ensures Feed(AtReferences(b, structSize), ReferenceBytes(DescriptorOf(b)) + rest)
         == Feed(AtTimes(b, structSize), rest)
  {
    hide Feed, DescriptorOf, ReferenceBytes, ReferenceNumbers, Bundle6Parser.Valid, InfosFit, Ready;
    FeedReferences(AtReferences(b, structSize), DescriptorOf(b), rest);
  }

  lemma TimesFed(b: Bundle, structSize: nat, rest: seq<Byte>)
    requires Ready(AtTimes(b, structSize)) && NumbersFit(b)
    requires |ReferenceBytes(DescriptorOf(b))| + |TimeBytes(b)| <= b.primaryLength
    ensures Ready(AtDictLength(b, structSize))
    ensures Feed(AtTimes(b, structSize), TimeBytes(b) + rest) == Feed(AtDictLength(b, structSize), rest)
  {
    hide Feed, DescriptorOf, TimeBytes, TimeNumbers, ReferenceNumbers, NumbersFit, Ready, ReferenceBytes, MaskFlags;
    FeedTimes(AtTimes(b, structSize), b, rest);
  }

  lemma DictLengthFed(b: Bundle, structSize: nat, rest: seq<Byte>)
    requires Ready(AtDictLength(b, structSize)) && 0 < DescriptorOf(b).length < U16_LIMIT
    requires b.primaryLength == |ReferenceBytes(DescriptorOf(b))| + |TimeBytes(b)| + Size64(DescriptorOf(b).length)
                                + DescriptorOf(b).length + FragmentFieldsSize(b)
    requires structSize + DescriptorOf(b).length + 1 <= BUNDLE_MAX_SIZE
    ensures Ready(AtDictStart(b, structSize))
    ensures Feed(AtDictLength(b, structSize), Number(DescriptorOf(b).length) + rest)
         == Feed(AtDictStart(b, structSize), rest)
  {
    hide Feed, DescriptorOf, TimeBytes, TimeNumbers, ReferenceNumbers, Ready, ReferenceBytes, MaskFlags, Size64,
         FragmentFieldsSize, Number;
    FeedDictLength(AtDictLength(b, structSize), DescriptorOf(b).length, rest);
    assert AtDictionary(AtDictLength(b, structSize), DescriptorOf(b).length) == AtDictStart(b, structSize);
  }

  lemma InfosBound(d: DictDescriptor)
    requires InfosFit(d)
    ensures d.length < U16_LIMIT
  {
  }

  /** The bytes in front of the dictionary. */
  lemma FeedUpToDictionary(b: Bundle, structSize: nat, rest: seq<Byte>)
    requires NumbersFit(b) && InfosFit(DescriptorOf(b)) && DescriptorOf(b).length > 0
    requires b.primaryLength == PrimaryLengthOf(b) < U16_LIMIT
    requires structSize + DescriptorOf(b).length + 1 <= BUNDLE_MAX_SIZE
    ensures Ready(AtDictStart(b, structSize))
    ensures var d := DescriptorOf(b);
            Feed(Reset(structSize), HeadBytes(b) + ReferenceBytes(d) + TimeBytes(b) + Number(d.length) + rest)
            == Feed(AtDictStart(b, structSize), rest)
  {
    hide *;
    LengthSplits(b);
    InfosBound(DescriptorOf(b));
    var d := DescriptorOf(b);
    var r3 := Number(d.length) + rest;
    var r2 := TimeBytes(b) + r3;
    var r1 := ReferenceBytes(d) + r2;
    assert HeadBytes(b) + ReferenceBytes(d) + TimeBytes(b) + Number(d.length) + rest == HeadBytes(b) + r1;
    FeedHead(b, structSize, r1);
    ReferencesFed(b, structSize, r2);
    TimesFed(b, structSize, r3);
    DictLengthFed(b, structSize, rest);
  }

  lemma LengthSplits(b: Bundle)
    ensures var d := DescriptorOf(b);
            PrimaryLengthOf(b) == |ReferenceBytes(d)| + |TimeBytes(b)| + Size64(d.length) + d.length
                                  + FragmentFieldsSize(b)
  {
  }

  /** The parser state between the primary block and the blocks. */
  function BehindPrimary(b: Bundle, structSize: nat): Parser {
    Reset(structSize).(
      version := b.version, stage := BlockType, next := BlockType, part := Generic,
      numbers := PrimaryNumbers(b),
      sdnv := Sdnv.State(Sdnv.Done, Sdnv.NoError,
                         Size64(if b.IsFragment() then b.totalAduLength else DescriptorOf(b).length)),
      primaryRemaining := 0, dict := DictBytes(b), index := DescriptorOf(b).length + 1,
      size := structSize + DescriptorOf(b).length + 1, eids := ReceivedEids(b))
  }

  lemma KnownNumbers(head: map<Stage, nat>, d: DictDescriptor, b: Bundle, length: nat)
    requires ProcFlags in head
    ensures var m := TimeNumbers(ReferenceNumbers(head, d), b)[DictLength := length];
            && ProcFlags in m && m[ProcFlags] == head[ProcFlags] && DictLength in m && m[DictLength] == length
            && DestinationScheme in m && m[DestinationScheme] == d.destination.schemeOffset
            && DestinationSsp in m && m[DestinationSsp] == d.destination.sspOffset
            && SourceScheme in m && m[SourceScheme] == d.source.schemeOffset
            && SourceSsp in m && m[SourceSsp] == d.source.sspOffset
            && ReportScheme in m && m[ReportScheme] == d.reportTo.schemeOffset
            && ReportSsp in m && m[ReportSsp] == d.reportTo.sspOffset
            && CustodianScheme in m && m[CustodianScheme] == d.custodian.schemeOffset
            && CustodianSsp in m && m[CustodianSsp] == d.custodian.sspOffset
  {
  }

  lemma GetIs(p: Parser, stage: Stage)
    requires !stage.EidRefCount? && stage in p.numbers
    ensures Get(p, stage) == p.numbers[stage]
  {
  }

  lemma StartHasNumbers(b: Bundle, structSize: nat)
    ensures var p := AtDictStart(b, structSize); var d := DescriptorOf(b);
            && Get(p, ProcFlags) == MaskFlags(b.procFlags) && Get(p, DictLength) == d.length
            && ReferencesOf(p, d)
  {
    StartFields(b, structSize);
    hide DescriptorOf, MaskFlags, TimeNumbers, ReferenceNumbers, FragmentFieldsSize, Size64, Get, AtDictStart;
    var head := map[ProcFlags := MaskFlags(b.procFlags), PrimaryLength := b.primaryLength];
    KnownNumbers(head, DescriptorOf(b), b, DescriptorOf(b).length);
    var p := AtDictStart(b, structSize);
    GetIs(p, ProcFlags);
    GetIs(p, DictLength);
    GetIs(p, DestinationScheme);
    GetIs(p, DestinationSsp);
    GetIs(p, SourceScheme);
    GetIs(p, SourceSsp);
    GetIs(p, ReportScheme);
    GetIs(p, ReportSsp);
    GetIs(p, CustodianScheme);
    GetIs(p, CustodianSsp);
  }

  lemma StartFields(b: Bundle, structSize: nat)
    ensures var p := AtDictStart(b, structSize);
            && p.stage == Dictionary && p.dict == [] && p.part == Primary
            && p.primaryRemaining == DescriptorOf(b).length + FragmentFieldsSize(b)
            && p.numbers == TimeNumbers(ReferenceNumbers(
                 map[ProcFlags := MaskFlags(b.procFlags), PrimaryLength := b.primaryLength], DescriptorOf(b)), b)
                 [DictLength := DescriptorOf(b).length]
  {
    hide DescriptorOf, MaskFlags, TimeNumbers, ReferenceNumbers, FragmentFieldsSize, Size64;
  }

  lemma DictLengthIs(b: Bundle)
    ensures |DictBytes(b)| == DescriptorOf(b).length
  {
  }

  lemma DictStartIsInDictionary(b: Bundle, structSize: nat)
    requires Ready(AtDictStart(b, structSize)) && DescriptorOf(b).length > 0
    ensures InDictionary(AtDictStart(b, structSize), b, 0)
    ensures Get(AtDictStart(b, structSize), ProcFlags) == MaskFlags(b.procFlags)
  {
    hide DescriptorOf, MaskFlags, DictBytes, AtDictStart, Get, ReferencesOf, Ready, FragmentFieldsSize;
    DictLengthIs(b);
    StartHasNumbers(b, structSize);
    StartFields(b, structSize);
  }

  /**
   The primary length field runs out exactly with the last byte of the primary
   block: behind it the count is zero and no error has been reported.
   */
  lemma PrimaryRunsOut(b: Bundle, structSize: nat, rest: seq<Byte>)
    requires Serializable(b)
    requires structSize + DescriptorOf(b).length + 1 <= BUNDLE_MAX_SIZE
    ensures AtBlock(BehindPrimary(b, structSize))
    ensures Feed(Reset(structSize), HeadBytes(b) + CountedBytes(b) + rest)
         == Feed(BehindPrimary(b, structSize), rest)
  {
    hide *;
    SerializableFits(b);
    SerializableParts(b);
    var d := DescriptorOf(b);
    var p := AtDictStart(b, structSize);
    var r6 := FragmentBytes(b) + rest;
    var r5 := DictBytes(b) + r6;
    FeedUpToDictionary(b, structSize, r5);
    DictStartIsInDictionary(b, structSize);
    assert DictBytes(b)[0..] == DictBytes(b);
    FeedDictionary(p, b, 0, r6);
    MaskKeepsFragmentFlag(b.procFlags);
    BehindAll(b, structSize, p, rest);
    PrimarySplits(b, d, rest);
  }

  lemma PrimarySplits(b: Bundle, d: DictDescriptor, rest: seq<Byte>)
    requires d == DescriptorOf(b)
    ensures HeadBytes(b) + CountedBytes(b) + rest
         == HeadBytes(b) + ReferenceBytes(d) + TimeBytes(b) + Number(d.length)
            + (DictBytes(b) + (FragmentBytes(b) + rest))
  {
    hide HeadBytes, ReferenceBytes, TimeBytes, DictBytes, FragmentBytes;
  }

  lemma SerializableParts(b: Bundle)
    requires Serializable(b)
    ensures b.primaryLength == PrimaryLengthOf(b)
    ensures ValidEid(b.destination) && ValidEid(b.source) && ValidEid(b.reportTo) && ValidEid(b.custodian)
    ensures b.fragmentOffset < U64_LIMIT && b.totalAduLength < U64_LIMIT
    ensures DescriptorOf(b).length > 0
  {
    OffsetsInside(b);
  }

  lemma BehindAll(b: Bundle, structSize: nat, p: Parser, rest: seq<Byte>)
    requires b.fragmentOffset < U64_LIMIT && b.totalAduLength < U64_LIMIT
    requires p == AtDictStart(b, structSize) && Get(p, ProcFlags) == MaskFlags(b.procFlags)
    requires MaskFlags(b.procFlags) % 2 == b.procFlags % 2
    requires Ready(BehindDict(p, b, |DictBytes(b)|))
    ensures AtBlock(BehindPrimary(b, structSize))
    ensures Feed(BehindDict(p, b, |DictBytes(b)|), FragmentBytes(b) + rest)
         == Feed(BehindPrimary(b, structSize), rest)
  {
    hide Feed, DescriptorOf, MaskFlags, ReferenceNumbers, TimeNumbers, DictBytes, ReceivedEids;
    var q := BehindDict(p, b, |DictBytes(b)|);
    if b.IsFragment() {
      FeedFragmentFields(q, b, rest);
      assert BehindFragmentFields(q, b) == BehindPrimary(b, structSize);
    } else {
      assert FragmentBytes(b) + rest == rest;
      assert q == BehindPrimary(b, structSize);
    }
  }

  lemma AssembleReceived(b: Bundle, structSize: nat)
    ensures Assemble(BehindPrimary(b, structSize)) == Received(b).(blocks := [])
  {
    hide DescriptorOf, MaskFlags, CanonicalEid, DictBytes, CameAll, CanonicalRefs, AllRefs, Size64;
    MaskKeepsFragmentFlag(b.procFlags);
  }

  /** The bundle's dictionary gives all its references back. */
  lemma RefsAreReadable(b: Bundle)
    requires Serializable(b)
    ensures Readable(DictBytes(b), DescriptorOf(b).references, CanonicalRefs(AllRefs(b.blocks)))
  {
    hide ReadEid, RefsLength, RefInfos, RefsBytes, EidInfoAt, CanonicalEid, DictBytes, DescriptorOf, AllRefs;
    var refs, d := AllRefs(b.blocks), DescriptorOf(b);
    OffsetsInside(b);
    DescriptorParts(b);
    DictParts(b);
    AllRefsAreStrings(b);
    forall i | 0 <= i < |refs|
      ensures var reference := Reference(d.references[i].schemeOffset, d.references[i].sspOffset);
        ReadEid(DictBytes(b), |DictBytes(b)|, reference) == Some(CanonicalEid(Some(refs[i])))
    {
      RefAt(refs, OwnLength(b), i);
      var back := RefsSplit(refs, i);
      var front := OwnBytes(b) + RefsBytes(refs[..i]);
      assert DictBytes(b) == front + EntryBytes(Some(refs[i])) + back;
      ReadEntry(DictBytes(b), front, Some(refs[i]), back);
    }
  }

  lemma AllRefsAreStrings(b: Bundle)
    requires Serializable(b)
    ensures forall r :: r in AllRefs(b.blocks) ==> CString(r)
  {
    BlocksAreValid(b);
    StringsOfBlocks(b.blocks);
  }

  lemma {:induction false} StringsOfBlocks(blocks: seq<Block>)
    requires forall i :: 0 <= i < |blocks| ==> ValidBlock(blocks[i])
    ensures forall r :: r in AllRefs(blocks) ==> CString(r)
  {
    hide CString;
    if blocks != [] {
      StringsOfBlocks(blocks[..|blocks| - 1]);
      assert ValidBlock(blocks[|blocks| - 1]);
    }
  }

  /** The entries of references in front of the `i`-th, its own, and those behind. */
  lemma {:induction false} RefsSplit(refs: seq<seq<Byte>>, i: nat) returns (back: seq<Byte>)
    requires i < |refs|
    ensures RefsBytes(refs) == RefsBytes(refs[..i]) + EntryBytes(Some(refs[i])) + back
  {
    hide EntryBytes;
    var n := |refs| - 1;
    if i == n {
      back := [];
    } else {
      var rest := RefsSplit(refs[..n], i);
      assert refs[..n][..i] == refs[..i];
      back := rest + EntryBytes(Some(refs[n]));
    }
  }

  /**
   Feeding the serialized bundle yields the received bundle, without an error
   and without touching what follows on the link.
   */
  lemma RoundTrip(b: Bundle, structSize: nat, rest: seq<Byte>)
    requires Serializable(b) && LastFlagAtEnd(b.blocks)
    requires RoomFor(structSize + DescriptorOf(b).length + 1, b.blocks)
    requires structSize + DescriptorOf(b).length + 1 <= BUNDLE_MAX_SIZE
    ensures var (p, left) := Feed(Reset(structSize), BundleBytes(b) + rest);
            && p.status == Done && p.error == NoError && p.primaryRemaining == 0 && left == rest
            && p.sent == if HasPayload(b.blocks) then Some(Received(b)) else None
  {
    hide *;
    var infos, eids := DescriptorOf(b).references, CanonicalRefs(AllRefs(b.blocks));
    PrimaryRunsOut(b, structSize, BlocksBytes(infos, b.blocks) + rest);
    BundleSplits(b, structSize, rest);
    RefsAreReadable(b);
    BlocksCanBeSent(b);
    PrimaryHasDict(b, structSize);
    FeedBlocks(BehindPrimary(b, structSize), b.blocks, DictBytes(b), infos, eids, rest);
    var (q, left) := Feed(Reset(structSize), BundleBytes(b) + rest);
    AllSent(b, structSize, q);
  }

  lemma PrimaryHasDict(b: Bundle, structSize: nat)
    requires DescriptorOf(b).length > 0
    ensures HasDict(BehindPrimary(b, structSize), DictBytes(b))
  {
    hide DescriptorOf, MaskFlags, DictBytes, ReferenceNumbers, TimeNumbers, ReceivedEids, Size64;
    DictLengthIs(b);
  }

  lemma BlocksCanBeSent(b: Bundle)
    requires Serializable(b)
    ensures Sendables(b.blocks, DescriptorOf(b).references) && DescriptorOf(b).length > 0
  {
    hide AllRefs, DescriptorOf;
    OffsetsInside(b);
    BlocksAreValid(b);
    DescriptorParts(b);
    forall i | 0 <= i < |b.blocks| ensures |b.blocks[i].eidRefs| <= |AllRefs(b.blocks)| {
      RefsOfBlock(b.blocks, i);
    }
  }

  lemma BundleSplits(b: Bundle, structSize: nat, rest: seq<Byte>)
    requires Serializable(b)
    ensures BundleBytes(b) + rest
         == HeadBytes(b) + CountedBytes(b) + (BlocksBytes(DescriptorOf(b).references, b.blocks) + rest)
    ensures BehindPrimary(b, structSize).size == structSize + DescriptorOf(b).length + 1
    ensures Valid(Reset(structSize))
  {
    hide HeadBytes, CountedBytes, BlocksBytes, DescriptorOf;
  }

  lemma {:induction false} CameKeepsTypes(blocks: seq<Block>, eids: seq<seq<Byte>>)
    ensures HasPayload(CameAll(blocks, eids)) <==> HasPayload(blocks)
  {
    var came := CameAll(blocks, eids);
    forall i | 0 <= i < |blocks| ensures came[i].blockType == blocks[i].blockType {
      CameAt(blocks, eids, i);
    }
    if HasPayload(came) {
      var i :| 0 <= i < |came| && came[i].blockType == PAYLOAD_BLOCK_TYPE;
      assert blocks[i].blockType == PAYLOAD_BLOCK_TYPE;
    }
    if HasPayload(blocks) {
      var i :| 0 <= i < |blocks| && blocks[i].blockType == PAYLOAD_BLOCK_TYPE;
      assert came[i].blockType == PAYLOAD_BLOCK_TYPE;
    }
  }

  lemma {:induction false} CameAt(blocks: seq<Block>, eids: seq<seq<Byte>>, i: nat)
    requires i < |blocks|
    ensures CameAll(blocks, eids)[i] == Came(blocks[i], eids)
  {
    if i > 0 {
      CameAt(blocks[1..], eids, i - 1);
    }
  }

  lemma AllSent(b: Bundle, structSize: nat, q: Parser)
    requires BlocksSent(BehindPrimary(b, structSize), CameAll(b.blocks, CanonicalRefs(AllRefs(b.blocks))), q)
    ensures q.status == Done && q.error == NoError && q.primaryRemaining == 0
    ensures q.sent == if HasPayload(b.blocks) then Some(Received(b)) else None
  {
    hide DescriptorOf, Assemble, DictBytes, PrimaryNumbers, CameAll, HasPayload, CanonicalRefs, AllRefs;
    AssembleReceived(b, structSize);
    var came := CameAll(b.blocks, CanonicalRefs(AllRefs(b.blocks)));
    CameKeepsTypes(b.blocks, CanonicalRefs(AllRefs(b.blocks)));
    assert [] + came == came;
    ReceivedBlocks(b);
  }

  lemma ReceivedBlocks(b: Bundle)
    ensures Received(b).(blocks := []).(blocks := CameAll(b.blocks, CanonicalRefs(AllRefs(b.blocks)))) == Received(b)
  {
    hide CameAll, CanonicalRefs, AllRefs;
  }
}
