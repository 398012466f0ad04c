/**
 Primary blocks without a dictionary, whose endpoints are pairs of numbers (section 2.2 of
 RFC 6260). The parser skips the dictionary without a fresh number reader.
 */
module Bundle6Compressed {
  import opened Bytes
  import opened Bundle6
  import opened Bundle6Serializer
  import opened Bundle6Parser
  import opened Bundle6RoundTrip
  import Sdnv

  /** The numbers of such a block: the pairs for destination, source, report-to and custodian, and times in seconds. */
  datatype Compressed = Compressed(
    version: Byte, flags: nat, length: nat, pairs: seq<nat>, creation: nat, sequence: nat, lifetime: nat)

  predicate Fitting(c: Compressed) {
    && c.flags < U32_LIMIT && c.length < U16_LIMIT && |c.pairs| == 8
    && (forall i :: 0 <= i < 8 ==> c.pairs[i] < U64_LIMIT)
    && c.creation < U64_LIMIT && c.sequence < U64_LIMIT
    && c.lifetime < U64_LIMIT
  }

  function Numbers(vs: seq<nat>): seq<Byte> {
    if vs == [] then [] else Number(vs[0]) + Numbers(vs[1..])
  }

  /** From the pairs to the dictionary length, which is zero. */
  function CountedPart(c: Compressed): seq<Byte> {
    Numbers(c.pairs) + (Number(c.creation) + (Number(c.sequence) + (Number(c.lifetime) + Number(0))))
  }

  function CompressedBytes(c: Compressed): seq<Byte> {
    [c.version] + (Number(c.flags) + (Number(c.length) + CountedPart(c)))
  }

  // ---- Feeding it ----

  /** Reading in the primary block, with a fresh number reader and at least `n` bytes to come. */
  predicate Reading(p: Parser, n: nat) {
    Ready(p) && p.sdnv == Sdnv.RESET && p.part == Primary && n <= p.primaryRemaining
  }

  /** The stages of the pairs, in order. */
  function PairStage(i: nat): Stage
    requires i <= 8
  {
    if i == 0 then DestinationScheme else Successor(PairStage(i - 1))
  }

  lemma PairStages(i: nat)
    requires i <= 8
    ensures i < 8 ==> PlainStage(PairStage(i)) && ReadsNumber(PairStage(i)) && WidthOf(PairStage(i)) == Sdnv.U64
    ensures PairStage(8) == Timestamp && (i < 8 ==> Successor(PairStage(i)) == PairStage(i + 1))
    ensures PairStage(i) != ProcFlags && LengthKnown(PairStage(i))
  {
    assert PairStage(1) == DestinationSsp && PairStage(2) == SourceScheme && PairStage(3) == SourceSsp;
    assert PairStage(4) == ReportScheme && PairStage(5) == ReportSsp && PairStage(6) == CustodianScheme;
    assert PairStage(7) == CustodianSsp && PairStage(8) == Timestamp;
  }

  /** The first `i` numbers of the pairs are in their variables. */
  predicate HasPairs(p: Parser, pairs: seq<nat>, i: nat) {
    |pairs| == 8 && i <= 8 && forall j: nat :: j < i ==> Get(p, PairStage(j)) == pairs[j]
  }

  /** Number of a stage of the pairs. */
  function PairNumber(stage: Stage): nat {
    match stage
    case DestinationScheme => 0
    case DestinationSsp => 1
    case SourceScheme => 2
    case SourceSsp => 3
    case ReportScheme => 4
    case ReportSsp => 5
    case CustodianScheme => 6
    case CustodianSsp => 7
    case _ => 8
  }

  lemma PairIsNumber(i: nat)
    requires i <= 8
    ensures PairNumber(PairStage(i)) == i && PairStage(i) != EidRefCount
  {
    if i > 0 {
      PairIsNumber(i - 1);
    }
  }

  /** A number changes no variable but its own. */
  lemma GetBehind(p: Parser, n: nat, v: nat, stage: Stage)
    requires p.stage != EidRefCount && stage != EidRefCount
    ensures Get(Behind(p, n, v), stage) == if stage == p.stage then v else Get(p, stage)
  {
    hide Successor;
  }

  lemma StoresPair(p: Parser, n: nat, pairs: seq<nat>, i: nat)
    requires i < 8 == |pairs| && p.stage == PairStage(i) && HasPairs(p, pairs, i)
    ensures HasPairs(Behind(p, n, pairs[i]), pairs, i + 1)
  {
    hide Get, Behind, PairStage, PairNumber;
    PairIsNumber(i);
    forall j: nat | j < i + 1 ensures Get(Behind(p, n, pairs[i]), PairStage(j)) == pairs[j] {
      PairIsNumber(j);
      GetBehind(p, n, pairs[i], PairStage(j));
    }
  }

  lemma KeepsPairs(p: Parser, n: nat, v: nat, pairs: seq<nat>)
    requires (p.stage == Timestamp || p.stage == SequenceNum || p.stage == Lifetime) && HasPairs(p, pairs, 8)
    ensures HasPairs(Behind(p, n, v), pairs, 8)
  {
    hide Get, Behind, PairStage;
    forall j: nat | j < 8 ensures Get(Behind(p, n, v), PairStage(j)) == pairs[j] {
      PairIsNumber(j);
      GetBehind(p, n, v, PairStage(j));
    }
  }

  /** One plain number of the counted part. */
  lemma FeedCounted(p: Parser, v: nat, n: nat, rest: seq<Byte>)
    requires Reading(p, Size64(v) + n) && PlainStage(p.stage) && ReadsNumber(p.stage) && p.stage != ProcFlags
    requires v < U64_LIMIT && WidthOf(p.stage) == Sdnv.U64
    ensures var q := Behind(p, Size64(v), v);
      && Reading(q, n) && q.stage == Successor(p.stage) && Get(q, ProcFlags) == Get(p, ProcFlags)
      && q.primaryRemaining == p.primaryRemaining - Size64(v)
      && Feed(p, Number(v) + rest) == Feed(q, rest)
  {
    hide Feed, Size64, Bundle6Parser.Valid;
    FeedPlain(p, v, rest);
  }

  lemma FeedCountedTime(p: Parser, v: nat, n: nat, rest: seq<Byte>)
    requires Reading(p, Size64(v) + n) && (p.stage == Timestamp || p.stage == Lifetime)
    requires v < U64_LIMIT
    ensures var q := Behind(p, Size64(v), Milliseconds(v));
      && Reading(q, n) && q.stage == Successor(p.stage) && Get(q, ProcFlags) == Get(p, ProcFlags)
      && q.primaryRemaining == p.primaryRemaining - Size64(v)
      && Feed(p, Number(v) + rest) == Feed(q, rest)
  {
    hide Feed, Size64, Bundle6Parser.Valid, Milliseconds;
    FeedTime(p, v, rest);
  }

  /** The rest of the pairs from the `i`-th number on. */
  lemma {:induction false} FeedPairs(p: Parser, c: Compressed, i: nat, n: nat, rest: seq<Byte>) returns (q: Parser)
    requires Fitting(c) && i <= 8 && p.stage == PairStage(i) && Reading(p, |Numbers(c.pairs[i..])| + n)
    requires HasPairs(p, c.pairs, i)
    ensures Reading(q, n) && q.stage == Timestamp && Get(q, ProcFlags) == Get(p, ProcFlags)
    ensures HasPairs(q, c.pairs, 8)
    ensures q.primaryRemaining == p.primaryRemaining - |Numbers(c.pairs[i..])|
    ensures Feed(p, Numbers(c.pairs[i..]) + rest) == Feed(q, rest)
    decreases 8 - i
  {
    hide Feed, Size64, Bundle6Parser.Valid, Behind, Number, Reading, PairStage, PlainStage, Get, HasPairs;
    PairStages(i);
    assert |c.pairs| == 8;
    if i == 8 {
      assert Numbers(c.pairs[8..]) + rest == rest;
      q := p;
    } else {
      var v, more := c.pairs[i], Numbers(c.pairs[i + 1..]);
      assert c.pairs[i..][0] == v && c.pairs[i..][1..] == c.pairs[i + 1..];
      assert Numbers(c.pairs[i..]) + rest == Number(v) + (more + rest);
      FeedCounted(p, v, |more| + n, more + rest);
      StoresPair(p, Size64(v), c.pairs, i);
      q := FeedPairs(Behind(p, Size64(v), v), c, i + 1, n, rest);
    }
  }

  /** The parser behind version, flags and length. */
  lemma FeedStart(c: Compressed, structSize: nat, rest: seq<Byte>) returns (q: Parser)
    requires Fitting(c)
    ensures Reading(q, c.length) && q.stage == DestinationScheme && q.primaryRemaining == c.length
    ensures Get(q, ProcFlags) == c.flags && HasPairs(q, c.pairs, 0)
    ensures Feed(Reset(structSize), [c.version] + (Number(c.flags) + (Number(c.length) + rest))) == Feed(q, rest)
  {
    hide Feed, Size64, Number, Bundle6Parser.Valid;
    FeedVersion(structSize, c.version, Number(c.flags) + (Number(c.length) + rest));
    var p := Reset(structSize).(version := c.version, stage := ProcFlags, next := ProcFlags);
    FeedPlain(p, c.flags, Number(c.length) + rest);
    var q1 := Behind(p, Size64(c.flags), c.flags);
    FeedPrimaryLength(q1, c.length, rest);
    q := Behind(q1, Size64(c.length), c.length).(primaryRemaining := c.length);
  }

  /** The parser in front of the dictionary length. */
  lemma FeedUpToLength(c: Compressed, structSize: nat, rest: seq<Byte>) returns (q: Parser)
    requires Fitting(c) && |CountedPart(c)| <= c.length
    ensures Reading(q, 1) && q.stage == DictLength && Get(q, ProcFlags) == c.flags && HasPairs(q, c.pairs, 8)
    ensures q.primaryRemaining == c.length - |CountedPart(c)| + 1
    ensures Feed(Reset(structSize), CompressedBytes(c) + rest) == Feed(q, Number(0) + rest)
  {
    hide Feed, Size64, Number, Behind, Reading, Numbers, Milliseconds, HasPairs, Get;
    var r4 := Number(0) + rest;
    var r3 := Number(c.lifetime) + r4;
    var r2 := Number(c.sequence) + r3;
    var r1 := Number(c.creation) + r2;
    var counted := Numbers(c.pairs) + r1;
    assert CompressedBytes(c) + rest == [c.version] + (Number(c.flags) + (Number(c.length) + counted));
    SmallNumber(0);
    assert c.pairs[0..] == c.pairs;
    var m := Size64(c.creation) + Size64(c.sequence) + Size64(c.lifetime) + 1;
    assert |CountedPart(c)| == |Numbers(c.pairs)| + m;
    var p := FeedStart(c, structSize, counted);
    ReadingLess(p, c.length, |CountedPart(c)|);
    p := FeedPairs(p, c, 0, m, r1);
    FeedCountedTime(p, c.creation, m - Size64(c.creation), r2);
    KeepsPairs(p, Size64(c.creation), Milliseconds(c.creation), c.pairs);
    p := Behind(p, Size64(c.creation), Milliseconds(c.creation));
    FeedCounted(p, c.sequence, Size64(c.lifetime) + 1, r3);
    KeepsPairs(p, Size64(c.sequence), c.sequence, c.pairs);
    p := Behind(p, Size64(c.sequence), c.sequence);
    FeedCountedTime(p, c.lifetime, 1, r4);
    KeepsPairs(p, Size64(c.lifetime), Milliseconds(c.lifetime), c.pairs);
    q := Behind(p, Size64(c.lifetime), Milliseconds(c.lifetime));
  }

  lemma ReadingLess(p: Parser, n: nat, m: nat)
    requires Reading(p, n) && m <= n
    ensures Reading(p, m)
  {
  }

  // ---- Skipping the dictionary ----

  /** Behind the dictionary length zero the next stage is entered, with the old number reader. */
  lemma FeedNoDictionary(p: Parser, rest: seq<Byte>)
    requires Reading(p, 1) && p.stage == DictLength
    ensures var q := SkippedDictionary(p);
      && Valid(q) && !q.bulkRead && q.status == Good && q.primaryRemaining == p.primaryRemaining - 1
      && q.sdnv == Sdnv.State(Sdnv.Done, Sdnv.NoError, 1)
      && (if IsFragment(p) then q.stage == FragmentOffset && q.part == Primary
          else q.stage == BlockType && q.part == Generic)
      && Feed(p, Number(0) + rest) == Feed(q, rest)
  {
    hide Feed, Bundle6Parser.Advance, Taken, Bundle6Parser.Valid, Number;
    SmallNumber(0);
    NoDictionaryAdvance(p);
    FeedNumber(p, 0, rest);
  }

  lemma NoDictionaryAdvance(p: Parser)
    requires Reading(p, 1) && p.stage == DictLength
    ensures var taken := Taken(Counted(p, 1), 1, 0); var q := Advance(taken);
      && LeadsOn(taken, p.stage)
      && Valid(q) && !q.bulkRead && q.status == Good && q.primaryRemaining == p.primaryRemaining - 1
      && q.sdnv == Sdnv.State(Sdnv.Done, Sdnv.NoError, 1)
      && (if IsFragment(p) then q.stage == FragmentOffset && q.part == Primary
          else q.stage == BlockType && q.part == Generic)
  {
    hide CompressedEid, Bundle6Parser.EnterBlockData, Bundle6Parser.SendBundle, ReferenceAt, Taken,
         Bundle6Parser.ToMilliseconds;
    TakenPlainly(Counted(p, 1), 1, 0);
    var taken := Taken(Counted(p, 1), 1, 0);
    var q := Advance(taken);
    SameNumbers(taken, q, DictLength);
    SameNumbers(taken, q, ProcFlags);
  }

  function SkippedDictionary(p: Parser): Parser
    requires p.stage == DictLength
  {
    Advance(Taken(Counted(p, 1), 1, 0))
  }

  /**
   At the first byte behind a primary block without dictionary the parser fails exactly if
   the bundle is a fragment: the fragment offset is read with the number reader of the
   dictionary length, which is already done.
   */
  lemma CompressedRefusedExactly(c: Compressed, structSize: nat, b: Byte)
    requires Fitting(c) && |CountedPart(c)| <= c.length
    ensures Valid(Reset(structSize))
    ensures var (p, left) := Feed(Reset(structSize), CompressedBytes(c) + [b]);
      && (p.status == Failed <==> c.flags % 2 == 1) && left == []
      && (c.flags % 2 == 1 && |CountedPart(c)| < c.length ==> p.error == SdnvFailure)
  {
    hide Feed, CountedPart, CompressedBytes, Bundle6Parser.Advance, Bundle6Parser.ReadByte, Number, Taken, Fitting,
         SkippedDictionary, Counted;
    ResetIsReady(structSize);
    var p := FeedUpToLength(c, structSize, [b]);
    FeedNoDictionary(p, [b]);
    var q := SkippedDictionary(p);
    assert IsFragment(p) <==> c.flags % 2 == 1;
    FeedByte(q, b, []);
    assert [b] + [] == [b];
    if IsFragment(p) {
      AlreadyDoneFails(q, b);
    } else {
      BlockBegins(q, b);
    }
    FeedStops(ReadByte(q, b));
  }

  // ---- The endpoints ----

  /** The identifier of a pair: dtn:none, or ipn: with both numbers in decimal. */
  function PairText(node: nat, service: nat): seq<Byte> {
    if node == 0 || service == 0 then [0x64, 0x74, 0x6E, 0x3A, 0x6E, 0x6F, 0x6E, 0x65]
    else [0x69, 0x70, 0x6E, 0x3A] + Decimal(node) + [0x2E] + Decimal(service)
  }

  /** The number that decimal digits denote. */
  function DecimalValue(digits: seq<Byte>): int {
    if digits == [] then 0 else DecimalValue(digits[..|digits| - 1]) * 10 + digits[|digits| - 1] - 0x30
  }

  /** Decimal digits, without leading zeros, that denote the number. */
  lemma {:induction false} DecimalIs(n: nat)
    ensures var digits := Decimal(n);
      && digits != [] && DecimalValue(digits) == n && (digits[0] == 0x30 ==> n == 0)
      && forall d :: d in digits ==> 0x30 <= d <= 0x39
  {
    if n >= 10 {
      DecimalIs(n / 10);
      var front := Decimal(n / 10);
      assert Decimal(n)[..|front|] == front;
    }
  }

  /** Without a dictionary, the endpoints are those that the pairs stand for. */
  lemma CompressedEndpoints(c: Compressed, structSize: nat)
    requires Fitting(c) && |CountedPart(c)| <= c.length
    ensures Valid(Reset(structSize))
    ensures Feed(Reset(structSize), CompressedBytes(c)).0.eids == Endpoints(
      Some(PairText(c.pairs[0], c.pairs[1])), Some(PairText(c.pairs[2], c.pairs[3])),
      Some(PairText(c.pairs[4], c.pairs[5])), Some(PairText(c.pairs[6], c.pairs[7])))
  {
    hide Feed, CountedPart, CompressedBytes, Bundle6Parser.Advance, Bundle6Parser.ReadByte, Number, Taken,
         SkippedDictionary, Counted, PairText;
    ResetIsReady(structSize);
    var p := FeedUpToLength(c, structSize, []);
    FeedNoDictionary(p, []);
    SkippedEndpoints(p, c.pairs);
    assert CompressedBytes(c) + [] == CompressedBytes(c);
    FeedStops(SkippedDictionary(p));
  }

  lemma SkippedEndpoints(p: Parser, pairs: seq<nat>)
    requires p.stage == DictLength && HasPairs(p, pairs, 8)
    ensures SkippedDictionary(p).eids == Endpoints(
      Some(PairText(pairs[0], pairs[1])), Some(PairText(pairs[2], pairs[3])),
      Some(PairText(pairs[4], pairs[5])), Some(PairText(pairs[6], pairs[7])))
  {
    hide Bundle6Parser.Advance, Taken, CompressedEid, PairText, Get, PairStage;
    EntersWithout(p);
    PairAt(p, pairs, 0);
    PairAt(p, pairs, 2);
    PairAt(p, pairs, 4);
    PairAt(p, pairs, 6);
    TextOfPair(pairs[0], pairs[1]);
    TextOfPair(pairs[2], pairs[3]);
    TextOfPair(pairs[4], pairs[5]);
    TextOfPair(pairs[6], pairs[7]);
  }

  lemma PairAt(p: Parser, pairs: seq<nat>, j: nat)
    requires HasPairs(p, pairs, 8) && j < 7
    ensures ReferenceAt(p, PairStage(j), PairStage(j + 1)) == Reference(pairs[j], pairs[j + 1])
    ensures PairStage(0) == DestinationScheme && PairStage(1) == DestinationSsp
    ensures PairStage(2) == SourceScheme && PairStage(3) == SourceSsp
    ensures PairStage(4) == ReportScheme && PairStage(5) == ReportSsp
    ensures PairStage(6) == CustodianScheme && PairStage(7) == CustodianSsp
  {
    hide Get;
    assert PairStage(3) == SourceSsp && PairStage(5) == ReportSsp;
  }

  lemma EntersWithout(p: Parser)
    requires p.stage == DictLength
    ensures SkippedDictionary(p).eids == Endpoints(
      Some(CompressedEid(ReferenceAt(p, DestinationScheme, DestinationSsp))),
      Some(CompressedEid(ReferenceAt(p, SourceScheme, SourceSsp))),
      Some(CompressedEid(ReferenceAt(p, ReportScheme, ReportSsp))),
      Some(CompressedEid(ReferenceAt(p, CustodianScheme, CustodianSsp))))
  {
    hide Bundle6Parser.EnterBlockData, Bundle6Parser.SendBundle, Bundle6Parser.ToMilliseconds, CompressedEid, Get,
         Bundle6Parser.EnterDictionary, Taken, ReferenceAt;
    TakenPlainly(Counted(p, 1), 1, 0);
    var taken := Taken(Counted(p, 1), 1, 0);
    assert taken.next == Dictionary && taken.numbers == p.numbers[DictLength := 0] && taken.size == p.size;
    SetKeeps(p, taken);
    WithoutDictionary(taken);
  }

  lemma WithoutDictionary(p: Parser)
    requires Get(p, DictLength) == 0
    ensures EnterDictionary(p).eids == Endpoints(
      Some(CompressedEid(ReferenceAt(p, DestinationScheme, DestinationSsp))),
      Some(CompressedEid(ReferenceAt(p, SourceScheme, SourceSsp))),
      Some(CompressedEid(ReferenceAt(p, ReportScheme, ReportSsp))),
      Some(CompressedEid(ReferenceAt(p, CustodianScheme, CustodianSsp))))
    ensures EnterDictionary(p).next != Finished
  {
    hide CompressedEid, ReferenceAt, Get, IsFragment;
  }

  lemma SetKeeps(p: Parser, q: Parser)
    requires q.numbers == p.numbers[DictLength := 0] && q.size == p.size
    ensures Get(q, DictLength) == 0
    ensures ReferenceAt(q, DestinationScheme, DestinationSsp) == ReferenceAt(p, DestinationScheme, DestinationSsp)
    ensures ReferenceAt(q, SourceScheme, SourceSsp) == ReferenceAt(p, SourceScheme, SourceSsp)
    ensures ReferenceAt(q, ReportScheme, ReportSsp) == ReferenceAt(p, ReportScheme, ReportSsp)
    ensures ReferenceAt(q, CustodianScheme, CustodianSsp) == ReferenceAt(p, CustodianScheme, CustodianSsp)
  {
  }

  lemma TextOfPair(node: nat, service: nat)
    ensures CompressedEid(Reference(node, service)) == PairText(node, service)
  {
  }

  /** Nothing is left to do without input, or after a failure. */
  lemma FeedStops(p: Parser)
    requires p.status == Good ==> Valid(p)
    requires p.status == Good ==> !p.bulkRead
    ensures Feed(p, []) == (p, [])
  {
  }

  lemma BlockBegins(q: Parser, b: Byte)
    requires q.stage == BlockType && Valid(q) && q.part == Generic && q.status == Good && !q.bulkRead
    ensures ReadByte(q, b).status == Good && !ReadByte(q, b).bulkRead
  {
    hide Bundle6Parser.EnterDictionary, Bundle6Parser.EnterBlockData, Bundle6Parser.ReadNumber,
         Bundle6Parser.ReadDictionary, Bundle6Parser.SendBundle, Bundle6Parser.ToMilliseconds, Get;
  }

  /** Numbers below 128 are their own encodings. */
  lemma {:induction false} SmallNumbers(vs: seq<nat>)
    requires forall v :: v in vs ==> v < 0x80
    ensures |Numbers(vs)| == |vs| && forall i :: 0 <= i < |vs| ==> Numbers(vs)[i] == vs[i]
    decreases |vs|
  {
    hide Number;
    if vs != [] {
      assert vs[0] in vs && forall v :: v in vs[1..] ==> v in vs;
      SmallNumber(vs[0]);
      SmallNumbers(vs[1..]);
    }
  }

  lemma SmallNumber(v: nat)
    requires v < 0x80
    ensures Number(v) == [v] && Size64(v) == 1
  {
    assert Size64(v) == 1 && Sdnv.Shift(v, 0) == v;
    assert Sdnv.Encode(v, 1)[0] == v % 128;
  }

  /** From ipn:1.1 to ipn:2.1, a fragment with offset 0 and a total length to follow. */
  const EXAMPLE := Compressed(6, 1, 14, [2, 1, 1, 1, 0, 0, 0, 0], 1, 0, 10)

  lemma ExamplePairs()
    ensures Numbers(EXAMPLE.pairs) == [2, 1, 1, 1, 0, 0, 0, 0]
  {
    hide Number, Numbers;
    var vs: seq<nat> := EXAMPLE.pairs;
    SmallNumbers(vs);
    assert forall i :: 0 <= i < 8 ==> Numbers(vs)[i] == vs[i];
  }

  lemma ExampleBytes()
    ensures Fitting(EXAMPLE) && |CountedPart(EXAMPLE)| == 12 && EXAMPLE.flags == 1 && EXAMPLE.length == 14
    ensures CompressedBytes(EXAMPLE) == [6, 1, 14, 2, 1, 1, 1, 0, 0, 0, 0, 1, 0, 10, 0]
  {
    hide Number, Numbers;
    ExamplePairs();
    var c := EXAMPLE;
    SmallNumber(1);
    SmallNumber(14);
    SmallNumber(0);
    SmallNumber(10);
    var times := [1] + ([0] + ([10] + [0]));
    assert CountedPart(c) == [2, 1, 1, 1, 0, 0, 0, 0] + times;
    assert CompressedBytes(c) == [6] + ([1] + ([14] + CountedPart(c)));
  }

  /** The first byte of the fragment offset is not accepted. */
  lemma CompressedFragmentRefused(structSize: nat)
    ensures Valid(Reset(structSize))
    ensures var (p, left) := Feed(Reset(structSize), [6, 1, 14, 2, 1, 1, 1, 0, 0, 0, 0, 1, 0, 10, 0] + [0]);
      p.status == Failed && p.error == SdnvFailure
  {
    hide *;
    ExampleBytes();
    CompressedRefusedExactly(EXAMPLE, structSize, 0);
  }

  // ---- A number reader that is done ----

  lemma DoneReaderFails(w: Sdnv.Width, n: nat, v: nat, b: Byte)
    ensures Sdnv.Read(w, Sdnv.State(Sdnv.Done, Sdnv.NoError, n), v, b).0.status == Sdnv.Failed
  {
  }

  lemma ValidKnows(q: Parser)
    requires Valid(q)
    ensures BehindDictionary(q.stage) ==> DictionaryKnown(q)
  {
  }

  lemma NumberFails(q: Parser, b: Byte)
    requires Valid(q) && ReadsNumber(q.stage)
    requires Sdnv.Read(WidthOf(q.stage), q.sdnv, Get(q, q.stage), b).0.status == Sdnv.Failed
    ensures ReadNumber(q, b).status == Failed && ReadNumber(q, b).error == SdnvFailure
  {
    hide Sdnv.Read, Bundle6Parser.FinishNumber, Bundle6Parser.Valid;
    assert BehindDictionary(q.stage) ==> DictionaryKnown(q) by {
      ValidKnows(q);
    }
  }

  /** A number reader that is done makes the parser fail at the next byte. */
  lemma AlreadyDoneFails(q: Parser, b: Byte)
    requires q.stage == FragmentOffset && Valid(q) && q.part == Primary && q.status == Good
    requires q.sdnv == Sdnv.State(Sdnv.Done, Sdnv.NoError, 1)
    ensures ReadByte(q, b).status == Failed
    ensures q.primaryRemaining > 0 ==> ReadByte(q, b).error == SdnvFailure
  {
    hide Bundle6Parser.ReadNumber, Bundle6Parser.Advance, Sdnv.Read;
    var counted := CountPrimary(q);
    DoneReaderFails(WidthOf(q.stage), 1, Get(counted, counted.stage), b);
    NumberFails(counted, b);
  }
}
