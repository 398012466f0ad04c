/**
 Block-wise transfer (RFC 7959): a client that sends or fetches a body in blocks
 while the peer may make the blocks smaller at any time, and the server that
 assembles the body, or hands it out. Size exponents are 0 to 6.
 */
module Blockwise {
  import opened Bytes

  /** Bytes of a block: 16 to 1024. */
  function Size(exp: nat): (s: nat)
    ensures s >= 16
  {
    if exp == 0 then 16 else 2 * Size(exp - 1)
  }

  /** A size exponent stands for 2^(exp + 4) bytes (section 2.2 of RFC 7959). */
  lemma {:induction false} SizeIsPower(exp: nat)
    ensures Size(exp) == Pow2(exp + 4)
  {
    if exp == 0 {
      assert Pow2(2) == 4;
    } else {
      SizeIsPower(exp - 1);
    }
  }

  lemma Sizes()
    ensures Size(0) == 16 && Size(1) == 32 && Size(2) == 64 && Size(3) == 128
    ensures Size(4) == 256 && Size(5) == 512 && Size(6) == 1024
  {
    assert Size(2) == 64;
    assert Size(4) == 256;
  }

  datatype BlockOption = BlockOption(number: nat, more: bool, exp: nat) {
    function Start(): nat {
      number * Size(exp)
    }
  }

  datatype Block = Block(option: BlockOption, data: seq<Byte>)

  // ---- The option's value ----

  function EncodeOption(o: BlockOption): seq<Byte> {
    ToMinimum(o.number * 16 + (if o.more then 8 else 0) + o.exp)
  }

  function DecodeOption(raw: seq<Byte>): BlockOption {
    var v := FromBytes(raw);
    BlockOption(v / 16, v / 8 % 2 == 1, v % 8)
  }

  /** Written and read back, a block option is the same. */
  lemma OptionRoundTrip(o: BlockOption)
    requires o.exp < 8
    ensures DecodeOption(EncodeOption(o)) == o
  {
    var flag := if o.more then 1 else 0;
    var v := o.number * 16 + flag * 8 + o.exp;
    MinimumRoundTrip(v);
    OptionParts(o.number, flag, o.exp);
  }

  lemma OptionParts(number: nat, flag: nat, exp: nat)
    requires flag < 2 && exp < 8
    ensures var v := number * 16 + flag * 8 + exp;
      v / 16 == number && v / 8 % 2 == flag && v % 8 == exp
  {
    var v := number * 16 + flag * 8 + exp;
    assert v / 8 == 2 * number + flag;
  }

  /** The lowest three bits are the size exponent, the next one is set if more follows, the rest is the number. */
  lemma OptionLayout(o: BlockOption)
    requires o.exp < 8
    ensures var v := FromBytes(EncodeOption(o));
      v % 8 == o.exp && v / 16 == o.number && (Bit(v, 3) <==> o.more)
    ensures EncodeOption(o) == [] || EncodeOption(o)[0] != 0
  {
    var flag := if o.more then 1 else 0;
    var v := o.number * 16 + flag * 8 + o.exp;
    MinimumRoundTrip(v);
    OptionParts(o.number, flag, o.exp);
    assert v / 2 / 2 / 2 == v / 8;
    assert Bit(v, 3) == Bit(v / 2, 2) == Bit(v / 2 / 2, 1) == Bit(v / 2 / 2 / 2, 0);
  }

  /** Block number 1 of 128 bytes with more to come, and number 70 of 64 bytes, the last one. */
  lemma OptionExamples()
    ensures EncodeOption(BlockOption(0, false, 0)) == []
    ensures EncodeOption(BlockOption(1, true, 3)) == [0x1B] && EncodeOption(BlockOption(70, false, 2)) == [0x04, 0x62]
  {
    MinimumStep(0, 0x1B);
    MinimumStep(0, 4);
    MinimumStep(4, 0x62);
    MinimumStep(0, 0);
  }

  // ---- Scaling ----

  /** Halves the block size until it is the one asked for. */
  function Shrink(cursor: nat, exp: nat, target: nat): (nat, nat)
    decreases exp
  {
    if target < exp then Shrink(cursor * 2, exp - 1, target) else (cursor, exp)
  }

  /** Shrinking the blocks does not move the position in the body. */
  lemma {:induction false} ShrinkKeepsOffset(cursor: nat, exp: nat, target: nat)
    ensures var (c, e) := Shrink(cursor, exp, target);
      c * Size(e) == cursor * Size(exp) && e == (if target < exp then target else exp)
    decreases exp
  {
    if target < exp {
      ShrinkKeepsOffset(cursor * 2, exp - 1, target);
      assert cursor * 2 * Size(exp - 1) == cursor * (2 * Size(exp - 1));
    }
  }

  function ReducedTo(o: BlockOption, maximum: nat): BlockOption {
    var (number, exp) := Shrink(o.number, o.exp, maximum);
    BlockOption(number, o.more, exp)
  }

  lemma ReducedKeepsStart(o: BlockOption, maximum: nat)
    ensures ReducedTo(o, maximum).Start() == o.Start() && ReducedTo(o, maximum).more == o.more
    ensures ReducedTo(o, maximum).exp == if maximum < o.exp then maximum else o.exp
  {
    ShrinkKeepsOffset(o.number, o.exp, maximum);
  }

  function ExtractBlock(payload: seq<Byte>, number: nat, exp: nat): Option<Block> {
    var start := number * Size(exp);
    if start >= |payload| then None
    else
      var end := if start + Size(exp) < |payload| then start + Size(exp) else |payload|;
      Some(Block(BlockOption(number, end < |payload|, exp), payload[start..end]))
  }

  // ---- The client that sends ----

  datatype Code = Continue | Success | Failure

  datatype Reply = Reply(block1: Option<BlockOption>, code: Code)

  datatype Next =
    | Again(cursor: nat, exp: nat)
    | Finished
    | Rejected

  /** What the client does with the reply to a block. */
  function Digest(block: Block, cursor: nat, exp: nat, reply: Reply): Next {
    if reply.block1.None? then Finished
    else
      var block1 := reply.block1.value;
      if block1.number != block.option.number then Rejected
      else
        var (c, e) := Shrink(cursor + 1, exp, block1.exp);
        if !block.option.more then
          if block1.more || reply.code == Continue then Rejected else Finished
        else if !block1.more && reply.code == Failure then Finished
        else Again(c, e)
  }

  /**
   The transfer is given up exactly if the reply acknowledges another block, or to the last
   block asks for more. It is over if the reply has no block option, acknowledges the last
   block, or reports a failure without asking for more. Otherwise the next block is no larger
   than this one and than the server asks for, and as large as that allows.
   */
  lemma DigestExactly(block: Block, cursor: nat, exp: nat, reply: Reply)
    ensures var next := Digest(block, cursor, exp, reply);
      && (next == Rejected <==>
            && reply.block1.Some?
            && (reply.block1.value.number != block.option.number
                || (!block.option.more && (reply.block1.value.more || reply.code == Continue))))
      && (next == Finished <==>
            || reply.block1.None?
            || (reply.block1.value.number == block.option.number && !reply.block1.value.more
                && (if block.option.more then reply.code == Failure else reply.code != Continue)))
      && (next.Again? ==> next.exp == if reply.block1.value.exp < exp then reply.block1.value.exp else exp)
  {
    if reply.block1.Some? {
      ShrinkKeepsOffset(cursor + 1, exp, reply.block1.value.exp);
    }
  }

  /** The blocks sent from position `cursor` on, given what the server replies to each. */
  function SentBlocks(payload: seq<Byte>, cursor: nat, exp: nat, replies: seq<Reply>): seq<Block>
    decreases |replies|
  {
    var block := ExtractBlock(payload, cursor, exp);
    if block.None? then []
    else if replies == [] then [block.value]
    else
      var next := Digest(block.value, cursor, exp, replies[0]);
      [block.value] + if next.Again? then SentBlocks(payload, next.cursor, next.exp, replies[1..]) else []
  }

  /** Each block carries the bytes at its own position, the next ones in the body. */
  predicate Consecutive(payload: seq<Byte>, offset: nat, sent: seq<Block>)
    decreases |sent|
  {
    sent == [] ||
    var b := sent[0];
    && b.option.Start() == offset && offset + |b.data| <= |payload| && 0 < |b.data| <= Size(b.option.exp)
    && b.data == payload[offset..offset + |b.data|]
    && (b.option.more <==> offset + |b.data| < |payload|)
    && (b.option.more ==> |b.data| == Size(b.option.exp))
    && (b.option.number == 0 <==> offset == 0)
    && Consecutive(payload, offset + |b.data|, sent[1..])
  }

  lemma ExtractedBlock(payload: seq<Byte>, number: nat, exp: nat)
    requires ExtractBlock(payload, number, exp).Some?
    ensures var b := ExtractBlock(payload, number, exp).value; var offset := number * Size(exp);
      && b.option.number == number && b.option.exp == exp && b.option.Start() == offset
      && offset + |b.data| <= |payload| && 0 < |b.data| <= Size(exp) && b.data == payload[offset..offset + |b.data|]
      && (b.option.more <==> offset + |b.data| < |payload|) && (b.option.more ==> |b.data| == Size(exp))
      && (number == 0 <==> offset == 0)
  {
  }

  /** A round moves the cursor, in whatever block size, to the end of what has been sent. */
  lemma RoundKeepsCursor(payload: seq<Byte>, cursor: nat, exp: nat, reply: Reply)
    requires ExtractBlock(payload, cursor, exp).Some?
    ensures var b := ExtractBlock(payload, cursor, exp).value; var next := Digest(b, cursor, exp, reply);
      next.Again? ==>
        && b.option.more && next.cursor * Size(next.exp) == cursor * Size(exp) + |b.data| < |payload|
        && next.exp <= exp
  {
    ExtractedBlock(payload, cursor, exp);
    var b := ExtractBlock(payload, cursor, exp).value;
    if Digest(b, cursor, exp, reply).Again? {
      ShrinkKeepsOffset(cursor + 1, exp, reply.block1.value.exp);
      assert (cursor + 1) * Size(exp) == cursor * Size(exp) + Size(exp);
    }
  }

  /** Whatever the server replies, the client never skips, repeats or misplaces a byte. */
  lemma {:induction false} ClientSendsConsecutively(payload: seq<Byte>, cursor: nat, exp: nat, replies: seq<Reply>)
    ensures Consecutive(payload, cursor * Size(exp), SentBlocks(payload, cursor, exp, replies))
    decreases |replies|
  {
    var block := ExtractBlock(payload, cursor, exp);
    if block.Some? {
      hide ExtractBlock, Digest, Size;
      ExtractedBlock(payload, cursor, exp);
      var sent := SentBlocks(payload, cursor, exp, replies);
      if replies != [] {
        RoundKeepsCursor(payload, cursor, exp, replies[0]);
        var next := Digest(block.value, cursor, exp, replies[0]);
        if next.Again? {
          ClientSendsConsecutively(payload, next.cursor, next.exp, replies[1..]);
          assert sent[1..] == SentBlocks(payload, next.cursor, next.exp, replies[1..]);
        } else {
          assert sent == [block.value];
        }
      }
    }
  }

  // ---- The server that assembles ----

  datatype Fed =
    | Wait
    | Assembled(body: seq<Byte>)
    | Incomplete
    | WrongSize
    | Misplaced

  /** The body collected so far for one block key, with the next block of the request. */
  function Feed(assembly: Option<seq<Byte>>, b: Block): (Option<seq<Byte>>, Fed) {
    if b.option.number == 0 then
      (Some(b.data), if b.option.more then Wait else Assembled(b.data))
    else if assembly.None? then (assembly, Incomplete)
    else if b.option.more && |b.data| != Size(b.option.exp) then (assembly, WrongSize)
    else if b.option.Start() != |assembly.value| then (assembly, Misplaced)
    else
      var body := assembly.value + b.data;
      (Some(body), if b.option.more then Wait else Assembled(body))
  }

  /**
   The spool lets a value error pass exactly for a later block that has the
   announced size, of a transfer that is under way, and does not begin where the body ends.
   */
  lemma MisplacedExactly(assembly: Option<seq<Byte>>, b: Block)
    ensures Feed(assembly, b).1 == Misplaced <==>
      && b.option.number > 0 && assembly.Some?
      && (b.option.more ==> |b.data| == Size(b.option.exp)) && b.option.number * Size(b.option.exp) != |assembly.value|
    ensures Feed(assembly, b).1 == Misplaced ==> Feed(assembly, b).0 == assembly
  {
  }

  /** A later block is incomplete exactly without a transfer under way, and of the wrong size if it claims more. */
  lemma RefusedExactly(assembly: Option<seq<Byte>>, b: Block)
    ensures Feed(assembly, b).1 == Incomplete <==> b.option.number > 0 && assembly.None?
    ensures Feed(assembly, b).1 == WrongSize <==>
      b.option.number > 0 && assembly.Some? && b.option.more && |b.data| != Size(b.option.exp)
    ensures Feed(assembly, b).1 in {Incomplete, WrongSize} ==> Feed(assembly, b).0 == assembly
  {
  }

  /**
   With a first part of a body assembled, a later block of that body is misplaced exactly if
   it does not begin there: then it repeats bytes or leaves some out.
   */
  lemma BodyBlockIsMisplacedExactly(body: seq<Byte>, have: nat, number: nat, exp: nat)
    requires have <= |body| && number > 0 && ExtractBlock(body, number, exp).Some?
    ensures var b := ExtractBlock(body, number, exp).value;
      Feed(Some(body[..have]), b).1 == Misplaced <==> number * Size(exp) < have || have < number * Size(exp)
  {
    MisplacedExactly(Some(body[..have]), ExtractBlock(body, number, exp).value);
  }

  /** A block that comes a second time, and one that comes before its predecessor, are errors; the first is not. */
  lemma RepeatedOrSkippedIsMisplaced(body: seq<Byte>, number: nat, exp: nat)
    requires number > 0 && (number + 1) * Size(exp) < |body|
    ensures number * Size(exp) <= |body| && ExtractBlock(body, number, exp).Some?
    ensures ExtractBlock(body, number + 1, exp).Some?
    ensures var before := Some(body[..number * Size(exp)]); var b := ExtractBlock(body, number, exp).value;
      && Feed(before, b).1 == Wait
      && Feed(Feed(before, b).0, b).1 == Misplaced
      && Feed(before, ExtractBlock(body, number + 1, exp).value).1 == Misplaced
  {
    assert (number + 1) * Size(exp) == number * Size(exp) + Size(exp);
    var b := ExtractBlock(body, number, exp).value;
    assert body[..number * Size(exp)] + b.data == body[..(number + 1) * Size(exp)];
    BodyBlockIsMisplacedExactly(body, (number + 1) * Size(exp), number, exp);
    BodyBlockIsMisplacedExactly(body, number * Size(exp), number + 1, exp);
  }

  function FeedAll(assembly: Option<seq<Byte>>, sent: seq<Block>): (Option<seq<Byte>>, seq<Fed>)
    decreases |sent|
  {
    if sent == [] then (assembly, [])
    else
      var (next, result) := Feed(assembly, sent[0]);
      var (last, results) := FeedAll(next, sent[1..]);
      (last, [result] + results)
  }

  function Length(sent: seq<Block>): nat {
    if sent == [] then 0 else |sent[0].data| + Length(sent[1..])
  }

  /** What the spool answers along the way: wait for all blocks but the last, and then the body. */
  predicate AnswersOf(payload: seq<Byte>, sent: seq<Block>, results: seq<Fed>) {
    && |results| == |sent|
    && forall i :: 0 <= i < |sent| ==>
      results[i] == if sent[i].option.more then Wait else Assembled(payload)
  }

  lemma {:induction false} SpoolAssembles(payload: seq<Byte>, offset: nat, assembly: Option<seq<Byte>>,
                                          sent: seq<Block>)
    requires Consecutive(payload, offset, sent) && offset <= |payload|
    requires offset > 0 ==> assembly == Some(payload[..offset])
    ensures var (last, results) := FeedAll(assembly, sent);
      && AnswersOf(payload, sent, results)
      && offset + Length(sent) <= |payload|
      && (sent != [] ==> last == Some(payload[..offset + Length(sent)]))
    decreases |sent|
  {
    if sent != [] {
      hide Size;
      var b := sent[0];
      var (next, result) := Feed(assembly, b);
      assert payload[..offset] + payload[offset..offset + |b.data|] == payload[..offset + |b.data|];
      assert offset == 0 ==> payload[..|b.data|] == b.data;
      assert payload[..|payload|] == payload;
      SpoolAssembles(payload, offset + |b.data|, next, sent[1..]);
    }
  }

  /**
   A block-wise request is lossless: whatever the server replies and however it shrinks
   the blocks, its spool holds the bytes sent so far, and if the client gets to send its
   last block, the server gets exactly the body.
   */
  lemma RequestIsLossless(payload: seq<Byte>, exp: nat, replies: seq<Reply>, stale: Option<seq<Byte>>)
    requires payload != []
    ensures var sent := SentBlocks(payload, 0, exp, replies);
      var (last, results) := FeedAll(stale, sent);
      && |sent| > 0 && Length(sent) <= |payload| && last == Some(payload[..Length(sent)])
      && AnswersOf(payload, sent, results)
  {
    ClientSendsConsecutively(payload, 0, exp, replies);
    SpoolAssembles(payload, 0, stale, SentBlocks(payload, 0, exp, replies));
    assert ExtractBlock(payload, 0, exp).Some?;
  }

  /** A server that keeps the transfer going: it mirrors the block number and asks for more until the end. */
  predicate Cooperative(sent: seq<Block>, replies: seq<Reply>) {
    && |replies| == |sent|
    && forall i :: 0 <= i < |sent| ==>
      && replies[i].block1.Some? && replies[i].block1.value.number == sent[i].option.number
      && replies[i].block1.value.more == sent[i].option.more
      && (sent[i].option.more <==> replies[i].code == Continue)
  }

  /** Each round sends at least 16 bytes, so the loop ends after that many rounds at most. */
  lemma {:induction false} EveryRoundSends(payload: seq<Byte>, offset: nat, sent: seq<Block>)
    requires Consecutive(payload, offset, sent) && sent != []
    ensures Length(sent) >= 16 * (|sent| - 1) + 1
    decreases |sent|
  {
    if |sent| > 1 {
      EveryRoundSends(payload, offset + |sent[0].data|, sent[1..]);
    }
  }

  lemma {:induction false} CooperativeFinishes(payload: seq<Byte>, cursor: nat, exp: nat, replies: seq<Reply>)
    requires cursor * Size(exp) < |payload|
    requires Cooperative(SentBlocks(payload, cursor, exp, replies), replies)
    ensures var sent := SentBlocks(payload, cursor, exp, replies);
      sent != [] && !sent[|sent| - 1].option.more && cursor * Size(exp) + Length(sent) == |payload|
    decreases |replies|
  {
    hide Size;
    var b := ExtractBlock(payload, cursor, exp).value;
    var sent := SentBlocks(payload, cursor, exp, replies);
    ExtractedBlock(payload, cursor, exp);
    assert sent[0] == b;
    RoundKeepsCursor(payload, cursor, exp, replies[0]);
    var next := Digest(b, cursor, exp, replies[0]);
    if b.option.more {
      var rest := SentBlocks(payload, next.cursor, next.exp, replies[1..]);
      assert sent[1..] == rest;
      forall i | 0 <= i < |rest|
        ensures replies[1..][i].block1.Some? && replies[1..][i].block1.value.number == rest[i].option.number
        ensures replies[1..][i].block1.value.more == rest[i].option.more
        ensures rest[i].option.more <==> replies[1..][i].code == Continue
      {
        assert sent[i + 1] == rest[i] && replies[1..][i] == replies[i + 1];
      }
      CooperativeFinishes(payload, next.cursor, next.exp, replies[1..]);
      assert rest != [] && sent[|sent| - 1] == rest[|rest| - 1];
    } else {
      assert sent == [b];
      assert Length(sent[1..]) == 0;
    }
  }

  /** With a cooperative server the transfer ends, and the last answer is the whole body. */
  lemma RequestArrives(payload: seq<Byte>, exp: nat, replies: seq<Reply>)
    requires payload != [] && Cooperative(SentBlocks(payload, 0, exp, replies), replies)
    ensures var results := FeedAll(None, SentBlocks(payload, 0, exp, replies)).1;
      results != [] && results[|results| - 1] == Assembled(payload)
  {
    assert 0 * Size(exp) == 0;
    CooperativeFinishes(payload, 0, exp, replies);
    RequestIsLossless(payload, exp, replies, None);
  }

  // ---- The client that fetches ----

  function Quotient(n: nat, size: nat): nat
    requires size > 0
  {
    n / size
  }

  /** The request for what follows the bytes received so far, in blocks no larger than the last one. */
  function NextRequest(received: nat, last: BlockOption, maximum: nat): BlockOption {
    ReducedTo(BlockOption(Quotient(received, Size(last.exp)), false, last.exp), maximum)
  }

  /** The server's cached body, in blocks no larger than requested. */
  function ServeBlock(body: seq<Byte>, request: BlockOption, limit: nat): Option<Block> {
    var o := ReducedTo(request, limit);
    ExtractBlock(body, o.number, o.exp)
  }

  predicate ValidSize(b: Block) {
    if b.option.more then |b.data| == Size(b.option.exp) else |b.data| <= Size(b.option.exp)
  }

  datatype Fetch =
    | Unexpected
    | OutOfOrder
    | Fetched(body: seq<Byte>)
    | Open(received: seq<Byte>, last: BlockOption)

  function Append(received: seq<Byte>, b: Block): Fetch {
    if !ValidSize(b) then Unexpected
    else if b.option.Start() != |received| then OutOfOrder
    else if b.option.more then Open(received + b.data, b.option)
    else Fetched(received + b.data)
  }

  /** What a client refuses: a block that is not of its size, and one that does not begin where the bytes end. */
  lemma AppendRefusesExactly(received: seq<Byte>, b: Block)
    ensures Append(received, b) == Unexpected <==>
      (b.option.more && |b.data| != Size(b.option.exp)) || |b.data| > Size(b.option.exp)
    ensures Append(received, b) == OutOfOrder <==>
      Append(received, b) != Unexpected && b.option.number * Size(b.option.exp) != |received|
  {
  }

  /** Limits on the block size that client and server apply in one round. */
  datatype Limits = Limits(client: nat, server: nat)

  /** Rounds of fetching; nothing is left open if the rounds suffice. */
  function FetchRest(body: seq<Byte>, received: seq<Byte>, last: BlockOption, limits: seq<Limits>): Fetch
    decreases |limits|
  {
    if limits == [] then Open(received, last)
    else
      var b := ServeBlock(body, NextRequest(|received|, last, limits[0].client), limits[0].server);
      if b.None? then Unexpected
      else
        var next := Append(received, b.value);
        if next.Open? then FetchRest(body, next.received, next.last, limits[1..]) else next
  }

  /** What has been received is a proper prefix that ends at a block boundary. */
  ghost predicate Halfway(body: seq<Byte>, received: seq<Byte>, last: BlockOption) {
    && |received| < |body| && received == body[..|received|]
    && exists k: nat :: k * Size(last.exp) == |received|
  }

  lemma {:induction false} BoundaryDivides(size: nat, k: nat)
    requires size > 0
    ensures Quotient(k * size, size) == k
  {
    if k > 0 {
      BoundaryDivides(size, k - 1);
      assert k * size == (k - 1) * size + size;
    }
  }

  /** The next request asks for the byte behind those received, in whatever block size. */
  lemma RequestStartsBehind(body: seq<Byte>, received: seq<Byte>, last: BlockOption, maximum: nat)
    requires Halfway(body, received, last)
    ensures NextRequest(|received|, last, maximum).Start() == |received|
  {
    var k: nat :| k * Size(last.exp) == |received|;
    BoundaryDivides(Size(last.exp), k);
    ReducedKeepsStart(BlockOption(k, false, last.exp), maximum);
  }

  function Smallest(a: nat, b: nat, c: nat): nat {
    if a <= b && a <= c then a else if b <= c then b else c
  }

  lemma RequestSize(received: nat, last: BlockOption, maximum: nat)
    ensures NextRequest(received, last, maximum).exp == if maximum < last.exp then maximum else last.exp
    ensures !NextRequest(received, last, maximum).more
  {
    hide ReducedTo, Quotient;
    ReducedKeepsStart(BlockOption(Quotient(received, Size(last.exp)), false, last.exp), maximum);
  }

  /**
   What is served for a request begins where the request says, in blocks as large as the
   last one, the client and the server allow, and as many bytes of that as there are.
   */
  lemma ServedExactly(body: seq<Byte>, received: seq<Byte>, last: BlockOption, limits: Limits)
    requires Halfway(body, received, last)
    ensures var b := ServeBlock(body, NextRequest(|received|, last, limits.client), limits.server);
      && b.Some? && b.value.option.exp == Smallest(last.exp, limits.client, limits.server)
      && var end := |received| + Size(b.value.option.exp);
        && b.value.option.Start() == |received|
        && b.value.data == body[|received|..if end < |body| then end else |body|]
        && (b.value.option.more <==> end < |body|)
  {
    hide ReducedTo, Size;
    var request := NextRequest(|received|, last, limits.client);
    RequestStartsBehind(body, received, last, limits.client);
    RequestSize(|received|, last, limits.client);
    ReducedKeepsStart(request, limits.server);
    var o := ReducedTo(request, limits.server);
    assert o.number * Size(o.exp) == |received|;
  }

  /** A round appends exactly the next block of the body. */
  lemma RoundFetches(body: seq<Byte>, received: seq<Byte>, last: BlockOption, limits: Limits)
    requires Halfway(body, received, last)
    ensures var b := ServeBlock(body, NextRequest(|received|, last, limits.client), limits.server);
      b.Some? &&
      var next := Append(received, b.value);
      if next.Open? then |next.received| >= |received| + 16 && Halfway(body, next.received, next.last)
      else next == Fetched(body)
  {
    hide ReducedTo;
    var request := NextRequest(|received|, last, limits.client);
    RequestStartsBehind(body, received, last, limits.client);
    ReducedKeepsStart(request, limits.server);
    var o := ReducedTo(request, limits.server);
    ExtractedBlock(body, o.number, o.exp);
    var b := ExtractBlock(body, o.number, o.exp).value;
    var all := received + b.data;
    assert all == body[..|all|];
    if b.option.more {
      assert (o.number + 1) * Size(o.exp) == o.number * Size(o.exp) + Size(o.exp);
      assert (o.number + 1) * Size(b.option.exp) == |all|;
    } else {
      assert body[..|body|] == body;
    }
  }

  /**
   A block-wise response is lossless: however client and server shrink the blocks, the
   client holds a prefix of the body at every moment, never fails, and after enough
   rounds has exactly the body.
   */
  lemma {:induction false} ResponseIsLossless(body: seq<Byte>, received: seq<Byte>, last: BlockOption,
                                              limits: seq<Limits>)
    requires Halfway(body, received, last)
    ensures var r := FetchRest(body, received, last, limits);
      || r == Fetched(body)
      || (r.Open? && Halfway(body, r.received, r.last) && |r.received| >= |received| + 16 * |limits|)
    decreases |limits|
  {
    if limits != [] {
      hide ServeBlock, NextRequest, Append, Halfway;
      RoundFetches(body, received, last, limits[0]);
      var b := ServeBlock(body, NextRequest(|received|, last, limits[0].client), limits[0].server);
      var next := Append(received, b.value);
      if next.Open? {
        ResponseIsLossless(body, next.received, next.last, limits[1..]);
      }
    }
  }

  /** The first block of a body that does not fit one block starts a fetch that succeeds. */
  lemma ResponseArrives(body: seq<Byte>, exp: nat, limits: seq<Limits>)
    requires |body| > Size(exp) && 16 * |limits| >= |body|
    ensures var first := ExtractBlock(body, 0, exp);
      && first.Some? && first.value.option.more
      && FetchRest(body, first.value.data, first.value.option, limits) == Fetched(body)
  {
    var first := ExtractBlock(body, 0, exp).value;
    assert 1 * Size(first.option.exp) == |first.data|;
    ResponseIsLossless(body, first.data, first.option, limits);
  }

  // ---- The code ----

  /** Requests being assembled, by block key. */
  class Block1Spool {
    var assemblies: map<nat, seq<Byte>>

    constructor ()
      ensures assemblies == map[]
    {
      assemblies := map[];
    }

    function Assembly(key: nat): Option<seq<Byte>>
      reads this
    {
      if key in assemblies then Some(assemblies[key]) else None
    }

    method FeedAndTake(key: nat, b: Block) returns (result: Fed)
      modifies this
      ensures (Assembly(key), result) == Feed(old(Assembly(key)), b)
      ensures forall k :: k != key ==> Assembly(k) == old(Assembly(k))
    {
      if b.option.number == 0 {
        assemblies := assemblies[key := b.data];
      } else if key !in assemblies {
        return Incomplete;
      } else {
        if b.option.more && |b.data| != Size(b.option.exp) {
          return WrongSize;
        }
        if b.option.Start() != |assemblies[key]| {
          return Misplaced;
        }
        assemblies := assemblies[key := assemblies[key] + b.data];
      }
      return if b.option.more then Wait else Assembled(assemblies[key]);
    }
  }

  /** Whoever makes the blocks smaller counts the cursor in the new size. */
  method Rescale(from: nat, fromExp: nat, asked: nat) returns (cursor: nat, exp: nat)
    ensures (cursor, exp) == Shrink(from, fromExp, asked)
    ensures cursor * Size(exp) == from * Size(fromExp)
  {
    cursor, exp := from, fromExp;
    while asked < exp
      invariant Shrink(cursor, exp, asked) == Shrink(from, fromExp, asked)
      decreases exp
    {
      cursor := cursor * 2;
      exp := exp - 1;
    }
    ShrinkKeepsOffset(from, fromExp, asked);
  }

  lemma BlockExists(payload: seq<Byte>, cursor: nat, exp: nat)
    requires cursor * Size(exp) < |payload|
    ensures ExtractBlock(payload, cursor, exp).Some?
  {
  }

  lemma SpoolTakes(payload: seq<Byte>, sent: nat, assembly: Option<seq<Byte>>, b: Block)
    requires b.option.Start() == sent && sent + |b.data| <= |payload| && b.data == payload[sent..sent + |b.data|]
    requires b.option.more ==> |b.data| == Size(b.option.exp)
    requires b.option.number == 0 <==> sent == 0
    requires sent > 0 ==> assembly == Some(payload[..sent])
    ensures var body := payload[..sent + |b.data|];
      Feed(assembly, b) == (Some(body), if b.option.more then Wait else Assembled(body))
  {
    hide Size;
    assert payload[..sent] + b.data == payload[..sent + |b.data|];
    assert sent == 0 ==> payload[..|b.data|] == b.data;
  }

  /** The Block1 loop against a server that answers with its spool's verdict and a size of its choice. */
  method SendRequest(payload: seq<Byte>, firstExp: nat, spool: Block1Spool, key: nat, sizes: nat -> nat)
      returns (last: Fed, sent: nat)
    requires payload != []
    modifies spool
    ensures last == Assembled(payload) && sent == |payload|
    ensures spool.Assembly(key) == Some(payload)
    ensures forall k :: k != key ==> spool.Assembly(k) == old(spool.Assembly(k))
  {
    hide Size, ExtractBlock, Feed;
    var cursor, exp := 0, firstExp;
    sent := 0;
    var round := 0;
    assert 0 * Size(exp) == 0;
    while true
      invariant cursor * Size(exp) == sent < |payload| && 0 <= cursor
      invariant sent > 0 ==> spool.Assembly(key) == Some(payload[..sent])
      invariant forall k :: k != key ==> spool.Assembly(k) == old(spool.Assembly(k))
      decreases |payload| - sent
    {
      BlockExists(payload, cursor, exp);
      ExtractedBlock(payload, cursor, exp);
      var b := ExtractBlock(payload, cursor, exp).value;
      SpoolTakes(payload, sent, spool.Assembly(key), b);
      last := spool.FeedAndTake(key, b);
      sent := sent + |b.data|;
      if !b.option.more {
        assert payload[..sent] == payload;
        return;
      }
      assert (cursor + 1) * Size(exp) == cursor * Size(exp) + Size(exp);
      cursor := cursor + 1;
      cursor, exp := Rescale(cursor, exp, sizes(round));
      round := round + 1;
    }
  }

  method FetchResponse(body: seq<Byte>, firstExp: nat, limits: nat -> Limits) returns (received: seq<Byte>)
    requires |body| > Size(firstExp)
    ensures received == body
  {
    var first := ExtractBlock(body, 0, firstExp).value;
    received := first.data;
    var last := first.option;
    assert 1 * Size(last.exp) == |received|;
    var round := 0;
    while true
      invariant Halfway(body, received, last)
      decreases |body| - |received|
    {
      var l := limits(round);
      RoundFetches(body, received, last, l);
      var request := NextRequest(|received|, last, l.client);
      var b := ServeBlock(body, request, l.server).value;
      received := received + b.data;
      last := b.option;
      if !last.more {
        return;
      }
      round := round + 1;
    }
  }
}
