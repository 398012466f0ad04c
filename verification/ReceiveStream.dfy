/**
 What a byte stream amounts to: the parser fed again and again, reset whenever it is
 done or has failed. This is the yardstick for the receive task, which does the same
 in rounds and may fall behind.
 */
module ReceiveStream {
  import opened Bytes
  import Bundle6
  import Bundle6Serializer
  import opened Bundle6Parser
  import opened Bundle6RoundTrip

  const VERSION_6: Byte := 6

  /**
   The parser, whether it was selected by a first byte, and what the parsers that ended
   so far handed over: a bundle, or nothing after a failure or without a payload.
   */
  datatype Receiver = Receiver(parser: Parser, selected: bool, outcomes: seq<Option<Bundle6.Bundle>>)

  predicate Steady(r: Receiver) {
    r.parser.status == Status.Good && Valid(r.parser) && (!r.selected ==> !r.parser.bulkRead)
  }

  function Fresh(structSize: nat): Receiver {
    Receiver(Reset(structSize), false, [])
  }

  /** After a round of parsing: a parser that is done or has failed is reset. */
  function Settle(structSize: nat, r: Receiver, p: Parser): (s: Receiver)
    requires p.status == Status.Good ==> Valid(p)
    ensures Steady(s)
  {
    if p.status == Status.Good then Receiver(p, true, r.outcomes)
    else Receiver(Reset(structSize), false, r.outcomes + [p.sent])
  }

  /** The input begins nothing that could be parsed: it is empty or of an unknown version. */
  predicate Stuck(r: Receiver, input: seq<Byte>) {
    !r.selected && (input == [] || input[0] != VERSION_6)
  }

  /** Parses all that can be parsed; what is left waits for more input. */
  function Drain(structSize: nat, r: Receiver, input: seq<Byte>): (res: (Receiver, seq<Byte>))
    requires Steady(r)
    ensures Steady(res.0)
    decreases |input|, if r.selected then 1 else 0
  {
    if Stuck(r, input) then (r, input)
    else
      hide Feed, Valid, Reset;
      FeedIsGood(r.parser, input);
      if !r.selected then
        FeedConsumes(r.parser, input);
        var (p, rest) := Feed(r.parser, input);
        if p.status == Status.Good then (Settle(structSize, r, p), rest)
        else Drain(structSize, Settle(structSize, r, p), rest)
      else
        var (p, rest) := Feed(r.parser, input);
        if p.status == Status.Good then (Settle(structSize, r, p), rest)
        else Drain(structSize, Settle(structSize, r, p), rest)
  }

  lemma {:induction false} FeedIsGood(p: Parser, input: seq<Byte>)
    requires p.status == Status.Good ==> Valid(p)
    ensures var (q, rest) := Feed(p, input);
      && (q.status == Status.Good ==> Valid(q))
      && |rest| <= |input| && rest == input[|input| - |rest|..]
    decreases |input|, if p.bulkRead then 1 else 0
  {
    hide ReadByte, FinishBulk, Valid;
    if p.status == Status.Good {
      if p.bulkRead {
        if p.nextBytes <= |input| {
          FinishBulkKeepsValid(p, input[..p.nextBytes]);
          FeedIsGood(FinishBulk(p, input[..p.nextBytes]), input[p.nextBytes..]);
        }
      } else if input != [] {
        ReadByteKeepsValid(p, input[0]);
        FeedIsGood(ReadByte(p, input[0]), input[1..]);
      }
    }
  }

  lemma FeedConsumes(p: Parser, input: seq<Byte>)
    requires p.status == Status.Good && Valid(p) && !p.bulkRead && input != []
    ensures |Feed(p, input).1| < |input|
  {
    hide ReadByte, Valid;
    ReadByteKeepsValid(p, input[0]);
    FeedIsGood(ReadByte(p, input[0]), input[1..]);
  }

  // ---- Chunks do not matter ----

  /** Parsing can be interrupted anywhere, if what was left over is put in front of the rest. */
  lemma {:induction false} FeedSplits(p: Parser, a: seq<Byte>, b: seq<Byte>)
    requires p.status == Status.Good ==> Valid(p)
    ensures var (q, left) := Feed(p, a);
      && (q.status == Status.Good ==> Valid(q))
      && Feed(p, a + b) == Feed(q, left + b)
    decreases |a|, if p.bulkRead then 1 else 0
  {
    hide ReadByte, FinishBulk, Valid;
    FeedIsGood(p, a);
    if p.status == Status.Good {
      if p.bulkRead {
        if p.nextBytes <= |a| {
          var data := a[..p.nextBytes];
          assert (a + b)[..p.nextBytes] == data && (a + b)[p.nextBytes..] == a[p.nextBytes..] + b;
          FinishBulkKeepsValid(p, data);
          FeedSplits(FinishBulk(p, data), a[p.nextBytes..], b);
        }
      } else if a != [] {
        assert (a + b)[0] == a[0] && (a + b)[1..] == a[1..] + b;
        ReadByteKeepsValid(p, a[0]);
        FeedSplits(ReadByte(p, a[0]), a[1..], b);
      }
    }
  }

  /** The receiver with its unread input stands for a round further on. */
  lemma DrainRound(structSize: nat, r: Receiver, a: seq<Byte>, b: seq<Byte>)
    requires Steady(r) && !Stuck(r, a)
    ensures var (p, left) := Feed(r.parser, a);
      && (p.status == Status.Good ==> Valid(p))
      && Drain(structSize, r, a + b) == Drain(structSize, Settle(structSize, r, p), left + b)
  {
    hide Feed, Valid, Reset;
    FeedSplits(r.parser, a, b);
    FeedIsGood(r.parser, a);
    var (p, left) := Feed(r.parser, a);
    FeedIsGood(p, left + b);
    assert a != [] ==> (a + b)[0] == a[0];
    if p.status != Status.Good {
      FeedOfEnded(p, left + b);
    }
  }

  lemma FeedOfEnded(p: Parser, input: seq<Byte>)
    requires p.status != Status.Good
    ensures Feed(p, input) == (p, input)
  {
  }

  /** Draining in two portions, with the left-over carried along, is draining at once. */
  lemma {:induction false} DrainSplits(structSize: nat, r: Receiver, a: seq<Byte>, b: seq<Byte>)
    requires Steady(r)
    ensures var (q, left) := Drain(structSize, r, a);
      Drain(structSize, r, a + b) == Drain(structSize, q, left + b)
    decreases |a|, if r.selected then 1 else 0
  {
    hide Feed, Valid, Reset;
    if !Stuck(r, a) {
      FeedIsGood(r.parser, a);
      DrainRound(structSize, r, a, b);
      var (p, left) := Feed(r.parser, a);
      if p.status != Status.Good {
        if !r.selected {
          FeedConsumes(r.parser, a);
        }
        DrainSplits(structSize, Settle(structSize, r, p), left, b);
      }
    }
  }

  lemma FreshIsSteady(structSize: nat)
    ensures Steady(Fresh(structSize))
  {
  }

  // ---- A stream of bundles ----

  function Stream(bundles: seq<Bundle6.Bundle>): seq<Byte> {
    if bundles == [] then [] else Bundle6Serializer.BundleBytes(bundles[0]) + Stream(bundles[1..])
  }

  function HandedOver(bundles: seq<Bundle6.Bundle>): seq<Option<Bundle6.Bundle>> {
    if bundles == [] then [] else [Some(Received(bundles[0]))] + HandedOver(bundles[1..])
  }

  /** A BPv6 bundle with a payload that the serializer writes and the parser has room for. */
  predicate Sendable(structSize: nat, b: Bundle6.Bundle) {
    && Bundle6Serializer.Serializable(b) && b.version == VERSION_6 && LastFlagAtEnd(b.blocks) && HasPayload(b.blocks)
    && structSize + Bundle6.DescriptorOf(b).length + 1 <= BUNDLE_MAX_SIZE
    && RoomFor(structSize + Bundle6.DescriptorOf(b).length + 1, b.blocks)
  }

  lemma FirstByteIsVersion(b: Bundle6.Bundle)
    requires Bundle6Serializer.Serializable(b)
    ensures Bundle6Serializer.BundleBytes(b) != [] && Bundle6Serializer.BundleBytes(b)[0] == b.version
  {
  }

  lemma DrainOneBundle(structSize: nat, r: Receiver, b: Bundle6.Bundle, rest: seq<Byte>)
    requires r.parser == Reset(structSize) && !r.selected && Steady(r) && Sendable(structSize, b)
    ensures Drain(structSize, r, Bundle6Serializer.BundleBytes(b) + rest) ==
      Drain(structSize, r.(outcomes := r.outcomes + [Some(Received(b))]), rest)
  {
    hide Feed, Valid, Reset, Drain, Bundle6Serializer.BundleBytes, Received, Bundle6Serializer.Serializable;
    var bytes := Bundle6Serializer.BundleBytes(b);
    FirstByteIsVersion(b);
    RoundTrip(b, structSize, []);
    assert bytes + [] == bytes;
    DrainRound(structSize, r, bytes, rest);
    assert [] + rest == rest;
  }

  // ---- One call of the parser ----

  /** What `bundle6_parser_read` makes of a buffer; bulk data is taken only if all of it is there. */
  function ReadBuffer(p: Parser, input: seq<Byte>): (Parser, seq<Byte>)
    requires p.status == Status.Good ==> Valid(p)
    decreases |input|, if p.bulkRead then 1 else 0
  {
    if input == [] || p.status != Status.Good then (p, input)
    else if p.bulkRead then
      if p.nextBytes > |input| then (p, input)
      else
        hide ReadByte;
        FinishBulkKeepsValid(p, input[..p.nextBytes]);
        ReadBuffer(FinishBulk(p, input[..p.nextBytes]), input[p.nextBytes..])
    else
      hide ReadByte;
      ReadByteKeepsValid(p, input[0]);
      ReadBuffer(ReadByte(p, input[0]), input[1..])
  }

  lemma {:induction false} ReadBufferSplits(p: Parser, a: seq<Byte>, b: seq<Byte>)
    requires p.status == Status.Good ==> Valid(p)
    ensures var (q, left) := ReadBuffer(p, a);
      && (q.status == Status.Good ==> Valid(q))
      && |left| <= |a| && left == a[|a| - |left|..]
      && (p.status == Status.Good && !p.bulkRead && a != [] ==> |left| < |a|)
      && Feed(p, a + b) == Feed(q, left + b)
    decreases |a|, if p.bulkRead then 1 else 0
  {
    hide ReadByte, FinishBulk, Valid;
    if a != [] && p.status == Status.Good {
      if p.bulkRead {
        if p.nextBytes <= |a| {
          var data := a[..p.nextBytes];
          assert (a + b)[..p.nextBytes] == data && (a + b)[p.nextBytes..] == a[p.nextBytes..] + b;
          FinishBulkKeepsValid(p, data);
          ReadBufferSplits(FinishBulk(p, data), a[p.nextBytes..], b);
        }
      } else {
        assert (a + b)[0] == a[0] && (a + b)[1..] == a[1..] + b;
        ReadByteKeepsValid(p, a[0]);
        ReadBufferSplits(ReadByte(p, a[0]), a[1..], b);
      }
    }
  }

  /** A call of the parser leaves the outcome of the whole input as it is. */
  lemma DrainRead(structSize: nat, r: Receiver, a: seq<Byte>, b: seq<Byte>)
    requires Steady(r) && !Stuck(r, a)
    ensures var (p, left) := ReadBuffer(r.parser, a);
      && (p.status == Status.Good ==> Valid(p))
      && Drain(structSize, r, a + b) == Drain(structSize, Settle(structSize, r, p), left + b)
  {
    hide Feed, Valid, Reset, ReadBuffer;
    ReadBufferSplits(r.parser, a, b);
    var (p, left) := ReadBuffer(r.parser, a);
    FeedIsGood(p, left + b);
    assert a != [] ==> (a + b)[0] == a[0];
    if p.status != Status.Good {
      FeedOfEnded(p, left + b);
    }
  }

  /** The receiver `q` with unread input `b` stands for `r` with `a`, whatever follows on the link. */
  ghost predicate Continues(structSize: nat, r: Receiver, a: seq<Byte>, q: Receiver, b: seq<Byte>)
    requires Steady(r) && Steady(q)
  {
    forall more: seq<Byte> :: Drain(structSize, r, a + more) == Drain(structSize, q, b + more)
  }

  lemma ReadContinues(structSize: nat, r: Receiver, a: seq<Byte>)
    requires Steady(r) && !Stuck(r, a)
    ensures var (p, left) := ReadBuffer(r.parser, a);
      && (p.status == Status.Good ==> Valid(p))
      && Continues(structSize, r, a, Settle(structSize, r, p), left)
  {
    hide Drain, ReadBuffer, Settle, Valid;
    ReadBufferSplits(r.parser, a, []);
    var (p, left) := ReadBuffer(r.parser, a);
    forall more: seq<Byte>
      ensures Drain(structSize, r, a + more) == Drain(structSize, Settle(structSize, r, p), left + more)
    {
      DrainRead(structSize, r, a, more);
    }
  }

  lemma SteadyMeans(r: Receiver)
    requires Steady(r)
    ensures r.parser.status == Status.Good && Valid(r.parser)
  {
  }

  lemma ContinuesSelf(structSize: nat, r: Receiver, a: seq<Byte>)
    requires Steady(r)
    ensures Continues(structSize, r, a, r, a)
  {
    hide Drain, Steady;
  }

  lemma ContinuesOn(structSize: nat, r: Receiver, a: seq<Byte>, q: Receiver, b: seq<Byte>, s: Receiver, c: seq<Byte>)
    requires Steady(r) && Steady(q) && Steady(s)
    requires Continues(structSize, r, a, q, b) && Continues(structSize, q, b, s, c)
    ensures Continues(structSize, r, a, s, c)
  {
    hide Drain, Steady;
  }

  lemma ContinuesNow(structSize: nat, r: Receiver, a: seq<Byte>, q: Receiver, b: seq<Byte>)
    requires Steady(r) && Steady(q) && Continues(structSize, r, a, q, b)
    ensures Drain(structSize, r, a) == Drain(structSize, q, b)
  {
    hide Drain, Steady;
    assert a + [] == a && b + [] == b;
  }

  method ParserRead(p: Parser, bytes: seq<Byte>) returns (q: Parser, parsed: nat)
    requires p.status == Status.Good ==> Valid(p)
    ensures parsed <= |bytes| && (q, bytes[parsed..]) == ReadBuffer(p, bytes)
  {
    hide ReadByte, FinishBulk, Valid;
    q, parsed := p, 0;
    while parsed < |bytes| && q.status == Status.Good
      invariant 0 <= parsed <= |bytes|
      invariant q.status == Status.Good ==> Valid(q)
      invariant ReadBuffer(p, bytes) == ReadBuffer(q, bytes[parsed..])
      decreases |bytes| - parsed, if q.bulkRead then 1 else 0
    {
      if q.bulkRead {
        if parsed + q.nextBytes > |bytes| {
          break;
        }
        var size := q.nextBytes;
        assert bytes[parsed..][..size] == bytes[parsed..parsed + size];
        assert bytes[parsed..][size..] == bytes[parsed + size..];
        FinishBulkKeepsValid(q, bytes[parsed..parsed + size]);
        q := FinishBulk(q, bytes[parsed..parsed + size]);
        parsed := parsed + size;
      } else {
        assert bytes[parsed..][0] == bytes[parsed] && bytes[parsed..][1..] == bytes[parsed + 1..];
        ReadByteKeepsValid(q, bytes[parsed]);
        q := ReadByte(q, bytes[parsed]);
        parsed := parsed + 1;
      }
    }
  }

  // ---- What has ended so far ----

  /** Draining only adds to what was handed over. */
  lemma {:induction false} DrainGrows(structSize: nat, r: Receiver, input: seq<Byte>)
    requires Steady(r)
    ensures r.outcomes <= Drain(structSize, r, input).0.outcomes
    decreases |input|, if r.selected then 1 else 0
  {
    hide Feed, Valid, Reset;
    if !Stuck(r, input) {
      FeedIsGood(r.parser, input);
      var (p, rest) := Feed(r.parser, input);
      if p.status != Status.Good {
        if !r.selected {
          FeedConsumes(r.parser, input);
        }
        DrainGrows(structSize, Settle(structSize, r, p), rest);
      }
    }
  }

  /** Parsers that end when the receiver goes through the input. */
  function Endings(structSize: nat, r: Receiver, input: seq<Byte>): nat
    requires Steady(r)
  {
    DrainGrows(structSize, r, input);
    |Drain(structSize, r, input).0.outcomes| - |r.outcomes|
  }

  /** The parser cannot go on with what is there. */
  predicate Quiet(p: Parser, left: seq<Byte>) {
    p.status == Status.Good && if p.bulkRead then p.nextBytes > |left| else left == []
  }

  /** Where the parser stops by itself: at an end, for want of input, or in front of an empty block. */
  lemma {:induction false} ReadBufferStops(p: Parser, a: seq<Byte>)
    requires p.status == Status.Good ==> Valid(p)
    ensures var (q, left) := ReadBuffer(p, a);
      q.status != Status.Good || Quiet(q, left) || (q.bulkRead && q.nextBytes == 0 && left == [])
    decreases |a|, if p.bulkRead then 1 else 0
  {
    hide ReadByte, FinishBulk, Valid;
    if a != [] && p.status == Status.Good {
      if p.bulkRead {
        if p.nextBytes <= |a| {
          FinishBulkKeepsValid(p, a[..p.nextBytes]);
          ReadBufferStops(FinishBulk(p, a[..p.nextBytes]), a[p.nextBytes..]);
        }
      } else {
        ReadByteKeepsValid(p, a[0]);
        ReadBufferStops(ReadByte(p, a[0]), a[1..]);
      }
    }
  }

  lemma QuietStays(structSize: nat, r: Receiver, left: seq<Byte>)
    requires Steady(r) && Quiet(r.parser, left)
    ensures Drain(structSize, r, left) == (r, left)
  {
    hide Valid, Reset;
    assert Feed(r.parser, left) == (r.parser, left);
  }

  lemma StuckStays(structSize: nat, r: Receiver, left: seq<Byte>)
    requires Steady(r) && Stuck(r, left)
    ensures Drain(structSize, r, left) == (r, left)
  {
  }
}
