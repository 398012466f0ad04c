/**
 Taking apart a bundle that carries several CoAP messages back to back. Only the
 Payload-Length option tells where a message ends. The payload marker is looked for in
 the message as the splitter would write it, not in the bytes received. The proxy node
 goes on behind an error byte by byte, the server node gives up.
 */
module ProxySplit {
  import opened Bytes
  import opened CoapMessage
  import opened OptionFormats

  const PAYLOAD_LENGTH: nat := 65000

  /** Position of the first payload marker byte, or the length if there is none. */
  function FindMarker(raw: seq<Byte>): (i: nat)
    ensures i <= |raw| && MARKER !in raw[..i] && (i < |raw| ==> raw[i] == MARKER)
  {
    if raw == [] || raw[0] == MARKER then 0
    else
      var i := 1 + FindMarker(raw[1..]);
      assert raw[..i] == [raw[0]] + raw[1..][..i - 1];
      i
  }

  /** The value of the first Payload-Length option; zero counts as missing. */
  function AnnouncedLength(options: seq<CoapOption>): nat {
    if options == [] then 0
    else if options[0].number == PAYLOAD_LENGTH then FromBytes(options[0].value)
    else AnnouncedLength(options[1..])
  }

  /** How many bytes the message at the front is taken to have, or none where an error is raised. */
  function NextLength(partial: seq<Byte>): (n: Option<nat>)
    ensures n.Some? ==> n.value > 0
  {
    var m := Decode(partial);
    if m.None? then None
    else if AnnouncedLength(m.value.options) == 0 then None
    else if !Encodable(m.value.options, 0) then None
    else
      DecodedInRange(partial);
      var encoded := Encode(m.value);
      var marker := FindMarker(encoded);
      if marker == |encoded| then None else Some(marker + 1 + AnnouncedLength(m.value.options))
  }

  function Take(raw: seq<Byte>, n: nat): (seq<Byte>, seq<Byte>) {
    if n <= |raw| then (raw[..n], raw[n..]) else (raw, [])
  }

  /** The proxy node: an error costs one byte, then it tries again. */
  function Split(raw: seq<Byte>): seq<Message>
    decreases |raw|
  {
    if raw == [] then []
    else
      var n := NextLength(raw);
      if n.None? then Split(raw[1..])
      else
        var (front, rest) := Take(raw, n.value);
        var m := Decode(front);
        if m.Some? then [m.value] + Split(rest)
        else if rest == [] then []
        else Split(rest[1..])
  }

  /** The server node: an error ends the bundle. */
  function SplitUntilError(raw: seq<Byte>): seq<Message>
    decreases |raw|
  {
    if raw == [] then []
    else
      var n := NextLength(raw);
      if n.None? then []
      else
        var (front, rest) := Take(raw, n.value);
        var m := Decode(front);
        if m.Some? then [m.value] + SplitUntilError(rest) else []
  }

  // ---- Aggregation and splitting ----

  /** What precedes the payload marker. */
  function Header(m: Message): seq<Byte>
    requires Sendable(m)
  {
    Head(m) + EncodeOptions(m.options, 0)
  }

  /** A message whose option announces its payload. */
  predicate Announced(m: Message) {
    Sendable(m) && m.payload != [] && AnnouncedLength(m.options) == |m.payload|
  }

  /** Written as the splitter would write it, and without another marker byte. */
  predicate Separable(m: Message) {
    Announced(m) && AllProper(m.options) && MARKER !in Header(m)
  }

  function Aggregate(messages: seq<Message>): seq<Byte>
    requires forall m :: m in messages ==> Sendable(m)
  {
    if messages == [] then [] else Encode(messages[0]) + Aggregate(messages[1..])
  }

  lemma MarkerBehind(header: seq<Byte>, rest: seq<Byte>)
    ensures FindMarker(header + [MARKER] + rest) == |header| <==> MARKER !in header
    ensures FindMarker(header + [MARKER] + rest) <= |header|
  {
    var all := header + [MARKER] + rest;
    var i := FindMarker(all);
    assert all[|header|] == MARKER;
    if i < |header| {
      assert header[i] == MARKER;
    } else {
      assert all[..|header|] == header;
    }
  }

  /** With more behind it, a message is read with everything that follows in its payload. */
  lemma DecodeWithMore(m: Message, more: seq<Byte>)
    requires Sendable(m) && m.payload != []
    ensures Decode(Encode(m) + more) == HeldMessage(m.(payload := m.payload + more))
  {
    hide Head, EncodeOptions, Decode, Encodable, HeldAll;
    var longer := m.(payload := m.payload + more);
    HeadIgnoresPayload(m, longer.payload);
    assert Encode(m) + more == Encode(longer);
    EncodingIsRead(longer);
  }

  lemma HeadIgnoresPayload(m: Message, payload: seq<Byte>)
    requires InRange(m)
    ensures Head(m.(payload := payload)) == Head(m)
  {
  }

  /** The options as they are held take no more bytes, and as many exactly if they are the ones received. */
  lemma {:induction false} HeldIsShorter(options: seq<CoapOption>, current: nat)
    requires Encodable(options, current) && HeldAll(options).Some?
    ensures var held := HeldAll(options).value;
      && Encodable(held, current) && AnnouncedLength(held) == AnnouncedLength(options)
      && |EncodeOptions(held, current)| <= |EncodeOptions(options, current)|
      && (|EncodeOptions(held, current)| == |EncodeOptions(options, current)| <==> held == options)
    decreases |options|
  {
    hide Held, Extended;
    if options != [] {
      var o, rest := options[0], options[1..];
      HeldIsProper(o);
      HeldIsShorter(rest, o.number);
      var h, held := Held(o).value, HeldAll(options).value;
      assert held[0] == h && held[1..] == HeldAll(rest).value;
      assert held == [h] + held[1..] && options == [o] + rest;
      ExtendedGrows(|h.value|, |o.value|);
    }
  }

  lemma ExtendedGrows(a: nat, b: nat)
    requires a <= b < EXTENDED_LIMIT
    ensures |Extended(a)| <= |Extended(b)|
  {
  }

  /** The length found, in terms of the message as the splitter would write it. */
  lemma NextLengthIs(m: Message, more: seq<Byte>)
    requires Announced(m) && HeldAll(m.options).Some?
    ensures var w := m.(options := HeldAll(m.options).value);
      && Sendable(w) && |Header(w)| <= |Header(m)| && (|Header(w)| == |Header(m)| <==> w == m)
      && NextLength(Encode(m) + more)
         == Some(FindMarker(Header(w) + [MARKER] + (m.payload + more)) + 1 + |m.payload|)
      && FindMarker(Header(w) + [MARKER] + (m.payload + more)) <= |Header(w)|
  {
    hide Head, EncodeOptions, Decode, Encodable, FindMarker, HeldAll, AnnouncedLength, InRange;
    DecodeWithMore(m, more);
    HeldIsShorter(m.options, 0);
    var w := m.(options := HeldAll(m.options).value);
    var longer := w.(payload := m.payload + more);
    assert InRange(w) && InRange(longer) && Head(w) == Head(m) && Head(longer) == Head(m) by {
      HeadIgnoresOptions(m, w.options, longer.payload);
    }
    assert Encode(longer) == Header(w) + [MARKER] + (m.payload + more);
    MarkerBehind(Header(w), m.payload + more);
  }

  lemma HeadIgnoresOptions(m: Message, options: seq<CoapOption>, payload: seq<Byte>)
    requires InRange(m)
    ensures var w := m.(options := options);
      InRange(w) && InRange(w.(payload := payload)) && Head(w) == Head(m) && Head(w.(payload := payload)) == Head(m)
  {
  }

  /**
   The end of an announced message is found exactly if every option value has the form in
   which it is written, numbers without leading zeros, and no byte in front of the payload
   marker looks like one. It is never taken too far; an error is raised exactly for bytes
   that are no text.
   */
  lemma EndFoundExactly(m: Message, more: seq<Byte>)
    requires Announced(m)
    ensures var n := NextLength(Encode(m) + more);
      && (n == Some(|Encode(m)|) <==> AllProper(m.options) && MARKER !in Header(m))
      && (n.Some? <==> TextsReadable(m.options))
      && (n.Some? ==> n.value <= |Encode(m)|)
  {
    hide Decode, FindMarker, HeldAll, AnnouncedLength, AllProper, TextsReadable, Header;
    HeldAllExactly(m.options);
    EncodeIsHeader(m);
    if HeldAll(m.options).Some? {
      NextLengthIs(m, more);
      MarkerBehind(Header(m), m.payload + more);
    } else {
      DecodeWithMore(m, more);
    }
  }

  lemma EncodeIsHeader(m: Message)
    requires Sendable(m) && m.payload != []
    ensures Encode(m) == Header(m) + [MARKER] + m.payload
  {
  }

  /** A request without token and with this Payload-Length. */
  function Request(length: seq<Byte>, payload: seq<Byte>): Message {
    Message(0, 2, 1, [], [CoapOption(PAYLOAD_LENGTH, length)], payload)
  }

  lemma FixedBytes()
    ensures ToBytes(1, 3) == [0, 0, 1] && ToBytes(64731, 2) == [252, 219]
  {
    assert ToBytes(1, 1) == [1] && ToBytes(0, 1) == [0] && ToBytes(0, 2) == [0, 0];
    assert 64731 / 256 == 252 && ToBytes(252, 1) == [252];
  }

  lemma RequestBytes(length: seq<Byte>, payload: seq<Byte>)
    requires |length| < 13
    ensures var m := Request(length, payload);
      Sendable(m) && Header(m) == [64, 2, 0, 0, 1, 224 + |length|, 252, 219] + length
  {
    hide ToBytes, Head, EncodeOption;
    FixedBytes();
    var m := Request(length, payload);
    var o := m.options[0];
    assert m.options == [o] && m.options[1..] == [] && Encodable([], o.number);
    assert Encodable(m.options, 0);
    assert EncodeOption(o, 0) == [224 + |length|, 252, 219] + length by {
      RequestOption(length);
    }
    assert m.options[1..] == [] && EncodeOptions([], 65000) == [];
    assert Head(m) == [64, 2, 0, 0, 1] by {
      RequestHead(length, payload);
    }
  }

  lemma RequestOption(length: seq<Byte>)
    requires |length| < 13
    ensures EncodeOption(CoapOption(PAYLOAD_LENGTH, length), 0) == [224 + |length|, 252, 219] + length
  {
    hide ToBytes;
    FixedBytes();
  }

  lemma RequestHead(length: seq<Byte>, payload: seq<Byte>)
    ensures Head(Request(length, payload)) == [64, 2, 0, 0, 1]
  {
    hide ToBytes;
    FixedBytes();
  }

  lemma RequestHeld(length: seq<Byte>, payload: seq<Byte>)
    ensures var m := Request(length, payload);
      && AnnouncedLength(m.options) == FromBytes(length)
      && HeldAll(m.options) == Some([CoapOption(PAYLOAD_LENGTH, ToMinimum(FromBytes(length)))])
  {
    hide ToMinimum, FromBytes;
    var m := Request(length, payload);
    var o := m.options[0];
    assert m.options[1..] == [] && HeldAll([]) == Some([]);
    assert FormatOf(PAYLOAD_LENGTH) == Number;
    assert m.options[0] == o && HeldAll(m.options[1..]) == Some([]);
    assert HeldAll(m.options) == Some([Held(o).value] + []) && [Held(o).value] + [] == [Held(o).value];
  }

  lemma LeadingZero()
    ensures FromBytes([0, 1]) == 1 && ToMinimum(1) == [1]
  {
    assert [0, 1][..1] == [0] && [0][..0] == [];
    assert FromBytes([0]) == 0 && ToMinimum(0) == [];
  }

  /**
   One leading zero in the Payload-Length: the last byte of the payload is cut off, and the
   splitter goes on inside the message.
   */
  lemma LeadingZeroCutsPayload(more: seq<Byte>)
    ensures var m := Request([0, 1], [7]);
      && Announced(m) && MARKER !in Header(m)
      && NextLength(Encode(m) + more) == Some(|Encode(m)| - 1)
      && Decode(Encode(m)[..|Encode(m)| - 1]) == Some(Request([1], []))
  {
    hide Decode, NextLength, Header, FindMarker, HeldAll, AnnouncedLength, Encode, DecodeOptions, Body;
    var m, w := Request([0, 1], [7]), Request([1], [7]);
    hide FromBytes, ToMinimum, Encodable, InRange, EncodeOptions, Head, AllProper, TextsReadable;
    LeadingZero();
    RequestBytes([0, 1], [7]);
    RequestHeld([0, 1], [7]);
    RequestBytes([1], [7]);
    NextLengthIs(m, more);
    MarkerBehind(Header(w), m.payload + more);
    EncodeIsHeader(m);
    WithoutPayload(m);
    assert Encode(m)[..|Encode(m)| - 1] == Header(m) + [MARKER];
  }

  /** Cut off behind its marker, a message is read without payload. */
  lemma WithoutPayload(m: Message)
    requires Sendable(m) && HeldAll(m.options).Some?
    ensures Decode(Header(m) + [MARKER]) == Some(m.(options := HeldAll(m.options).value, payload := []))
  {
    hide Head, EncodeOptions, Encodable, DecodeOptions, HeldAll, Body, Clip, TokenLength;
    var body := EncodeOptions(m.options, 0) + Tail(Some([]));
    HeadRoundTrip(m, body);
    OptionsRoundTrip(m.options, 0, Some([]));
    assert Header(m) + [MARKER] == Head(m) + body;
  }

  lemma SeparatesFirst(m: Message, more: seq<Byte>)
    requires Separable(m)
    ensures Encode(m) != []
    ensures Split(Encode(m) + more) == [m] + Split(more)
    ensures SplitUntilError(Encode(m) + more) == [m] + SplitUntilError(more)
  {
    hide Encode, Decode, NextLength, Header;
    EndFoundExactly(m, more);
    MessageRoundTrip(m);
    EncodedLength(m);
    assert (Encode(m) + more)[..|Encode(m)|] == Encode(m) && (Encode(m) + more)[|Encode(m)|..] == more;
  }

  /** Splitting gives back, in order, exactly the messages that were put together. */
  lemma {:induction false} SplitInvertsAggregate(messages: seq<Message>)
    requires forall m :: m in messages ==> Sendable(m)
    requires forall m :: m in messages ==> Separable(m)
    ensures Split(Aggregate(messages)) == messages
    ensures SplitUntilError(Aggregate(messages)) == messages
    decreases |messages|
  {
    hide Encode;
    if messages != [] {
      assert messages[0] in messages;
      SeparatesFirst(messages[0], Aggregate(messages[1..]));
      SplitInvertsAggregate(messages[1..]);
      assert messages == [messages[0]] + messages[1..];
    }
  }

  // ---- Errors ----

  /** No message begins with any of these bytes: the version is another one. */
  predicate Garbage(bytes: seq<Byte>) {
    forall b: Byte :: b in bytes ==> b / 64 != 1
  }

  lemma GarbageIsNone(raw: seq<Byte>)
    requires raw != [] && raw[0] / 64 != 1
    ensures NextLength(raw).None?
  {
  }

  lemma {:induction false} GarbageInFront(garbage: seq<Byte>, raw: seq<Byte>)
    requires Garbage(garbage)
    ensures Split(garbage + raw) == Split(raw)
    ensures garbage != [] ==> SplitUntilError(garbage + raw) == []
    decreases |garbage|
  {
    hide NextLength, Decode;
    if garbage == [] {
      assert garbage + raw == raw;
    } else {
      var all := garbage + raw;
      assert garbage[0] in garbage && all[0] == garbage[0];
      GarbageIsNone(all);
      assert all[1..] == garbage[1..] + raw;
      assert forall b :: b in garbage[1..] ==> b in garbage;
      GarbageInFront(garbage[1..], raw);
    }
  }

  lemma {:induction false} MessagesInFront(messages: seq<Message>, raw: seq<Byte>)
    requires forall m :: m in messages ==> Sendable(m)
    requires forall m :: m in messages ==> Separable(m)
    ensures Split(Aggregate(messages) + raw) == messages + Split(raw)
    ensures SplitUntilError(Aggregate(messages) + raw) == messages + SplitUntilError(raw)
    decreases |messages|
  {
    hide Encode, Split, SplitUntilError;
    if messages == [] {
      assert Aggregate(messages) + raw == raw;
    } else {
      var first, rest := messages[0], Aggregate(messages[1..]);
      assert first in messages && messages == [first] + messages[1..];
      assert Aggregate(messages) + raw == Encode(first) + (rest + raw);
      SeparatesFirst(first, rest + raw);
      MessagesInFront(messages[1..], raw);
    }
  }

  /**
   With bytes between the messages that begin none, the proxy node finds all messages, and
   the server node those in front of the bytes.
   */
  lemma GarbageIsSkipped(front: seq<Message>, garbage: seq<Byte>, back: seq<Message>)
    requires forall m :: m in front + back ==> Sendable(m)
    requires forall m :: m in front + back ==> Separable(m)
    requires Garbage(garbage) && garbage != []
    ensures (forall m :: m in front ==> Sendable(m)) && (forall m :: m in back ==> Sendable(m))
    ensures Split(Aggregate(front) + (garbage + Aggregate(back))) == front + back
    ensures SplitUntilError(Aggregate(front) + (garbage + Aggregate(back))) == front
  {
    hide Split, SplitUntilError, Aggregate, Garbage, Sendable, Separable;
    assert forall m :: m in front ==> m in front + back;
    assert forall m :: m in back ==> m in front + back;
    MessagesInFront(front, garbage + Aggregate(back));
    GarbageInFront(garbage, Aggregate(back));
    SplitInvertsAggregate(back);
    assert front + [] == front;
  }

  /** A request whose number begins with the byte of the marker. */
  function Marked(payload: seq<Byte>): Message {
    Message(0, 2, 0xFF0000, [], [CoapOption(PAYLOAD_LENGTH, [5])], payload)
  }

  const CUT: seq<Byte> := [64, 2, 0xFF, 0, 0, 225, 252, 219]

  lemma MarkedNumber()
    ensures ToBytes(0xFF0000, 3) == [0xFF, 0, 0]
  {
    hide ToBytes;
    NoBytes();
    LastByte(0, 0xFF, 0);
    LastByte(0xFF, 0, 1);
    LastByte(0xFF00, 0, 2);
  }

  lemma MarkedHead(payload: seq<Byte>)
    ensures Head(Marked(payload)) == [64, 2, 0xFF, 0, 0]
  {
    hide ToBytes;
    MarkedNumber();
  }

  lemma MarkedBytes(payload: seq<Byte>)
    requires |payload| == 5
    ensures Announced(Marked(payload)) && AllProper(Marked(payload).options)
    ensures Header(Marked(payload)) == CUT + [5]
  {
    hide ToBytes, Head, EncodeOption;
    var m := Marked(payload);
    var o := m.options[0];
    assert m.options[1..] == [] && Encodable([], o.number) && EncodeOptions([], o.number) == [];
    assert Encodable(m.options, 0);
    RequestOption([5]);
    MarkedHead(payload);
    assert FromBytes([5]) == 5 by {
      assert FromBytes([5][..0]) == 0;
    }
  }

  lemma MarkerInNumber(tail: seq<Byte>)
    ensures FindMarker(CUT + tail) == 2
  {
    var raw := CUT + tail;
    assert raw[1..][0] == 2 && raw[1..][1..] == raw[2..] && raw[2..][0] == MARKER;
    assert FindMarker(raw[2..]) == 0;
    assert FindMarker(raw[1..]) == 1;
  }

  lemma CutIsNoMessage()
    ensures Decode(CUT).None?
  {
    var body: seq<Byte> := [225, 252, 219];
    assert Body(CUT) == body;
    assert DecodeOptions(body, 0).None? by {
      hide FromBytes;
      var rest := body[1..];
      assert |rest| == 2 && rest[2..] == [];
      assert ReadExtended(14, rest) == Some((FromBytes(rest[..2]) + 269, []));
      assert DecodeOption(body, 0).None?;
    }
    hide DecodeOptions, Body;
  }

  /**
   Such a request is lost at both nodes: what is taken for it ends inside its option. The
   proxy node goes on behind one more byte, with the payload of the request.
   */
  lemma MarkedIsLost(payload: seq<Byte>, more: seq<Byte>)
    requires |payload| == 5
    ensures Sendable(Marked(payload)) && |Encode(Marked(payload))| == 15
    ensures Split(Encode(Marked(payload)) + more) == Split([MARKER] + payload + more)
    ensures SplitUntilError(Encode(Marked(payload)) + more) == []
  {
    hide Decode, Header, FindMarker, HeldAll, AnnouncedLength, Encode, NextLength, TextsReadable, AllProper;
    var m := Marked(payload);
    MarkedBytes(payload);
    HeldAllExactly(m.options);
    NextLengthIs(m, more);
    EncodeIsHeader(m);
    var raw := Encode(m) + more;
    assert Header(m) + [MARKER] + (payload + more) == CUT + ([5, MARKER] + payload + more);
    MarkerInNumber([5, MARKER] + payload + more);
    assert NextLength(raw) == Some(8);
    assert raw[..8] == CUT && raw[8..] == [5, MARKER] + payload + more;
    CutIsNoMessage();
    assert raw[8..][1..] == [MARKER] + payload + more;
  }

  // ---- The code ----

  method SplitBundle(raw: seq<Byte>) returns (messages: seq<Message>)
    ensures messages == Split(raw)
  {
    hide NextLength, Decode;
    messages := [];
    var offset := 0;
    while offset < |raw|
      invariant 0 <= offset
      invariant Split(raw) == messages + Split(if offset <= |raw| then raw[offset..] else [])
      decreases |raw| - offset
    {
      var partial := raw[offset..];
      assert partial[1..] == raw[offset + 1..];
      var n := NextLength(partial);
      if n.None? {
        offset := offset + 1;
        continue;
      }
      var coapBytes := if n.value <= |partial| then partial[..n.value] else partial;
      ghost var rest := Take(partial, n.value).1;
      offset := offset + n.value;
      assert rest == if offset <= |raw| then raw[offset..] else [];
      var m := Decode(coapBytes);
      if m.Some? {
        ghost var others := Split(rest);
        assert messages + ([m.value] + others) == messages + [m.value] + others;
        messages := messages + [m.value];
      } else if offset < |raw| {
        assert rest[1..] == raw[offset + 1..];
        offset := offset + 1;
      } else {
        assert rest == [] && messages + [] == messages;
        return;
      }
    }
    assert messages + [] == messages;
  }

  lemma StrictStep(raw: seq<Byte>, n: nat)
    requires raw != [] && NextLength(raw) == Some(n)
    ensures var (front, rest) := Take(raw, n); var m := Decode(front);
      SplitUntilError(raw) == if m.Some? then [m.value] + SplitUntilError(rest) else []
  {
    hide NextLength, Decode;
  }

  lemma StrictEnd(raw: seq<Byte>)
    requires raw == [] || NextLength(raw).None?
    ensures SplitUntilError(raw) == []
  {
    hide NextLength, Decode;
  }

  method SplitBundleStrictly(raw: seq<Byte>) returns (messages: seq<Message>)
    ensures messages == SplitUntilError(raw)
  {
    hide NextLength, Decode, SplitUntilError;
    messages := [];
    var rest := raw;
    assert messages + SplitUntilError(raw) == SplitUntilError(raw);
    while rest != []
      invariant SplitUntilError(raw) == messages + SplitUntilError(rest)
      decreases |rest|
    {
      var n := NextLength(rest);
      if n.None? {
        StrictEnd(rest);
        assert messages + [] == messages;
        return;
      }
      StrictStep(rest, n.value);
      var coapBytes := if n.value <= |rest| then rest[..n.value] else rest;
      var m := Decode(coapBytes);
      if m.None? {
        assert messages + [] == messages;
        return;
      }
      rest := if n.value <= |rest| then rest[n.value..] else [];
      assert messages + ([m.value] + SplitUntilError(rest)) == messages + [m.value] + SplitUntilError(rest);
      messages := messages + [m.value];
    }
    StrictEnd(rest);
    assert messages + [] == messages;
  }
}
