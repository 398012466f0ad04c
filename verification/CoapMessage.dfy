/**
 CoAP messages on the wire (section 3 of RFC 7252), with the three-byte message
 number of draft-gomez-core-coap-bp-03. What is read of an option depends on its format.
 */
module CoapMessage {
  import opened Bytes
  import opened OptionFormats

  const MARKER: Byte := 0xFF
  const EXTENDED_LIMIT: nat := 65804

  datatype Message = Message(
    mtype: nat, code: Byte, mid: nat, token: seq<Byte>, options: seq<CoapOption>, payload: seq<Byte>)

  // ---- Extended fields ----

  function Nibble(v: nat): nat {
    if v < 13 then v else if v < 269 then 13 else 14
  }

  function Extended(v: nat): seq<Byte>
    requires v < EXTENDED_LIMIT
  {
    if v < 13 then [] else if v < 269 then [v - 13] else ToBytes(v - 269, 2)
  }

  function ReadExtended(nibble: nat, raw: seq<Byte>): Option<(nat, seq<Byte>)> {
    if nibble < 13 then Some((nibble, raw))
    else if nibble == 13 then if |raw| < 1 then None else Some((13 + raw[0] as nat, raw[1..]))
    else if nibble == 14 then if |raw| < 2 then None else Some((FromBytes(raw[..2]) + 269, raw[2..]))
    else None
  }

  lemma TwoBytes()
    ensures Pow256(2) == 0x1_0000
  {
    assert Pow256(1) == 256;
  }

  lemma ExtendedRoundTrip(v: nat, rest: seq<Byte>)
    requires v < EXTENDED_LIMIT
    ensures ReadExtended(Nibble(v), Extended(v) + rest) == Some((v, rest))
  {
    assert (Extended(v) + rest)[|Extended(v)|..] == rest;
    if v < 13 {
      assert Extended(v) + rest == rest;
    } else if v >= 269 {
      TwoBytes();
      FromToBytes(v - 269, 2);
      assert (Extended(v) + rest)[..2] == Extended(v);
    }
  }

  /** There is one way to write a number, and the reader accepts no other. */
  lemma ExtendedUnique(nibble: nat, raw: seq<Byte>)
    requires nibble < 16 && ReadExtended(nibble, raw).Some?
    ensures var (v, rest) := ReadExtended(nibble, raw).value;
      && v <= EXTENDED_LIMIT && |rest| <= |raw|
      && (v < EXTENDED_LIMIT ==> Nibble(v) == nibble && raw == Extended(v) + rest)
  {
    if nibble == 14 {
      TwoBytes();
      FromBytesBound(raw[..2]);
      ToFromBytes(raw[..2]);
      assert raw == raw[..2] + raw[2..];
    }
  }

  // ---- Options ----

  predicate Encodable(options: seq<CoapOption>, current: nat) {
    options == [] ||
    (current <= options[0].number < current + EXTENDED_LIMIT && |options[0].value| < EXTENDED_LIMIT
     && Encodable(options[1..], options[0].number))
  }

  function EncodeOption(o: CoapOption, current: nat): seq<Byte>
    requires current <= o.number < current + EXTENDED_LIMIT && |o.value| < EXTENDED_LIMIT
  {
    var delta, length := o.number - current, |o.value|;
    [Nibble(delta) * 16 + Nibble(length)] + Extended(delta) + Extended(length) + o.value
  }

  function EncodeOptions(options: seq<CoapOption>, current: nat): seq<Byte>
    requires Encodable(options, current)
  {
    if options == [] then []
    else EncodeOption(options[0], current) + EncodeOptions(options[1..], options[0].number)
  }

  /** The first option and what follows it. */
  function DecodeOption(raw: seq<Byte>, current: nat): (r: Option<(CoapOption, seq<Byte>)>)
    requires raw != []
    ensures r.Some? ==> |r.value.1| < |raw|
  {
    var delta := ReadExtended(raw[0] / 16, raw[1..]);
    if delta.None? then None
    else
      var length := ReadExtended(raw[0] % 16, delta.value.1);
      if length.None? || |length.value.1| < length.value.0 then None
      else
        Some((CoapOption(current + delta.value.0, length.value.1[..length.value.0]), length.value.1[length.value.0..]))
  }

  /** The options and, if there is a payload marker, the bytes behind it. */
  function DecodeOptions(raw: seq<Byte>, current: nat): Option<(seq<CoapOption>, Option<seq<Byte>>)>
    decreases |raw|
  {
    if raw == [] then Some(([], None))
    else if raw[0] == MARKER then Some(([], Some(raw[1..])))
    else
      var first := DecodeOption(raw, current);
      if first.None? then None
      else
        var rest := DecodeOptions(first.value.1, first.value.0.number);
        if rest.None? then None else Some(([first.value.0] + rest.value.0, rest.value.1))
  }

  lemma OptionRoundTrip(o: CoapOption, current: nat, rest: seq<Byte>)
    requires current <= o.number < current + EXTENDED_LIMIT && |o.value| < EXTENDED_LIMIT
    ensures var raw := EncodeOption(o, current) + rest;
      raw[0] != MARKER && DecodeOption(raw, current) == Some((o, rest))
  {
    hide Extended, ReadExtended;
    var delta, length := o.number - current, |o.value|;
    var raw := EncodeOption(o, current) + rest;
    assert raw[0] / 16 == Nibble(delta) && raw[0] % 16 == Nibble(length);
    assert raw[1..] == Extended(delta) + (Extended(length) + (o.value + rest));
    ExtendedRoundTrip(delta, Extended(length) + (o.value + rest));
    ExtendedRoundTrip(length, o.value + rest);
    assert (o.value + rest)[..length] == o.value && (o.value + rest)[length..] == rest;
  }

  function Tail(payload: Option<seq<Byte>>): seq<Byte> {
    if payload.None? then [] else [MARKER] + payload.value
  }

  lemma {:induction false} OptionsRoundTrip(options: seq<CoapOption>, current: nat, payload: Option<seq<Byte>>)
    requires Encodable(options, current)
    ensures DecodeOptions(EncodeOptions(options, current) + Tail(payload), current) == Some((options, payload))
    decreases |options|
  {
    hide EncodeOption, DecodeOption, EncodeOptions, Tail;
    if options == [] {
      NoOptions(current, payload);
    } else {
      var o, rest := options[0], EncodeOptions(options[1..], options[0].number) + Tail(payload);
      FirstOption(options, current, Tail(payload));
      OptionRoundTrip(o, current, rest);
      OptionsRoundTrip(options[1..], o.number, payload);
      assert options == [o] + options[1..];
    }
  }

  lemma NoOptions(current: nat, payload: Option<seq<Byte>>)
    ensures DecodeOptions(EncodeOptions([], current) + Tail(payload), current) == Some(([], payload))
  {
    assert [] + Tail(payload) == Tail(payload);
  }

  lemma FirstOption(options: seq<CoapOption>, current: nat, tail: seq<Byte>)
    requires Encodable(options, current) && options != []
    ensures EncodeOptions(options, current) + tail ==
      EncodeOption(options[0], current) + (EncodeOptions(options[1..], options[0].number) + tail)
  {
    hide EncodeOption;
  }

  lemma OptionUnique(raw: seq<Byte>, current: nat)
    requires raw != [] && DecodeOption(raw, current).Some?
    ensures var (o, rest) := DecodeOption(raw, current).value;
      && current <= o.number
      && (o.number < current + EXTENDED_LIMIT && |o.value| < EXTENDED_LIMIT ==> raw == EncodeOption(o, current) + rest)
  {
    hide Extended, ReadExtended;
    var (delta, behind) := ReadExtended(raw[0] / 16, raw[1..]).value;
    ExtendedUnique(raw[0] / 16, raw[1..]);
    ExtendedUnique(raw[0] % 16, behind);
    assert raw == [raw[0]] + raw[1..];
  }

  /** If the options read can be written at all, writing them gives the bytes back. */
  lemma {:induction false} OptionsUnique(raw: seq<Byte>, current: nat)
    requires DecodeOptions(raw, current).Some?
    requires Encodable(DecodeOptions(raw, current).value.0, current)
    ensures var (options, payload) := DecodeOptions(raw, current).value;
      raw == EncodeOptions(options, current) + Tail(payload)
    decreases |raw|
  {
    if raw != [] && raw[0] != MARKER {
      hide EncodeOption, DecodeOption;
      var (o, rest) := DecodeOption(raw, current).value;
      var (options, payload) := DecodeOptions(raw, current).value;
      assert options[0] == o && options[1..] == DecodeOptions(rest, o.number).value.0;
      OptionUnique(raw, current);
      OptionsUnique(rest, o.number);
      assert raw == EncodeOption(o, current) + EncodeOptions(options[1..], o.number) + Tail(payload);
    }
  }

  // ---- Messages ----

  predicate InRange(m: Message) {
    m.mtype < 4 && m.mid < 0x100_0000 && |m.token| < 16
  }

  predicate Sendable(m: Message) {
    InRange(m) && Encodable(m.options, 0)
  }

  function Head(m: Message): seq<Byte>
    requires InRange(m)
  {
    [64 + m.mtype * 16 + |m.token|, m.code] + ToBytes(m.mid, 3) + m.token
  }

  function Encode(m: Message): seq<Byte>
    requires Sendable(m)
  {
    Head(m) + EncodeOptions(m.options, 0) + if m.payload == [] then [] else [MARKER] + m.payload
  }

  function Clip(raw: seq<Byte>, from: nat, to: nat): seq<Byte>
    requires from <= to
  {
    raw[if from < |raw| then from else |raw|..if to < |raw| then to else |raw|]
  }

  function TokenLength(raw: seq<Byte>): nat
    requires raw != []
  {
    raw[0] % 16
  }

  /** What follows the token. */
  function Body(raw: seq<Byte>): seq<Byte>
    requires raw != []
  {
    Clip(raw, 5 + TokenLength(raw), |raw| + 5 + TokenLength(raw))
  }

  /** The options as they are held, and the bytes behind the payload marker. */
  function ReadBody(raw: seq<Byte>, current: nat): Option<(seq<CoapOption>, Option<seq<Byte>>)> {
    var parts := DecodeOptions(raw, current);
    if parts.None? then None
    else
      var options := HeldAll(parts.value.0);
      if options.None? then None else Some((options.value, parts.value.1))
  }

  /** Slices that reach beyond the input are clipped, so a short header is read as far as it goes. */
  function Decode(raw: seq<Byte>): Option<Message> {
    if |raw| < 2 || raw[0] / 64 != 1 then None
    else
      var body := ReadBody(Body(raw), 0);
      if body.None? then None
      else
        Some(Message(raw[0] / 16 % 4, raw[1], FromBytes(Clip(raw, 2, 5)), Clip(raw, 5, 5 + TokenLength(raw)),
                     body.value.0, if body.value.1.None? then [] else body.value.1.value))
  }

  lemma FirstByte(mtype: nat, length: nat)
    requires mtype < 4 && length < 16
    ensures var b := 64 + mtype * 16 + length; b < 256 && b / 64 == 1 && b / 16 % 4 == mtype && b % 16 == length
  {
    assert (64 + mtype * 16 + length) / 16 == 4 + mtype;
  }

  lemma ThreeBytes(mid: nat)
    requires mid < 0x100_0000
    ensures FromBytes(ToBytes(mid, 3)) == mid
  {
    assert Pow256(3) == 0x100_0000 by {
      TwoBytes();
    }
    FromToBytes(mid, 3);
  }

  lemma HeadRoundTrip(m: Message, body: seq<Byte>)
    requires InRange(m)
    ensures var raw := Head(m) + body;
      && |raw| >= 5 && raw[0] / 64 == 1 && raw[0] / 16 % 4 == m.mtype && raw[1] == m.code
      && TokenLength(raw) == |m.token| && FromBytes(Clip(raw, 2, 5)) == m.mid
      && Clip(raw, 5, 5 + |m.token|) == m.token
      && Body(raw) == body
  {
    hide ToBytes, FromBytes;
    var raw := Head(m) + body;
    FirstByte(m.mtype, |m.token|);
    ThreeBytes(m.mid);
    assert Clip(raw, 2, 5) == ToBytes(m.mid, 3);
  }

  function PayloadOf(m: Message): Option<seq<Byte>> {
    if m.payload == [] then None else Some(m.payload)
  }

  /** A message as its receiver holds it. */
  function HeldMessage(m: Message): Option<Message> {
    var options := HeldAll(m.options);
    if options.None? then None else Some(m.(options := options.value))
  }

  /** What comes back from the encoding of any message in range, with whatever bytes in its options. */
  lemma EncodingIsRead(m: Message)
    requires Sendable(m)
    ensures Decode(Encode(m)) == HeldMessage(m)
  {
    hide Head, EncodeOptions, DecodeOptions, Clip, TokenLength, Body, HeldAll;
    var body := EncodeOptions(m.options, 0) + Tail(PayloadOf(m));
    assert Encode(m) == Head(m) + body;
    HeadRoundTrip(m, body);
    OptionsRoundTrip(m.options, 0, PayloadOf(m));
  }

  /**
   A message in range comes back from its encoding exactly if every option value has the
   form in which it is written.
   */
  lemma MessageRoundTrip(m: Message)
    requires Sendable(m)
    ensures Decode(Encode(m)) == Some(m) <==> AllProper(m.options)
    ensures Decode(Encode(m)).Some? <==> TextsReadable(m.options)
  {
    hide Encode, Decode, HeldAll, AllProper, TextsReadable;
    EncodingIsRead(m);
    HeldAllExactly(m.options);
  }

  /**
   The header is complete, no option is one too large to write, all have the form in which
   they are written, and no marker stands at the end.
   */
  predicate Canonical(raw: seq<Byte>)
    requires Decode(raw).Some?
  {
    var body := DecodeOptions(Body(raw), 0).value;
    |raw| >= 5 + TokenLength(raw) && Encodable(body.0, 0) && AllProper(body.0) && body.1 != Some([])
  }

  lemma DecodedInRange(raw: seq<Byte>)
    requires Decode(raw).Some?
    ensures InRange(Decode(raw).value)
  {
    hide ReadBody;
    FromBytesBound(Clip(raw, 2, 5));
    assert Pow256(3) == 0x100_0000 && Pow256(2) <= Pow256(3) && Pow256(1) <= Pow256(3) && Pow256(0) <= Pow256(3) by {
      TwoBytes();
    }
  }

  lemma HeadUnique(raw: seq<Byte>)
    requires Decode(raw).Some? && |raw| >= 5 + TokenLength(raw)
    ensures InRange(Decode(raw).value) && Head(Decode(raw).value) == raw[..5 + TokenLength(raw)]
    ensures Body(raw) == raw[5 + TokenLength(raw)..]
  {
    hide ReadBody;
    DecodedInRange(raw);
    var m := Decode(raw).value;
    ToFromBytes(raw[2..5]);
    assert Clip(raw, 2, 5) == raw[2..5];
    assert raw[0] == 64 + m.mtype * 16 + |m.token|;
    assert raw[..5 + TokenLength(raw)] == [raw[0], raw[1]] + raw[2..5] + raw[5..5 + TokenLength(raw)];
  }

  lemma EncodedLength(m: Message)
    requires Sendable(m)
    ensures |Encode(m)| >= 5 + |m.token|
  {
  }

  lemma DecodedBody(raw: seq<Byte>)
    requires Decode(raw).Some?
    ensures var body := DecodeOptions(Body(raw), 0); var m := Decode(raw).value;
      && body.Some? && HeldAll(body.value.0) == Some(m.options)
      && m.payload == if body.value.1.None? then [] else body.value.1.value
  {
    hide DecodeOptions, Body, FromBytes, HeldAll;
  }

  lemma EncodedIsCanonical(raw: seq<Byte>, m: Message)
    requires Decode(raw) == Some(m) && Sendable(m) && Encode(m) == raw
    ensures Canonical(raw)
  {
    hide *;
    EncodingSplits(m);
    var body := EncodeOptions(m.options, 0) + Tail(PayloadOf(m));
    HeadRoundTrip(m, body);
    assert TokenLength(raw) == |m.token| && Body(raw) == body;
    EncodedLength(m);
    OptionsRoundTrip(m.options, 0, PayloadOf(m));
    assert DecodeOptions(Body(raw), 0) == Some((m.options, PayloadOf(m)));
    MessageRoundTrip(m);
    CanonicalIf(raw, m);
  }

  lemma EncodingSplits(m: Message)
    requires Sendable(m)
    ensures InRange(m) && Encodable(m.options, 0)
    ensures Encode(m) == Head(m) + (EncodeOptions(m.options, 0) + Tail(PayloadOf(m)))
  {
    hide Head, EncodeOptions, Encodable, InRange;
  }

  lemma CanonicalIf(raw: seq<Byte>, m: Message)
    requires Decode(raw).Some? && |raw| >= 5 + TokenLength(raw)
    requires Encodable(m.options, 0) && AllProper(m.options)
    requires DecodeOptions(Body(raw), 0) == Some((m.options, PayloadOf(m)))
    ensures Canonical(raw)
  {
    hide Decode, DecodeOptions, Body, TokenLength, Encodable, AllProper;
  }

  lemma CanonicalMeans(raw: seq<Byte>)
    requires Decode(raw).Some? && Canonical(raw)
    ensures |raw| >= 5 + TokenLength(raw) && Sendable(Decode(raw).value)
    ensures var body := DecodeOptions(Body(raw), 0);
      body.Some? && body.value.0 == Decode(raw).value.options && Encodable(body.value.0, 0) && body.value.1 != Some([])
  {
    hide Decode, DecodeOptions, Body, TokenLength, Encodable, AllProper, HeldAll, InRange;
    DecodedInRange(raw);
    DecodedBody(raw);
    HeldAllExactly(DecodeOptions(Body(raw), 0).value.0);
  }

  lemma CanonicalIsEncoded(raw: seq<Byte>, m: Message)
    requires Decode(raw) == Some(m) && Canonical(raw)
    ensures Sendable(m) && Encode(m) == raw
  {
    hide Head, EncodeOptions, DecodeOptions, Clip, Encodable, Body, Decode, InRange, Canonical, TokenLength, HeldAll;
    CanonicalMeans(raw);
    DecodedBody(raw);
    HeadUnique(raw);
    OptionsUnique(Body(raw), 0);
    var at := 5 + TokenLength(raw);
    assert raw == raw[..at] + raw[at..];
    var payload := DecodeOptions(Body(raw), 0).value.1;
    assert Tail(payload) == if m.payload == [] then [] else [MARKER] + m.payload;
    assert Encode(m) == Head(m) + (EncodeOptions(m.options, 0) + Tail(payload));
  }

  /** Encoding an accepted input again gives the input exactly if it is canonical. */
  lemma EncodingUniqueExactly(raw: seq<Byte>)
    requires Decode(raw).Some?
    ensures (Sendable(Decode(raw).value) && Encode(Decode(raw).value) == raw) <==> Canonical(raw)
  {
    hide Encode, Canonical, Sendable;
    var m := Decode(raw).value;
    if Sendable(m) && Encode(m) == raw {
      EncodedIsCanonical(raw, m);
    }
    if Canonical(raw) {
      CanonicalIsEncoded(raw, m);
    }
  }

  // ---- The code ----

  method WriteOptions(options: seq<CoapOption>) returns (data: Option<seq<Byte>>)
    requires forall i, j :: 0 <= i < j < |options| ==> options[i].number <= options[j].number
    ensures data.Some? <==> Encodable(options, 0)
    ensures data.Some? ==> data.value == EncodeOptions(options, 0)
  {
    var out: seq<Byte> := [];
    var current: nat := 0;
    for i := 0 to |options|
      invariant i < |options| ==> current <= options[i].number
      invariant Encodable(options, 0) <==> Encodable(options[i..], current)
      invariant Encodable(options, 0) ==> EncodeOptions(options, 0) == out + EncodeOptions(options[i..], current)
    {
      var o := options[i];
      assert options[i..][0] == o && options[i..][1..] == options[i + 1..];
      if o.number - current >= EXTENDED_LIMIT || |o.value| >= EXTENDED_LIMIT {
        return None;
      }
      out := out + EncodeOption(o, current);
      current := o.number;
    }
    return Some(out);
  }

  method ReadOptions(raw: seq<Byte>) returns (result: Option<(seq<CoapOption>, Option<seq<Byte>>)>)
    ensures result == ReadBody(raw, 0)
  {
    hide DecodeOption, Held;
    var rest := raw;
    var number: nat := 0;
    var options: seq<CoapOption> := [];
    assert ReadBody(raw, 0).Some? ==> options + ReadBody(raw, 0).value.0 == ReadBody(raw, 0).value.0;
    while rest != []
      invariant ReadBody(raw, 0) ==
        var r := ReadBody(rest, number);
        if r.None? then None else Some((options + r.value.0, r.value.1))
      decreases |rest|
    {
      if rest[0] == MARKER {
        assert options + [] == options;
        return Some((options, Some(rest[1..])));
      }
      var first := DecodeOption(rest, number);
      if first.None? {
        return None;
      }
      ReadStep(rest, number);
      var option := Held(first.value.0);
      if option.None? {
        return None;
      }
      ghost var r := ReadBody(first.value.1, first.value.0.number);
      assert r.Some? ==> options + ([option.value] + r.value.0) == options + [option.value] + r.value.0;
      options := options + [option.value];
      number := first.value.0.number;
      rest := first.value.1;
    }
    assert options + [] == options;
    return Some((options, None));
  }

  lemma ReadStep(raw: seq<Byte>, current: nat)
    requires raw != [] && raw[0] != MARKER && DecodeOption(raw, current).Some?
    ensures var (o, behind) := DecodeOption(raw, current).value; var r := ReadBody(behind, o.number);
      ReadBody(raw, current) ==
        if Held(o).None? || r.None? then None else Some(([Held(o).value] + r.value.0, r.value.1))
  {
    hide DecodeOption, Held;
    var (o, behind) := DecodeOption(raw, current).value;
    var parts := DecodeOptions(behind, o.number);
    if parts.Some? {
      assert ([o] + parts.value.0)[1..] == parts.value.0;
    }
  }
}
