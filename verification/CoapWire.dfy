/**
 The CoAP message format and UTF-8 without their readers: a message byte by byte (figure 7 and
 section 3.1 of RFC 7252, with the three-byte message number), and which byte strings are
 texts (section 3 of RFC 3629).
 */
module CoapWire {
  import opened Bytes
  import opened OptionFormats
  import opened CoapMessage

  // ---- Numbers of two and three bytes ----

  lemma ThreeBytesExample()
    ensures ToBytes(0x127D34, 3) == [0x12, 0x7D, 0x34]
  {
    hide ToBytes;
    NoBytes();
    LastByte(0, 0x12, 0);
    LastByte(0x12, 0x7D, 1);
    LastByte(0x127D, 0x34, 2);
  }

  /** Where the extended fields begin, and how they go on. */
  lemma ExtendedExamples()
    ensures Nibble(12) == 12 && Extended(12) == []
    ensures Nibble(13) == 13 && Extended(13) == [0] && Nibble(49) == 13 && Extended(49) == [36]
    ensures Nibble(268) == 13 && Extended(268) == [255]
    ensures Nibble(269) == 14 && Extended(269) == [0, 0] && Nibble(64941) == 14 && Extended(64941) == [0xFC, 0xA0]
  {
    hide ToBytes;
    NoBytes();
    LastByte(0, 0, 0);
    LastByte(0, 0, 1);
    LastByte(0, 0xFC, 0);
    LastByte(0xFC, 0xA0, 1);
  }

  // ---- A message, byte by byte ----

  const TEMPERATURE: seq<Byte> := [0x74, 0x65, 0x6D, 0x70, 0x65, 0x72, 0x61, 0x74, 0x75, 0x72, 0x65]

  /** A confirmable GET of /temperature with a token, a Size1 option, an unknown one of 13 bytes, and a payload. */
  function Example(): Message {
    Message(0, 1, 0x127D34, [0x20],
            [CoapOption(11, TEMPERATURE), CoapOption(60, [0x02]), CoapOption(65001, Zeros(13))], [0xAA])
  }

  lemma ExampleOptions()
    ensures var path, size, other := CoapOption(11, TEMPERATURE), CoapOption(60, [0x02]), CoapOption(65001, Zeros(13));
      && EncodeOption(path, 0) == [0xBB] + TEMPERATURE
      && EncodeOption(size, 11) == [0xD1] + [36] + [0x02]
      && EncodeOption(other, 60) == [0xED] + [0xFC, 0xA0] + [0] + Zeros(13)
  {
    ExtendedExamples();
    assert [0xBB] + [] + [] == [0xBB];
    assert [0xD1] + [36] + [] == [0xD1] + [36];
    hide Extended;
  }

  lemma ThreeOptions(a: CoapOption, b: CoapOption, c: CoapOption)
    requires Encodable([a, b, c], 0)
    ensures Encodable([a, b, c], 0) && a.number <= b.number <= c.number
    ensures a.number < EXTENDED_LIMIT && b.number < a.number + EXTENDED_LIMIT && c.number < b.number + EXTENDED_LIMIT
    ensures |a.value| < EXTENDED_LIMIT && |b.value| < EXTENDED_LIMIT && |c.value| < EXTENDED_LIMIT
    ensures EncodeOptions([a, b, c], 0) ==
      EncodeOption(a, 0) + (EncodeOption(b, a.number) + (EncodeOption(c, b.number) + []))
  {
    hide EncodeOption;
    var all := [a, b, c];
    assert all[1..] == [b, c] && [b, c][1..] == [c] && [c][1..] == [];
    assert Encodable([b, c], a.number) && Encodable([c], b.number);
    assert EncodeOptions([c], b.number) == EncodeOption(c, b.number) + EncodeOptions([], c.number);
  }

  lemma ExampleIsSendable()
    ensures Sendable(Example())
  {
    var a, b, c := CoapOption(11, TEMPERATURE), CoapOption(60, [0x02]), CoapOption(65001, Zeros(13));
    var all := [a, b, c];
    assert all[1..] == [b, c] && [b, c][1..] == [c] && [c][1..] == [];
    assert Encodable([c], 60);
    assert Encodable([b, c], 11);
  }

  /** The example on the wire. */
  lemma ExampleBytes()
    ensures Sendable(Example())
    ensures Encode(Example()) ==
      ([0x41, 0x01] + [0x12, 0x7D, 0x34] + [0x20])
      + (([0xBB] + TEMPERATURE)
         + (([0xD1] + [36] + [0x02])
            + (([0xED] + [0xFC, 0xA0] + [0] + Zeros(13)) + [])))
      + ([0xFF] + [0xAA])
  {
    hide EncodeOption, EncodeOptions, Encodable, ToBytes, Zeros;
    ThreeBytesExample();
    ExampleIsSendable();
    ExampleOptions();
    var a, b, c := CoapOption(11, TEMPERATURE), CoapOption(60, [0x02]), CoapOption(65001, Zeros(13));
    ThreeOptions(a, b, c);
  }

  // ---- Texts ----

  /** A Unicode scalar value. */
  predicate Scalar(c: nat) {
    c < 0xD800 || 0xE000 <= c < 0x11_0000
  }

  /** The bytes of one character. */
  function CharacterBytes(c: nat): seq<Byte>
    requires Scalar(c)
  {
    if c < 0x80 then [c]
    else if c < 0x800 then [0xC0 + c / 0x40, 0x80 + c % 0x40]
    else if c < 0x1_0000 then [0xE0 + c / 0x1000, 0x80 + c / 0x40 % 0x40, 0x80 + c % 0x40]
    else [0xF0 + c / 0x4_0000, 0x80 + c / 0x1000 % 0x40, 0x80 + c / 0x40 % 0x40, 0x80 + c % 0x40]
  }

  predicate Scalars(text: seq<nat>) {
    forall c :: c in text ==> Scalar(c)
  }

  function TextBytes(text: seq<nat>): seq<Byte>
    requires Scalars(text)
  {
    if text == [] then [] else CharacterBytes(text[0]) + TextBytes(text[1..])
  }

  lemma CharacterIsRead(c: nat, rest: seq<Byte>)
    requires Scalar(c)
    ensures CharacterSize(CharacterBytes(c) + rest) == |CharacterBytes(c)| > 0
  {
    var raw := CharacterBytes(c) + rest;
    if c >= 0x1_0000 {
      assert c / 0x4_0000 == 0 ==> c / 0x1000 % 0x40 == c / 0x1000 >= 0x10;
      assert c / 0x4_0000 == 4 ==> c / 0x1000 % 0x40 < 0x10;
    } else if c >= 0x800 {
      assert c / 0x1000 == 0 ==> c / 0x40 % 0x40 == c / 0x40 >= 0x20;
      assert c / 0x1000 == 0xD ==> c / 0x40 % 0x40 < 0x20;
    }
  }

  lemma CharacterIsWritten(raw: seq<Byte>) returns (c: nat)
    requires CharacterSize(raw) > 0
    ensures Scalar(c) && CharacterBytes(c) == raw[..CharacterSize(raw)]
  {
    match CharacterSize(raw)
    case 1 => c := raw[0];
    case 2 =>
      c := TwoParts(raw[0] - 0xC0, raw[1] - 0x80);
    case 3 =>
      c := ThreeParts(raw[0] - 0xE0, raw[1] - 0x80, raw[2] - 0x80);
    case _ =>
      c := FourParts(raw[0] - 0xF0, raw[1] - 0x80, raw[2] - 0x80, raw[3] - 0x80);
  }

  lemma TwoParts(a: nat, b: nat) returns (c: nat)
    requires 2 <= a < 0x20 && b < 0x40
    ensures Scalar(c) && CharacterBytes(c) == [0xC0 + a, 0x80 + b]
  {
    c := a * 0x40 + b;
  }

  lemma ThreeParts(a: nat, b: nat, d: nat) returns (c: nat)
    requires a < 0x10 && b < 0x40 && d < 0x40 && (a == 0 ==> b >= 0x20) && (a == 0xD ==> b < 0x20)
    ensures Scalar(c) && CharacterBytes(c) == [0xE0 + a, 0x80 + b, 0x80 + d]
  {
    c := a * 0x1000 + b * 0x40 + d;
    assert c / 0x40 == a * 0x40 + b;
  }

  lemma FourParts(a: nat, b: nat, d: nat, e: nat) returns (c: nat)
    requires a < 5 && b < 0x40 && d < 0x40 && e < 0x40 && (a == 0 ==> b >= 0x10) && (a == 4 ==> b < 0x10)
    ensures Scalar(c) && CharacterBytes(c) == [0xF0 + a, 0x80 + b, 0x80 + d, 0x80 + e]
  {
    c := a * 0x4_0000 + b * 0x1000 + d * 0x40 + e;
    assert c / 0x1000 == a * 0x40 + b;
    assert c / 0x40 == (a * 0x40 + b) * 0x40 + d;
  }

  lemma {:induction false} TextIsUtf8(text: seq<nat>)
    requires Scalars(text)
    ensures Utf8(TextBytes(text))
    decreases |text|
  {
    hide CharacterBytes, CharacterSize;
    if text != [] {
      var first, rest := CharacterBytes(text[0]), TextBytes(text[1..]);
      CharacterIsRead(text[0], rest);
      TextIsUtf8(text[1..]);
      assert (first + rest)[|first|..] == rest;
    }
  }

  lemma {:induction false} Utf8IsText(raw: seq<Byte>) returns (text: seq<nat>)
    requires Utf8(raw)
    ensures Scalars(text) && TextBytes(text) == raw
    decreases |raw|
  {
    hide CharacterBytes, CharacterSize;
    if raw == [] {
      text := [];
    } else {
      var n := CharacterSize(raw);
      var c := CharacterIsWritten(raw);
      var rest := Utf8IsText(raw[n..]);
      text := [c] + rest;
      assert text[1..] == rest;
    }
  }

  /** An option value is read as a text exactly if it consists of the bytes of some characters. */
  lemma Utf8Exactly(raw: seq<Byte>)
    ensures Utf8(raw) <==> exists text: seq<nat> :: Scalars(text) && TextBytes(text) == raw
  {
    hide Utf8, TextBytes;
    if Utf8(raw) {
      var text := Utf8IsText(raw);
      assert Scalars(text) && TextBytes(text) == raw;
    }
    forall text: seq<nat> | Scalars(text) && TextBytes(text) == raw ensures Utf8(raw) {
      TextIsUtf8(text);
    }
  }

  /** Characters of the examples in section 7 of RFC 3629: of two, of three and of four bytes. */
  lemma CharacterExamples()
    ensures CharacterBytes(0x0391) == [0xCE, 0x91] && CharacterBytes(0x65E5) == [0xE6, 0x97, 0xA5]
    ensures CharacterBytes(0x2_33B4) == [0xF0, 0xA3, 0x8E, 0xB4]
  {
  }
}
