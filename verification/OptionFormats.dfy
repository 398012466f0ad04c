/**
 The formats of option values. An option is held as what its bytes mean, a number, a text
 or the bytes themselves, and is written from that: a number in as few bytes as possible.
 The model holds a number as these bytes.
 */
module OptionFormats {
  import opened Bytes

  datatype Format = Opaque | Text | Number

  datatype CoapOption = CoapOption(number: nat, value: seq<Byte>)

  /** Uri-Host, Location-Path, Uri-Path, Uri-Query, Location-Query, Proxy-Uri and Proxy-Scheme. */
  const TEXTS: set<nat> := {3, 8, 11, 15, 20, 35, 39}

  /**
   Observe, Uri-Port, Content-Format, Max-Age, Hop-Limit, Accept, Block2, Block1, Size2, Size1,
   No-Response and Payload-Length.
   */
  const NUMBERS: set<nat> := {6, 7, 12, 14, 16, 17, 23, 27, 28, 60, 258, 65000}

  function FormatOf(number: nat): Format {
    if number in TEXTS then Text else if number in NUMBERS then Number else Opaque
  }

  predicate Continuation(b: Byte) {
    0x80 <= b < 0xC0
  }

  /** Bytes of the character at the front of a text, or zero if there is none (section 3 of RFC 3629). */
  function CharacterSize(raw: seq<Byte>): (n: nat)
    ensures n <= |raw|
  {
    if raw == [] then 0
    else if raw[0] < 0x80 then 1
    else if |raw| < 2 || !Continuation(raw[1]) then 0
    else if 0xC2 <= raw[0] < 0xE0 then 2
    else if |raw| < 3 || !Continuation(raw[2]) then 0
    else if 0xE0 <= raw[0] < 0xF0 then
      if (raw[0] == 0xE0 && raw[1] < 0xA0) || (raw[0] == 0xED && raw[1] >= 0xA0) then 0 else 3
    else if |raw| < 4 || !Continuation(raw[3]) then 0
    else if 0xF0 <= raw[0] < 0xF5 then
      if (raw[0] == 0xF0 && raw[1] < 0x90) || (raw[0] == 0xF4 && raw[1] >= 0x90) then 0 else 4
    else 0
  }

  predicate Utf8(raw: seq<Byte>) {
    raw == [] || (CharacterSize(raw) > 0 && Utf8(raw[CharacterSize(raw)..]))
  }

  /** An option read from the wire, or none where the value cannot be read. */
  function Held(o: CoapOption): Option<CoapOption> {
    match FormatOf(o.number)
    case Opaque => Some(o)
    case Text => if Utf8(o.value) then Some(o) else None
    case Number => Some(o.(value := ToMinimum(FromBytes(o.value))))
  }

  /** The bytes of the value are the ones that are written for it. */
  predicate Proper(o: CoapOption) {
    match FormatOf(o.number)
    case Opaque => true
    case Text => Utf8(o.value)
    case Number => o.value == [] || o.value[0] != 0
  }

  predicate AllProper(options: seq<CoapOption>) {
    forall o :: o in options ==> Proper(o)
  }

  predicate TextsReadable(options: seq<CoapOption>) {
    forall o :: o in options && FormatOf(o.number).Text? ==> Utf8(o.value)
  }

  /** What is held is proper, no longer than what was read, and as long exactly if that was proper. */
  lemma HeldIsProper(o: CoapOption)
    ensures Held(o).Some? <==> (FormatOf(o.number).Text? ==> Utf8(o.value))
    ensures Held(o) == Some(o) <==> Proper(o)
    ensures Held(o).Some? ==> var h := Held(o).value;
      && Proper(h) && h.number == o.number && |h.value| <= |o.value| && FromBytes(h.value) == FromBytes(o.value)
      && (|h.value| == |o.value| <==> h == o)
  {
    hide FormatOf, Utf8;
    MinimumOfBytes(o.value);
    MinimumRoundTrip(FromBytes(o.value));
  }

  function HeldAll(options: seq<CoapOption>): Option<seq<CoapOption>> {
    if options == [] then Some([])
    else
      var first, rest := Held(options[0]), HeldAll(options[1..]);
      if first.None? || rest.None? then None else Some([first.value] + rest.value)
  }

  /** All the options are held as they were read exactly if all are proper. */
  lemma {:induction false} HeldAllExactly(options: seq<CoapOption>)
    ensures HeldAll(options).Some? <==> TextsReadable(options)
    ensures HeldAll(options) == Some(options) <==> AllProper(options)
    ensures HeldAll(options).Some? ==> AllProper(HeldAll(options).value) && |HeldAll(options).value| == |options|
    decreases |options|
  {
    hide Held, Proper, FormatOf, Utf8;
    if options != [] {
      var o, rest := options[0], options[1..];
      assert options == [o] + rest;
      HeldIsProper(o);
      HeldAllExactly(rest);
      assert forall p :: p in options <==> p == o || p in rest;
    }
  }
}
