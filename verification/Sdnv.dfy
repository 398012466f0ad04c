/**
 Self-describing numeric values (section 4.1 of RFC 5050): the incremental
 reader, the size functions and the writer of the BPv6 stack, for the four
 integer widths.
 */
module Sdnv {
  import opened Bytes

  datatype Width = U8 | U16 | U32 | U64 {
    /** Number of values of the C type. */
    function Limit(): (limit: nat)
      ensures limit % 128 == 0 && limit >= 256
    {
      match this
      case U8 => 0x100
      case U16 => 0x1_0000
      case U32 => 0x1_0000_0000
      case U64 => 0x1_0000_0000_0000_0000
    }

    /** Largest number of SDNV bytes the reader takes for the width. */
    function MaxBytes(): nat {
      match this
      case U8 => 2
      case U16 => 3
      case U32 => 5
      case U64 => 10
    }
  }

  datatype Status = InProgress | Done | Failed

  datatype Error = NoError | Overflow | AlreadyDone

  datatype State = State(status: Status, error: Error, bytesParsed: nat)

  const RESET: State := State(InProgress, NoError, 0)

  /** Whether one more group of seven bits still fits into `value`. */
  predicate ValidateByte(w: Width, s: State, value: nat) {
    match w
    case U8 => s.bytesParsed < 1 || (s.bytesParsed == 1 && value <= 0x1)
    case U16 => s.bytesParsed < 2 || (s.bytesParsed == 2 && value <= 0x1FF)
    case U32 => s.bytesParsed < 4 || (s.bytesParsed == 4 && value <= 0x1FFFFFF)
    case U64 => s.bytesParsed < 9 || (s.bytesParsed == 9 && value <= 0x1FFFFFFFFFFFFFF)
  }

  /** One call of the reader: the new state and the new content of the value variable. */
  function Read(w: Width, s: State, value: nat, b: Byte): (r: (State, nat)) {
    if !ValidateByte(w, s, value) then
      (s.(error := Overflow, status := Failed), value)
    else if s.status == Done then
      (s.(error := AlreadyDone, status := Failed), value)
    else
      // `<<=` drops what leaves the C type; the low seven bits are then free.
      var shifted := if s.bytesParsed == 0 then 0 else value * 128 % w.Limit();
      (s.(status := if b < 128 then Done else s.status, bytesParsed := s.bytesParsed + 1),
       shifted + b % 128)
  }

  /** The reader fed with all of `bytes`. */
  function ReadAll(w: Width, s: State, value: nat, bytes: seq<Byte>): (r: (State, nat))
    decreases |bytes|
  {
    if bytes == [] then (s, value)
    else
      var (s', value') := Read(w, s, value, bytes[0]);
      ReadAll(w, s', value', bytes[1..])
  }

  /** Size functions of the four widths. */
  function SizeOf(w: Width, v: nat): nat
    requires v < w.Limit()
  {
    match w
    case U8 =>
      if v < 0x80 then 1 else 2
    case U16 =>
      if v < 0x80 then 1 else if v < 0x4000 then 2 else 3
    case U32 =>
      if v < 0x80 then 1
      else if v < 0x4000 then 2
      else if v < 0x20_0000 then 3
      else if v < 0x1000_0000 then 4
      else 5
    case U64 =>
      if v < 0x80 then 1
      else if v < 0x4000 then 2
      else if v < 0x20_0000 then 3
      else if v < 0x1000_0000 then 4
      else if v < 0x8_0000_0000 then 5
      else if v < 0x400_0000_0000 then 6
      else if v < 0x2_0000_0000_0000 then 7
      else if v < 0x100_0000_0000_0000 then 8
      else if v < 0x8000_0000_0000_0000 then 9
      else 10
  }

  // ---- Reference meaning: base-128 numbers ----

  /** `v` without its `m` low-order groups of seven bits. */
  function Shift(v: nat, m: nat): nat {
    if m == 0 then v else Shift(v / 128, m - 1)
  }

  /** The `n`-byte SDNV of `v`: every byte but the last carries the marker bit. */
  function Encode(v: nat, n: nat): (bytes: seq<Byte>)
    ensures |bytes| == n
  {
    seq(n, i requires 0 <= i < n => Shift(v, n - 1 - i) % 128 + if i < n - 1 then 128 else 0)
  }

  /** The number that a byte string denotes, whatever its marker bits. */
  function Denote(bytes: seq<Byte>): nat {
    if bytes == [] then 0 else Denote(bytes[..|bytes| - 1]) * 128 + bytes[|bytes| - 1] % 128
  }

  /** Marker bits on all bytes but the last one. */
  predicate WellFormed(bytes: seq<Byte>) {
    bytes != [] && bytes[|bytes| - 1] < 128 &&
    forall i :: 0 <= i < |bytes| - 1 ==> bytes[i] >= 128
  }

  function Pow128(n: nat): (p: nat)
    ensures p > 0
  {
    if n == 0 then 1 else 128 * Pow128(n - 1)
  }

  lemma {:induction false} ShiftStep(v: nat, m: nat)
    ensures Shift(v, m + 1) == Shift(v, m) / 128
    decreases m
  {
    if m > 0 {
      ShiftStep(v / 128, m - 1);
    }
  }

  lemma {:induction false} ShiftIsZero(v: nat, n: nat)
    ensures Shift(v, n) == 0 <==> v < Pow128(n)
    decreases n
  {
    if n > 0 {
      ShiftIsZero(v / 128, n - 1);
    }
  }

  /** The size function gives the least number of groups that hold the value. */
  lemma SizeIsLeast(w: Width, v: nat)
    requires v < w.Limit()
    ensures 1 <= SizeOf(w, v) <= w.MaxBytes()
    ensures v < Pow128(SizeOf(w, v))
    ensures SizeOf(w, v) > 1 ==> Pow128(SizeOf(w, v) - 1) <= v
  {
    assert Pow128(1) == 0x80;
    assert Pow128(2) == 0x4000;
    assert Pow128(3) == 0x20_0000;
    assert Pow128(4) == 0x1000_0000;
    assert Pow128(5) == 0x8_0000_0000;
    assert Pow128(6) == 0x400_0000_0000;
    assert Pow128(7) == 0x2_0000_0000_0000;
    assert Pow128(8) == 0x100_0000_0000_0000;
    assert Pow128(9) == 0x8000_0000_0000_0000;
    assert Pow128(10) == 0x40_0000_0000_0000_0000;
  }

  /** The size does not depend on the width, for a value that both widths hold. */
  lemma SizeSameForWidths(w: Width, w': Width, v: nat)
    requires v < w.Limit() && v < w'.Limit()
    ensures SizeOf(w, v) == SizeOf(w', v)
  {
  }

  // ---- Writer ----

  /** Group `k` of `v`, counted from the low end, with the marker bit. */
  function Marked(v: nat, k: nat): Byte {
    Shift(v, k) % 128 + 128
  }

  /** Fills the first `n` bytes from the last one backwards, all with the marker. */
  method WriteMarked(buffer: array<Byte>, value: nat, n: nat)
    requires n <= buffer.Length
    modifies buffer
    ensures forall i :: 0 <= i < n ==> buffer[i] == Marked(value, n - 1 - i)
    ensures buffer[n..] == old(buffer[n..])
  {
    var v := value;
    var b := n;
    while b > 0
      invariant 0 <= b <= n
      invariant v == Shift(value, n - b)
      invariant forall i :: b <= i < n ==> buffer[i] == Marked(value, n - 1 - i)
      invariant buffer[n..] == old(buffer[n..])
    {
      ShiftStep(value, n - b);
      assert v % 128 + 128 == Marked(value, n - b);
      hide Shift, Marked;
      b := b - 1;
      buffer[b] := v % 128 + 128;
      v := v / 128;
    }
  }

  /** Writes the SDNV of a value and gives its size. */
  method Write(w: Width, buffer: array<Byte>, value: nat) returns (n: nat)
    requires value < w.Limit()
    requires buffer.Length >= w.MaxBytes()
    modifies buffer
    ensures n == SizeOf(w, value)
    ensures n <= buffer.Length && buffer[..n] == Encode(value, n)
    ensures buffer[n..] == old(buffer[n..])
  {
    SizeIsLeast(w, value);
    hide *;
    n := SizeOf(w, value);
    WriteMarked(buffer, value, n);
    buffer[n - 1] := buffer[n - 1] % 128;
    MarkersRestored(value, n, buffer[..n]);
  }

  /** Clearing the marker of the last byte completes the encoding. */
  lemma MarkersRestored(v: nat, n: nat, bytes: seq<Byte>)
    requires n == |bytes| > 0
    requires forall i :: 0 <= i < n - 1 ==> bytes[i] == Marked(v, n - 1 - i)
    requires bytes[n - 1] == Marked(v, 0) % 128
    ensures bytes == Encode(v, n)
  {
  }

  // ---- Round trip ----

  /** The reader after some bytes of an encoding: it holds the high-order groups. */
  lemma {:induction false} ReadRest(w: Width, s: State, value: nat, v: nat, n: nat, m: nat)
    requires v < w.Limit() && n == SizeOf(w, v)
    requires 1 <= m <= n
    requires s == State(InProgress, NoError, n - m)
    requires m < n ==> value == Shift(v, m)
    ensures ReadAll(w, s, value, Encode(v, n)[n - m..]) == (State(Done, NoError, n), v)
    decreases m
  {
    hide Read, Encode;
    SizeIsLeast(w, v);
    ReadOneGroup(w, s, value, v, n, m);
    var bytes := Encode(v, n)[n - m..];
    assert bytes[0] == Encode(v, n)[n - m];
    assert bytes[1..] == Encode(v, n)[n - m + 1..];
    if m > 1 {
      var (s', value') := Read(w, s, value, bytes[0]);
      ReadRest(w, s', value', v, n, m - 1);
    }
  }

  /** One byte of an encoding moves one more group into the value variable. */
  lemma ReadOneGroup(w: Width, s: State, value: nat, v: nat, n: nat, m: nat)
    requires v < w.Limit() && n == SizeOf(w, v)
    requires 1 <= m <= n
    requires s == State(InProgress, NoError, n - m)
    requires m < n ==> value == Shift(v, m)
    ensures Read(w, s, value, Encode(v, n)[n - m])
         == (State(if m == 1 then Done else InProgress, NoError, n - m + 1), Shift(v, m - 1))
  {
    SizeIsLeast(w, v);
    var g := Shift(v, m - 1);
    ShiftBound(v, m - 1);
    ShiftStep(v, m - 1);
    ShiftIsZero(v, n);
    assert Shift(v, m) == g / 128;
    assert ValidateByte(w, s, value) by {
      if m < n {
        GroupFits(w, n, m, v, value);
      }
    }
    var b := Encode(v, n)[n - m];
    var marker := if m > 1 then 128 else 0;
    assert b == g % 128 + marker;
    ReadKeepsGroups(w, s, value, g, b, marker);
  }

  /** While the number fits, shifting and inserting a group is exact. */
  lemma ReadKeepsGroups(w: Width, s: State, value: nat, g: nat, b: Byte, marker: nat)
    requires s.status == InProgress && ValidateByte(w, s, value) && g < w.Limit()
    requires marker == 0 || marker == 128
    requires b == g % 128 + marker
    requires if s.bytesParsed == 0 then g / 128 == 0 else value == g / 128
    ensures Read(w, s, value, b)
         == (s.(status := if marker == 0 then Done else InProgress, bytesParsed := s.bytesParsed + 1), g)
  {
    ShiftLeftStays(w, g);
    assert b % 128 == g % 128;
  }

  lemma GroupFits(w: Width, n: nat, m: nat, v: nat, value: nat)
    requires v < w.Limit() && n == SizeOf(w, v) && 1 <= m < n && value == Shift(v, m)
    ensures ValidateByte(w, State(InProgress, NoError, n - m), value)
  {
    if m == 1 {
      assert Shift(v, 1) == v / 128;
    }
  }

  /** Shifting out the low group and back in loses nothing inside the width. */
  lemma ShiftLeftStays(w: Width, g: nat)
    requires g < w.Limit()
    ensures g / 128 * 128 % w.Limit() == g / 128 * 128
  {
  }

  lemma {:induction false} ShiftBound(v: nat, m: nat)
    ensures Shift(v, m) <= v
    decreases m
  {
    if m > 0 {
      ShiftBound(v / 128, m - 1);
    }
  }

  /** Reading what the writer wrote gives the value, after exactly the announced bytes. */
  lemma RoundTrip(w: Width, v: nat, scratch: nat)
    requires v < w.Limit()
    ensures var n := SizeOf(w, v);
            ReadAll(w, RESET, scratch, Encode(v, n)) == (State(Done, NoError, n), v)
  {
    var n := SizeOf(w, v);
    SizeIsLeast(w, v);
    assert Encode(v, n)[0..] == Encode(v, n);
    ReadRest(w, RESET, scratch, v, n, n);
  }

  // ---- Which byte strings are accepted, and what they mean ----

  lemma {:induction false} ReadAllAppend(w: Width, s: State, value: nat, bytes: seq<Byte>, b: Byte)
    ensures ReadAll(w, s, value, bytes + [b])
         == var (s', value') := ReadAll(w, s, value, bytes); Read(w, s', value', b)
    decreases |bytes|
  {
    if bytes == [] {
      assert bytes + [b] == [b];
    } else {
      var (s1, v1) := Read(w, s, value, bytes[0]);
      ReadAllAppend(w, s1, v1, bytes[1..], b);
      assert (bytes + [b])[1..] == bytes[1..] + [b];
    }
  }

  /** All bytes so far carry the marker, and what they denote still fits. */
  predicate Unfinished(w: Width, bytes: seq<Byte>) {
    (forall i :: 0 <= i < |bytes| ==> bytes[i] >= 128) &&
    |bytes| <= w.MaxBytes() && Denote(bytes) < w.Limit()
  }

  predicate Complete(w: Width, bytes: seq<Byte>) {
    WellFormed(bytes) && |bytes| <= w.MaxBytes() && Denote(bytes) < w.Limit()
  }

  lemma {:induction false} DenoteBound(bytes: seq<Byte>)
    ensures Denote(bytes) < Pow128(|bytes|)
  {
    if bytes != [] {
      DenoteBound(bytes[..|bytes| - 1]);
    }
  }

  /** One more group fits exactly when the number it completes stays inside the width. */
  lemma ValidateIsExact(w: Width, bytes: seq<Byte>, b: Byte, s: State)
    requires |bytes| <= w.MaxBytes()
    requires s.bytesParsed == |bytes|
    ensures ValidateByte(w, s, Denote(bytes))
       <==> |bytes| < w.MaxBytes() && Denote(bytes) * 128 + b % 128 < w.Limit()
  {
    DenoteBound(bytes);
    assert Pow128(0) == 1;
    assert Pow128(1) == 0x80;
    assert Pow128(2) == 0x4000;
    assert Pow128(3) == 0x20_0000;
    assert Pow128(4) == 0x1000_0000;
    assert Pow128(5) == 0x8_0000_0000;
    assert Pow128(6) == 0x400_0000_0000;
    assert Pow128(7) == 0x2_0000_0000_0000;
    assert Pow128(8) == 0x100_0000_0000_0000;
    assert Pow128(9) == 0x8000_0000_0000_0000;
  }

  /** The state of a reader without error, exactly: unfinished or complete. */
  lemma {:induction false} ReaderState(w: Width, bytes: seq<Byte>)
    ensures var (s, v) := ReadAll(w, RESET, 0, bytes);
            && (s.error == NoError <==> Unfinished(w, bytes) || Complete(w, bytes))
            && (s.error == NoError ==>
                  && s == State(if Complete(w, bytes) then Done else InProgress, NoError, |bytes|)
                  && v == Denote(bytes))
  {
    if bytes != [] {
      var front, b := bytes[..|bytes| - 1], bytes[|bytes| - 1];
      assert bytes == front + [b];
      ReaderState(w, front);
      ReadAllAppend(w, RESET, 0, front, b);
      var (s, v) := ReadAll(w, RESET, 0, front);
      ExtendedString(w, front, b);
      if Unfinished(w, front) {
        ValidateIsExact(w, front, b, s);
        ReadNext(w, front, b, s);
      }
    }
  }

  /** When a string extended by one byte is unfinished or complete. */
  lemma DenoteExtended(front: seq<Byte>, b: Byte)
    ensures Denote(front + [b]) == Denote(front) * 128 + b % 128
  {
    assert (front + [b])[..|front|] == front;
  }

  lemma MarksExtended(front: seq<Byte>, b: Byte)
    ensures (forall i :: 0 <= i < |front + [b]| ==> (front + [b])[i] >= 128)
       <==> b >= 128 && forall i :: 0 <= i < |front| ==> front[i] >= 128
    ensures WellFormed(front + [b]) <==> b < 128 && forall i :: 0 <= i < |front| ==> front[i] >= 128
  {
    var bytes := front + [b];
    assert forall i :: 0 <= i < |front| ==> bytes[i] == front[i];
    assert bytes[|front|] == b;
  }

  /** When a string extended by one byte is unfinished or complete. */
  lemma ExtendedString(w: Width, front: seq<Byte>, b: Byte)
    ensures Denote(front + [b]) == Denote(front) * 128 + b % 128
    ensures Unfinished(w, front + [b]) || Complete(w, front + [b])
       <==> (forall i :: 0 <= i < |front| ==> front[i] >= 128) &&
            |front| < w.MaxBytes() && Denote(front) * 128 + b % 128 < w.Limit()
    ensures Unfinished(w, front + [b]) || Complete(w, front + [b]) ==> Unfinished(w, front)
  {
    hide Denote, WellFormed, Width.Limit, Width.MaxBytes;
    DenoteExtended(front, b);
    MarksExtended(front, b);
  }

  lemma ReadNext(w: Width, front: seq<Byte>, b: Byte, s: State)
    requires Unfinished(w, front) && s == State(InProgress, NoError, |front|)
    requires ValidateByte(w, s, Denote(front)) ==>
               |front| < w.MaxBytes() && Denote(front) * 128 + b % 128 < w.Limit()
    ensures ValidateByte(w, s, Denote(front)) ==>
              Read(w, s, Denote(front), b)
              == (State(if b < 128 then Done else InProgress, NoError, |front| + 1),
                  Denote(front) * 128 + b % 128)
  {
    if ValidateByte(w, s, Denote(front)) {
      var v := Denote(front) * 128 + b % 128;
      assert v / 128 == Denote(front);
      ShiftLeftStays(w, v);
    }
  }

  /**
   A byte string is reported done without an error iff it is one complete SDNV
   whose number fits, and the number read is the number denoted: no wrap-around.
   */
  lemma AcceptedExactly(w: Width, bytes: seq<Byte>)
    ensures var (s, v) := ReadAll(w, RESET, 0, bytes);
            && (s.status == Done && s.error == NoError <==> Complete(w, bytes))
            && (s.status == Done && s.error == NoError ==> v == Denote(bytes))
  {
    ReaderState(w, bytes);
  }

  /** Every state without an error that a reset reader can reach knows how far it is. */
  lemma DoneImpliesNoError(w: Width, bytes: seq<Byte>)
    requires forall i :: 0 <= i < |bytes| - 1 ==> bytes[i] >= 128
    ensures ReadAll(w, RESET, 0, bytes).0.status == Done <==> Complete(w, bytes)
    decreases |bytes|
  {
    ReaderState(w, bytes);
    if bytes != [] && !Complete(w, bytes) && !Unfinished(w, bytes) {
      var front, b := bytes[..|bytes| - 1], bytes[|bytes| - 1];
      assert bytes == front + [b];
      MarkedOnlyNeverDone(w, front);
      ReadAllAppend(w, RESET, 0, front, b);
      ReaderState(w, front);
      ExtendedString(w, front, b);
      if Unfinished(w, front) {
        ValidateIsExact(w, front, b, ReadAll(w, RESET, 0, front).0);
      }
    }
  }

  /** Fed only with marked bytes, the reader is in progress or has overflowed for good. */
  lemma {:induction false} MarkedOnlyNeverDone(w: Width, bytes: seq<Byte>)
    requires forall i :: 0 <= i < |bytes| ==> bytes[i] >= 128
    ensures var (s, v) := ReadAll(w, RESET, 0, bytes);
            (s.error == NoError && s.status == InProgress) ||
            (s.error == Overflow && s.status == Failed && !ValidateByte(w, s, v))
  {
    if bytes != [] {
      var front, b := bytes[..|bytes| - 1], bytes[|bytes| - 1];
      assert bytes == front + [b];
      MarkedOnlyNeverDone(w, front);
      ReadAllAppend(w, RESET, 0, front, b);
    }
  }

  /**
   Fed past its end the reader first fails but the next byte revives it: the
   status alone is trustworthy only for a caller that stops at the last byte.
   */
  lemma RevivedAfterDone()
    ensures ReadAll(U64, RESET, 0, [5, 6, 7]) == (State(Done, AlreadyDone, 2), 5 * 128 + 7)
    ensures !Complete(U64, [5, 6, 7])
  {
    var (s1, v1) := Read(U64, RESET, 0, 5);
    assert (s1, v1) == (State(Done, NoError, 1), 5);
    var (s2, v2) := Read(U64, s1, v1, 6);
    assert (s2, v2) == (State(Failed, AlreadyDone, 1), 5);
    var (s3, v3) := Read(U64, s2, v2, 7);
    assert [5, 6, 7][1..] == [6, 7];
    assert [6, 7][1..] == [7];
    assert ReadAll(U64, s3, v3, []) == (s3, v3);
    assert [7][1..] == [];
    assert ReadAll(U64, s2, v2, [7]) == (s3, v3);
    assert ReadAll(U64, s1, v1, [6, 7]) == (s3, v3);
    assert [5, 6, 7][0] == 5;
  }

  lemma TwoGroups(v: nat)
    requires 0x80 <= v < 0x4000
    ensures Encode(v, 2) == [0x80 + v / 0x80, v % 0x80]
  {
    assert Shift(v, 0) == v && Shift(v, 1) == v / 0x80;
  }

  lemma ThreeGroups(v: nat)
    requires 0x4000 <= v < 0x20_0000
    ensures Encode(v, 3) == [0x80 + v / 0x80 / 0x80, 0x80 + v / 0x80 % 0x80, v % 0x80]
  {
    assert Shift(v, 0) == v && Shift(v, 1) == v / 0x80;
    assert Shift(v, 2) == v / 0x80 / 0x80 by {
      assert Shift(v / 0x80, 1) == v / 0x80 / 0x80;
    }
  }

  /** The examples of section 4.1 of RFC 5050. */
  lemma Examples()
    ensures Encode(0xABC, SizeOf(U64, 0xABC)) == [0x95, 0x3C]
    ensures Encode(0x1234, SizeOf(U64, 0x1234)) == [0xA4, 0x34]
    ensures Encode(0x4234, SizeOf(U64, 0x4234)) == [0x81, 0x84, 0x34]
    ensures Encode(0x7F, SizeOf(U64, 0x7F)) == [0x7F]
    ensures Denote([0x81, 0x84, 0x34]) == 0x4234
  {
    TwoGroups(0xABC);
    TwoGroups(0x1234);
    ThreeGroups(0x4234);
    assert Shift(0x7F, 0) == 0x7F;
    assert [0x81] + [0x84] + [0x34] == [0x81, 0x84, 0x34] && [] + [0x81] == [0x81];
    DenoteExtended([], 0x81);
    DenoteExtended([0x81], 0x84);
    DenoteExtended([0x81] + [0x84], 0x34);
    assert Denote([]) == 0;
    hide Denote, Shift;
  }
}
