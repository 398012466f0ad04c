/**
 Nonces and the OSCORE option (sections 5.2 and 6.1 of RFC 8613): how a sequence
 number becomes a nonce, what travels of it in the option, and how the receiver
 gets the same nonce back.
 */
module OscoreNonce {
  import opened Bytes

  /** Exclusive or of the `n` low-order bits. */
  function XorBits(a: nat, b: nat, n: nat): nat {
    if n == 0 then 0 else 2 * XorBits(a / 2, b / 2, n - 1) + (a % 2 + b % 2) % 2
  }

  lemma {:induction false} XorBound(a: nat, b: nat, n: nat)
    ensures XorBits(a, b, n) < Pow2(n)
  {
    if n > 0 {
      XorBound(a / 2, b / 2, n - 1);
    }
  }

  lemma SameParity(a: nat, b: nat, d: nat)
    requires (a % 2 + b % 2) % 2 == (a % 2 + d % 2) % 2
    ensures b % 2 == d % 2
  {
  }

  lemma SameNumber(b: nat, d: nat)
    requires b / 2 == d / 2 && b % 2 == d % 2
    ensures b == d
  {
  }

  lemma LastBits(x: nat, y: nat, c: nat, e: nat)
    requires 2 * x + c == 2 * y + e && c < 2 && e < 2
    ensures x == y && c == e
  {
  }

  lemma HalfBelow(b: nat, p: nat)
    requires b < 2 * p
    ensures b / 2 < p
  {
  }

  lemma {:induction false} XorCancels(a: nat, b: nat, d: nat, n: nat)
    requires b < Pow2(n) && d < Pow2(n)
    requires XorBits(a, b, n) == XorBits(a, d, n)
    ensures b == d
  {
    if n > 0 {
      LastBits(XorBits(a / 2, b / 2, n - 1), XorBits(a / 2, d / 2, n - 1), (a % 2 + b % 2) % 2, (a % 2 + d % 2) % 2);
      HalfBelow(b, Pow2(n - 1));
      HalfBelow(d, Pow2(n - 1));
      XorCancels(a / 2, b / 2, d / 2, n - 1);
      SameParity(a, b, d);
      SameNumber(b, d);
    }
  }

  lemma ByteBits()
    ensures Pow2(8) == 256
  {
    assert Pow2(4) == 16;
  }

  function XorByte(a: Byte, b: Byte): Byte {
    XorBound(a, b, 8);
    ByteBits();
    XorBits(a, b, 8)
  }

  function XorBytes(a: seq<Byte>, b: seq<Byte>): (r: seq<Byte>)
    requires |a| == |b|
    ensures |r| == |a|
  {
    if a == [] then [] else [XorByte(a[0], b[0])] + XorBytes(a[1..], b[1..])
  }

  lemma {:induction false} XorBytesCancel(a: seq<Byte>, b: seq<Byte>, d: seq<Byte>)
    requires |a| == |b| == |d| && XorBytes(a, b) == XorBytes(a, d)
    ensures b == d
  {
    if a != [] {
      var r, s := XorBytes(a, b), XorBytes(a, d);
      assert r[0] == s[0] && r[1..] == XorBytes(a[1..], b[1..]) && s[1..] == XorBytes(a[1..], d[1..]);
      ByteBits();
      XorCancels(a[0], b[0], d[0], 8);
      XorBytesCancel(a[1..], b[1..], d[1..]);
      assert b == [b[0]] + b[1..] && d == [d[0]] + d[1..];
    }
  }

  // ---- Nonces ----

  const PIV_BYTES: nat := 5

  /** The partial IV with its leading zeros back in place. */
  function PadPiv(piv: seq<Byte>): (r: seq<Byte>)
    requires |piv| <= PIV_BYTES
    ensures |r| == PIV_BYTES
  {
    Zeros(PIV_BYTES - |piv|) + piv
  }

  /** Identifiers fit the nonce; the check that loading a context makes. */
  predicate IdFits(id: seq<Byte>, ivBytes: nat) {
    6 + |id| <= ivBytes < 256
  }

  function Components(piv: seq<Byte>, id: seq<Byte>, ivBytes: nat): (r: seq<Byte>)
    requires |piv| <= PIV_BYTES && IdFits(id, ivBytes)
    ensures |r| == ivBytes
  {
    [|id|] + Zeros(ivBytes - 6 - |id|) + id + PadPiv(piv)
  }

  function ConstructNonce(commonIv: seq<Byte>, piv: seq<Byte>, id: seq<Byte>, ivBytes: nat): (r: seq<Byte>)
    requires |piv| <= PIV_BYTES && IdFits(id, ivBytes) && |commonIv| >= ivBytes
    ensures |r| == ivBytes
  {
    XorBytes(commonIv[..ivBytes], Components(piv, id, ivBytes))
  }

  lemma ComponentsInjective(p: seq<Byte>, id: seq<Byte>, q: seq<Byte>, jd: seq<Byte>, ivBytes: nat)
    requires |p| <= PIV_BYTES && |q| <= PIV_BYTES && IdFits(id, ivBytes) && IdFits(jd, ivBytes)
    requires Components(p, id, ivBytes) == Components(q, jd, ivBytes)
    ensures id == jd && PadPiv(p) == PadPiv(q)
  {
    var c, d := Components(p, id, ivBytes), Components(q, jd, ivBytes);
    assert c[0] == |id| && d[0] == |jd|;
    var at := ivBytes - 5 - |id|;
    assert c[at..at + |id|] == id && d[at..at + |id|] == jd;
    assert c[at + |id|..] == PadPiv(p) && d[at + |id|..] == PadPiv(q);
  }

  /** Under one common IV, equal nonces come from equal identifiers and equal partial IVs. */
  lemma NonceInjective(commonIv: seq<Byte>, p: seq<Byte>, id: seq<Byte>, q: seq<Byte>, jd: seq<Byte>, ivBytes: nat)
    requires |p| <= PIV_BYTES && |q| <= PIV_BYTES && IdFits(id, ivBytes) && IdFits(jd, ivBytes)
    requires |commonIv| >= ivBytes
    ensures ConstructNonce(commonIv, p, id, ivBytes) == ConstructNonce(commonIv, q, jd, ivBytes)
      <==> id == jd && PadPiv(p) == PadPiv(q)
  {
    if ConstructNonce(commonIv, p, id, ivBytes) == ConstructNonce(commonIv, q, jd, ivBytes) {
      XorBytesCancel(commonIv[..ivBytes], Components(p, id, ivBytes), Components(q, jd, ivBytes));
      ComponentsInjective(p, id, q, jd, ivBytes);
    }
  }

  // ---- Sequence numbers on the wire ----

  function Strip(bytes: seq<Byte>): seq<Byte> {
    if bytes == [] || bytes[0] != 0 then bytes else Strip(bytes[1..])
  }

  /** `partial_iv.lstrip(b"\0") or b"\0"` */
  function ShortPiv(seqno: nat): seq<Byte> {
    var short := Strip(ToBytes(seqno, PIV_BYTES));
    if short == [] then [0] else short
  }

  lemma {:induction false} StripPads(bytes: seq<Byte>)
    ensures |Strip(bytes)| <= |bytes|
    ensures bytes == Zeros(|bytes| - |Strip(bytes)|) + Strip(bytes)
  {
    if bytes != [] && bytes[0] == 0 {
      StripPads(bytes[1..]);
      assert bytes == [0] + bytes[1..];
    }
  }

  lemma {:induction false} LeadingZeros(n: nat, bytes: seq<Byte>)
    ensures FromBytes(Zeros(n) + bytes) == FromBytes(bytes)
  {
    var all := Zeros(n) + bytes;
    if bytes != [] {
      LeadingZeros(n, bytes[..|bytes| - 1]);
      assert all[..|all| - 1] == Zeros(n) + bytes[..|bytes| - 1];
    } else if n > 0 {
      LeadingZeros(n - 1, []);
      assert all[..|all| - 1] == Zeros(n - 1) + [];
    }
  }

  lemma ShortPivPads(seqno: nat)
    ensures 0 < |ShortPiv(seqno)| <= PIV_BYTES
    ensures PadPiv(ShortPiv(seqno)) == ToBytes(seqno, PIV_BYTES)
  {
    StripPads(ToBytes(seqno, PIV_BYTES));
  }

  /** From the stripped partial IV the receiver gets the sender's nonce and its sequence number. */
  lemma ReceiverRebuildsNonce(commonIv: seq<Byte>, id: seq<Byte>, seqno: nat, ivBytes: nat)
    requires IdFits(id, ivBytes) && |commonIv| >= ivBytes && seqno < Pow256(PIV_BYTES)
    ensures |ShortPiv(seqno)| <= PIV_BYTES
    ensures ConstructNonce(commonIv, ShortPiv(seqno), id, ivBytes)
      == ConstructNonce(commonIv, ToBytes(seqno, PIV_BYTES), id, ivBytes)
    ensures FromBytes(ShortPiv(seqno)) == seqno
  {
    var full, short := ToBytes(seqno, PIV_BYTES), ShortPiv(seqno);
    ShortPivPads(seqno);
    assert PadPiv(full) == full;
    FromToBytes(seqno, PIV_BYTES);
    LeadingZeros(PIV_BYTES - |short|, short);
  }

  function NonceOf(commonIv: seq<Byte>, id: seq<Byte>, seqno: nat, ivBytes: nat): seq<Byte>
    requires IdFits(id, ivBytes) && |commonIv| >= ivBytes
  {
    ConstructNonce(commonIv, ToBytes(seqno, PIV_BYTES), id, ivBytes)
  }

  /** Different sequence numbers, or different identifiers, give different nonces. */
  lemma FreshNumbersGiveFreshNonces(commonIv: seq<Byte>, id: seq<Byte>, a: nat, jd: seq<Byte>, b: nat, ivBytes: nat)
    requires IdFits(id, ivBytes) && IdFits(jd, ivBytes) && |commonIv| >= ivBytes
    requires a < Pow256(PIV_BYTES) && b < Pow256(PIV_BYTES)
    ensures NonceOf(commonIv, id, a, ivBytes) == NonceOf(commonIv, jd, b, ivBytes) <==> id == jd && a == b
  {
    var p, q := ToBytes(a, PIV_BYTES), ToBytes(b, PIV_BYTES);
    NonceInjective(commonIv, p, id, q, jd, ivBytes);
    assert PadPiv(p) == p && PadPiv(q) == q;
    FromToBytes(a, PIV_BYTES);
    FromToBytes(b, PIV_BYTES);
  }

  // ---- The nonce, byte by byte ----

  /** A bit of the exclusive or is set exactly if the two bits differ. */
  lemma {:induction false} XorBit(a: nat, b: nat, n: nat, k: nat)
    requires k < n
    ensures Bit(XorBits(a, b, n), k) <==> Bit(a, k) != Bit(b, k)
  {
    var rest := XorBits(a / 2, b / 2, n - 1);
    assert XorBits(a, b, n) / 2 == rest;
    if k > 0 {
      XorBit(a / 2, b / 2, n - 1, k - 1);
    }
  }

  lemma {:induction false} XorAt(a: seq<Byte>, b: seq<Byte>, i: nat)
    requires |a| == |b| && i < |a|
    ensures XorBytes(a, b)[i] == XorByte(a[i], b[i])
  {
    if i > 0 {
      XorAt(a[1..], b[1..], i - 1);
    }
  }

  /** Byte `j` of a number in big-endian form. */
  lemma {:induction false} ByteAt(v: nat, n: nat, j: nat)
    requires j < n
    ensures ToBytes(v, n)[j] == v / Pow256(n - 1 - j) % 256
  {
    if j < n - 1 {
      ByteAt(v / 256, n - 1, j);
      Quotients(v, Pow256(n - 2 - j));
    } else {
      assert v / Pow256(0) == v;
    }
  }

  lemma Quotients(v: nat, p: nat)
    requires p > 0
    ensures v / 256 / p == v / (256 * p)
  {
    var q, r := v / 256, v % 256;
    var c, d := q / p, q % p;
    assert v == 256 * q + r && q == c * p + d;
    var rest := 256 * d + r;
    assert rest < 256 * p;
    assert v == c * (256 * p) + rest by {
      assert 256 * (c * p) == c * (256 * p);
    }
    DivisionIs(v, 256 * p, c, rest);
  }

  lemma DivisionIs(v: nat, p: nat, c: nat, rest: nat)
    requires p > 0 && v == c * p + rest && rest < p
    ensures v / p == c
  {
    var e, m := v / p, v % p;
    assert v == e * p + m && m < p;
    assert (e - c) * p == rest - m by {
      assert (e - c) * p == e * p - c * p;
    }
    Multiple(e - c, p);
  }

  lemma Multiple(x: int, p: nat)
    requires p > 0
    ensures x >= 1 ==> x * p >= p
    ensures x <= -1 ==> x * p + p <= 0
  {
  }

  /**
   What is combined with the common IV: the size of the identifier, zeros, the identifier
   in front of the last five bytes, and the sequence number in these.
   */
  function NonceByte(id: seq<Byte>, seqno: nat, ivBytes: nat, i: nat): nat
    requires IdFits(id, ivBytes) && i < ivBytes
  {
    var numberAt := ivBytes - 5;
    if i == 0 then |id|
    else if i < numberAt - |id| then 0
    else if i < numberAt then id[i - (numberAt - |id|)]
    else seqno / Pow256(4 - (i - numberAt)) % 256
  }

  /** Each bit of the nonce is set exactly if that of the common IV and of the byte at its place differ. */
  lemma NonceBits(commonIv: seq<Byte>, id: seq<Byte>, seqno: nat, ivBytes: nat, i: nat, k: nat)
    requires IdFits(id, ivBytes) && |commonIv| >= ivBytes && i < ivBytes && k < 8
    ensures Bit(NonceOf(commonIv, id, seqno, ivBytes)[i], k) <==>
      Bit(commonIv[i], k) != Bit(NonceByte(id, seqno, ivBytes, i), k)
  {
    hide Bit, Pow256;
    NonceAt(commonIv, id, seqno, ivBytes, i);
    XorBit(commonIv[i], NonceByte(id, seqno, ivBytes, i), 8, k);
  }

  lemma NonceAt(commonIv: seq<Byte>, id: seq<Byte>, seqno: nat, ivBytes: nat, i: nat)
    requires IdFits(id, ivBytes) && |commonIv| >= ivBytes && i < ivBytes
    ensures NonceByte(id, seqno, ivBytes, i) < 256
    ensures NonceOf(commonIv, id, seqno, ivBytes)[i] == XorByte(commonIv[i], NonceByte(id, seqno, ivBytes, i))
  {
    hide Pow256, XorByte;
    var components := Components(ToBytes(seqno, PIV_BYTES), id, ivBytes);
    XorAt(commonIv[..ivBytes], components, i);
    if i >= ivBytes - 5 {
      ByteAt(seqno, 5, i - (ivBytes - 5));
    }
  }

  // ---- Examples of appendix C of RFC 8613 ----

  const COMMON_IV: seq<Byte> := [0x46, 0x22, 0xD4, 0xDD, 0x6D, 0x94, 0x41, 0x68, 0xEE, 0xFB, 0x54, 0x98, 0x7C]

  lemma XorExamples()
    ensures forall a: Byte :: XorByte(a, 0) == a
    ensures XorByte(0x46, 1) == 0x47 && XorByte(0x68, 1) == 0x69 && XorByte(0x7C, 0x14) == 0x68
  {
    forall a: Byte ensures XorByte(a, 0) == a {
      ByteBits();
      XorZero(a, 8);
    }
    XorZero(0x46 / 2, 7);
    XorZero(0x68 / 2, 7);
    assert Pow2(7) == 128 by {
      ByteBits();
    }
    assert XorBits(3, 0, 3) == 3;
    assert XorBits(0x0F, 0x02, 5) == 0x0D;
    assert XorBits(0x1F, 0x05, 6) == 0x1A;
  }

  lemma {:induction false} XorZero(a: nat, n: nat)
    requires a < Pow2(n)
    ensures XorBits(a, 0, n) == a
  {
    if n > 0 {
      XorZero(a / 2, n - 1);
    }
  }

  lemma SmallComponents()
    ensures Components([0x14], [], 13) == [0, 0, 0, 0, 0, 0, 0, 0, 0, 0, 0, 0, 0x14]
    ensures Components([0], [1], 13) == [1, 0, 0, 0, 0, 0, 0, 1, 0, 0, 0, 0, 0]
  {
  }

  /** The nonce of the server of the first vector, and that of the request of the fourth. */
  lemma NonceExamples()
    ensures ConstructNonce(COMMON_IV, [0], [1], 13)
         == [0x47, 0x22, 0xD4, 0xDD, 0x6D, 0x94, 0x41, 0x69, 0xEE, 0xFB, 0x54, 0x98, 0x7C]
    ensures ConstructNonce(COMMON_IV, [0x14], [], 13)
         == [0x46, 0x22, 0xD4, 0xDD, 0x6D, 0x94, 0x41, 0x68, 0xEE, 0xFB, 0x54, 0x98, 0x68]
  {
    hide XorByte, Components, XorBytes;
    XorExamples();
    SmallComponents();
    assert COMMON_IV[..13] == COMMON_IV;
    XorPlaces(COMMON_IV, [1, 0, 0, 0, 0, 0, 0, 1, 0, 0, 0, 0, 0]);
    XorPlaces(COMMON_IV, [0, 0, 0, 0, 0, 0, 0, 0, 0, 0, 0, 0, 0x14]);
  }

  lemma XorPlaces(a: seq<Byte>, b: seq<Byte>)
    requires |a| == |b|
    ensures forall i :: 0 <= i < |a| ==> XorBytes(a, b)[i] == XorByte(a[i], b[i])
  {
    hide XorByte;
    forall i | 0 <= i < |a| ensures XorBytes(a, b)[i] == XorByte(a[i], b[i]) {
      XorAt(a, b, i);
    }
  }

  // ---- The option ----

  datatype Fields = Fields(piv: seq<Byte>, kid: Option<seq<Byte>>, context: Option<seq<Byte>>, group: bool)

  function FirstByte(f: Fields): nat {
    |f.piv| + (if f.kid.Some? then 8 else 0) + (if f.context.Some? then 16 else 0) + (if f.group then 32 else 0)
  }

  predicate Compressible(f: Fields) {
    |f.piv| <= 7 && (f.context.Some? ==> |f.context.value| <= 255)
  }

  function ContextBytes(f: Fields): seq<Byte>
    requires Compressible(f)
  {
    if f.context.Some? then [|f.context.value|] + f.context.value else []
  }

  function KidBytes(f: Fields): seq<Byte> {
    if f.kid.Some? then f.kid.value else []
  }

  function Compress(f: Fields): seq<Byte>
    requires Compressible(f)
  {
    if FirstByte(f) == 0 then [] else [FirstByte(f)] + f.piv + ContextBytes(f) + KidBytes(f)
  }

  function TakeContext(announced: bool, tail: seq<Byte>): Option<(Option<seq<Byte>>, seq<Byte>)> {
    if !announced then Some((None, tail))
    else if tail == [] || |tail| - 1 < tail[0] then None
    else Some((Some(tail[1..1 + tail[0]]), tail[1 + tail[0]..]))
  }

  /** The fields of an option, or none where the code raises an exception. */
  function Uncompress(option: seq<Byte>): Option<Fields> {
    if option == [] then Some(Fields([], None, None, false))
    else
      var first, tail := option[0], option[1..];
      var pivSize := first % 8;
      if first >= 64 || |tail| < pivSize then None
      else
        var behind := TakeContext(first / 16 % 2 == 1, tail[pivSize..]);
        if behind.None? then None
        else
          var (context, rest) := behind.value;
          Some(Fields(tail[..pivSize], if first / 8 % 2 == 1 then Some(rest) else None, context, first / 32 % 2 == 1))
  }

  lemma TakesContext(f: Fields)
    requires Compressible(f)
    ensures TakeContext(f.context.Some?, ContextBytes(f) + KidBytes(f)) == Some((f.context, KidBytes(f)))
  {
    if f.context.Some? {
      var tail := ContextBytes(f) + KidBytes(f);
      assert tail[1..1 + tail[0]] == f.context.value;
      assert tail[1 + tail[0]..] == KidBytes(f);
    } else {
      assert ContextBytes(f) + KidBytes(f) == KidBytes(f);
    }
  }

  lemma Digits(p: nat, k: nat, c: nat, g: nat)
    requires p < 8 && k < 2 && c < 2 && g < 2
    ensures var x := p + 8 * k + 16 * c + 32 * g;
      x < 64 && x % 8 == p && x / 8 % 2 == k && x / 16 % 2 == c && x / 32 % 2 == g
  {
    var x := p + 8 * k + 16 * c + 32 * g;
    assert x / 8 == k + 2 * c + 4 * g;
    assert x / 16 == c + 2 * g;
    assert x / 32 == g;
  }

  lemma FirstByteDigits(f: Fields)
    requires |f.piv| < 8
    ensures var x := FirstByte(f);
      && x < 64 && x % 8 == |f.piv| && (x / 8 % 2 == 1 <==> f.kid.Some?)
      && (x / 16 % 2 == 1 <==> f.context.Some?) && (x / 32 % 2 == 1 <==> f.group)
  {
    Digits(|f.piv|, if f.kid.Some? then 1 else 0, if f.context.Some? then 1 else 0, if f.group then 1 else 0);
  }

  /** What the sender packs into the option is what the receiver unpacks. */
  lemma OptionRoundTrip(f: Fields)
    requires Compressible(f)
    ensures Uncompress(Compress(f)) == Some(f)
  {
    hide FirstByte, TakeContext, ContextBytes, KidBytes;
    FirstByteDigits(f);
    TakesContext(f);
    NoFields(f);
    if FirstByte(f) != 0 {
      var option := Compress(f);
      var tail := option[1..];
      assert tail == f.piv + (ContextBytes(f) + KidBytes(f));
      assert tail[..|f.piv|] == f.piv && tail[|f.piv|..] == ContextBytes(f) + KidBytes(f);
      KidIs(f);
    }
  }

  /** The first byte, bit by bit: the size of the partial IV, and which of the other fields follow. */
  lemma FirstByteBits(f: Fields)
    requires Compressible(f) && Compress(f) != []
    ensures var first := Compress(f)[0];
      && first % 8 == |f.piv| && (Bit(first, 3) <==> f.kid.Some?) && (Bit(first, 4) <==> f.context.Some?)
      && (Bit(first, 5) <==> f.group) && !Bit(first, 6) && !Bit(first, 7)
  {
    hide FirstByte;
    FirstByteDigits(f);
    var x := FirstByte(f);
    HighBitsOf(x);
  }

  lemma HighBitsOf(x: nat)
    ensures (Bit(x, 3) <==> x / 8 % 2 == 1) && (Bit(x, 4) <==> x / 16 % 2 == 1) && (Bit(x, 5) <==> x / 32 % 2 == 1)
    ensures x < 64 ==> !Bit(x, 6) && !Bit(x, 7)
  {
    hide Bit;
    BitStep(x);
    BitStep(x / 2);
    BitStep(x / 4);
    BitStep(x / 8);
    BitStep(x / 16);
    BitStep(x / 32);
    BitStep(x / 64);
    assert x / 2 / 2 == x / 4 && x / 4 / 2 == x / 8 && x / 8 / 2 == x / 16;
    assert x / 16 / 2 == x / 32 && x / 32 / 2 == x / 64;
  }

  lemma BitStep(x: nat)
    ensures Bit(x, 0) <==> x % 2 == 1
    ensures forall k: nat :: Bit(x, k + 1) <==> Bit(x / 2, k)
  {
  }

  /** Examples of section 6.3 of RFC 8613. */
  lemma OptionExamples()
    ensures Compress(Fields([0x05], Some([0x25]), None, false)) == [0x09, 0x05, 0x25]
    ensures Compress(Fields([0x00], Some([]), None, false)) == [0x09, 0x00]
    ensures Compress(Fields([0x05], Some([]), Some([0x44, 0x61, 0x6C, 0x65, 0x6B]), false))
         == [0x19, 0x05, 0x05, 0x44, 0x61, 0x6C, 0x65, 0x6B]
    ensures Compress(Fields([], None, None, false)) == [] && Compress(Fields([0x07], None, None, false)) == [0x01, 0x07]
  {
  }

  lemma NoFields(f: Fields)
    ensures FirstByte(f) == 0 ==> f == Fields([], None, None, false)
  {
  }

  lemma KidIs(f: Fields)
    ensures f.kid == if f.kid.Some? then Some(KidBytes(f)) else None
  {
  }

  /** Nothing of the option is ignored: bytes behind the other fields are a key identifier. */
  predicate Canonical(option: seq<Byte>) {
    option == [] ||
    (option[0] != 0 &&
     (option[0] / 8 % 2 == 1 || |option| == 1 + option[0] % 8 + ContextSize(option)))
  }

  function ContextSize(option: seq<Byte>): nat
    requires option != []
  {
    var at := 1 + option[0] % 8;
    if option[0] / 16 % 2 == 1 && at < |option| then 1 + option[at] as nat else 0
  }

  lemma FirstByteParts(first: Byte)
    requires first < 64
    ensures first == first % 8 + first / 8 % 2 * 8 + first / 16 % 2 * 16 + first / 32 % 2 * 32
  {
    assert first / 16 == first / 8 / 2 && first / 32 == first / 16 / 2;
  }

  /** The parts of an accepted option, as they lie in it. */
  lemma AcceptedParts(option: seq<Byte>) returns (f: Fields, rest: seq<Byte>)
    requires option != [] && Uncompress(option).Some?
    ensures Uncompress(option) == Some(f) && Compressible(f) && FirstByte(f) == option[0]
    ensures option == [option[0]] + f.piv + ContextBytes(f) + rest
    ensures KidBytes(f) == if option[0] / 8 % 2 == 1 then rest else []
    ensures |option| == 1 + option[0] % 8 + ContextSize(option) + |rest|
  {
    f := Uncompress(option).value;
    var first, tail := option[0], option[1..];
    FirstByteParts(first);
    var behind := tail[first % 8..];
    assert option == [first] + f.piv + behind;
    rest := TakeContext(first / 16 % 2 == 1, behind).value.1;
    assert behind == ContextBytes(f) + rest;
  }

  /** An accepted option is what the sender would write for its fields exactly if it is canonical. */
  lemma OptionUniqueExactly(option: seq<Byte>)
    requires Uncompress(option).Some?
    ensures Compressible(Uncompress(option).value)
    ensures Compress(Uncompress(option).value) == option <==> Canonical(option)
  {
    if option != [] {
      hide Uncompress, ContextBytes, KidBytes, FirstByte, ContextSize;
      var f, rest := AcceptedParts(option);
      var front := [option[0]] + f.piv + ContextBytes(f);
      assert (front + KidBytes(f) == option) <==> KidBytes(f) == rest by {
        if front + KidBytes(f) == option {
          assert (front + KidBytes(f))[|front|..] == KidBytes(f);
          assert (front + rest)[|front|..] == rest;
        }
      }
    }
  }
}
