/** Bytes and the few sequence facts that every wire format of the project uses. */
module Bytes {
  type Byte = b: int | 0 <= b < 256 witness 0

  const U16_LIMIT: nat := 0x1_0000
  const U32_LIMIT: nat := 0x1_0000_0000
  const U64_LIMIT: nat := 0x1_0000_0000_0000_0000

  type U64 = n: int | 0 <= n < U64_LIMIT

  datatype Option<+T> = None | Some(value: T)

  /** Subtraction of 64-bit numbers, which wraps around. */
  function Sub64(a: int, b: int): nat {
    (a - b) % U64_LIMIT
  }

  function Pow2(n: nat): nat {
    if n == 0 then 1 else 2 * Pow2(n - 1)
  }

  /** Bit `k` of a number, the lowest one being bit 0. */
  predicate Bit(n: nat, k: nat) {
    if k == 0 then n % 2 == 1 else Bit(n / 2, k - 1)
  }

  lemma {:induction false} BitAbove(n: nat, j: nat, k: nat)
    requires n < Pow2(j) && j <= k
    ensures !Bit(n, k)
  {
    if k > 0 {
      BitAbove(n / 2, if j == 0 then 0 else j - 1, k - 1);
    }
  }

  /** The bits of a number made of low bits and a rest. */
  lemma {:induction false} BitsJoin(low: nat, rest: nat, j: nat, k: nat)
    requires low < Pow2(j)
    ensures Bit(low + Pow2(j) * rest, k) <==> if k < j then Bit(low, k) else Bit(rest, k - j)
  {
    if j > 0 {
      var all := low + Pow2(j) * rest;
      var half := Pow2(j - 1) * rest;
      assert Pow2(j) * rest == 2 * half;
      assert all / 2 == low / 2 + half && all % 2 == low % 2;
      if k > 0 {
        BitsJoin(low / 2, rest, j - 1, k - 1);
      }
    }
  }

  /** The bits of a number at the positions in `keep`, counted from `from` on. */
  function KeepBits(n: nat, keep: set<nat>, from: nat): (r: nat)
    ensures r <= n
  {
    if n == 0 then 0 else (if from in keep then n % 2 else 0) + 2 * KeepBits(n / 2, keep, from + 1)
  }

  lemma {:induction false} BitsKept(n: nat, keep: set<nat>, from: nat, k: nat)
    ensures Bit(KeepBits(n, keep, from), k) <==> Bit(n, k) && from + k in keep
  {
    if n == 0 {
      NoBits(k);
    } else {
      var rest := KeepBits(n / 2, keep, from + 1);
      assert KeepBits(n, keep, from) / 2 == rest;
      if k > 0 {
        BitsKept(n / 2, keep, from + 1, k - 1);
      }
    }
  }

  lemma {:induction false} NoBits(k: nat)
    ensures !Bit(0, k)
  {
    if k > 0 {
      NoBits(k - 1);
    }
  }

  function Zeros(n: nat): (r: seq<Byte>)
    ensures |r| == n
  {
    seq(n, _ => 0)
  }

  lemma SubsetSize<T>(a: set<T>, b: set<T>)
    requires a <= b
    ensures |a| <= |b|
  {
    assert b * a == a;
    assert |b - a| == |b| - |b * a|;
  }

  /** Value of a big-endian byte string. */
  function FromBytes(bytes: seq<Byte>): nat {
    if bytes == [] then 0 else FromBytes(bytes[..|bytes| - 1]) * 256 + bytes[|bytes| - 1]
  }

  /** The `n` low-order bytes of `v`, most significant byte first. */
  function ToBytes(v: nat, n: nat): (bytes: seq<Byte>)
    ensures |bytes| == n
  {
    if n == 0 then [] else ToBytes(v / 256, n - 1) + [v % 256]
  }

  lemma NoBytes()
    ensures ToBytes(0, 0) == []
  {
  }

  lemma LastByte(high: nat, low: Byte, n: nat)
    ensures ToBytes(high * 256 + low, n + 1) == ToBytes(high, n) + [low]
  {
    assert (high * 256 + low) / 256 == high && (high * 256 + low) % 256 == low;
  }

  /** Number of values that `n` bytes can hold. */
  function Pow256(n: nat): (p: nat)
    ensures p > 0
  {
    if n == 0 then 1 else 256 * Pow256(n - 1)
  }

  lemma {:induction false} FromBytesBound(bytes: seq<Byte>)
    ensures FromBytes(bytes) < Pow256(|bytes|)
  {
    if bytes != [] {
      FromBytesBound(bytes[..|bytes| - 1]);
    }
  }

  /** Writing a number that fits and reading it back gives the number. */
  lemma {:induction false} FromToBytes(v: nat, n: nat)
    requires v < Pow256(n)
    ensures FromBytes(ToBytes(v, n)) == v
  {
    if n > 0 {
      FromToBytes(v / 256, n - 1);
      assert ToBytes(v, n)[..n - 1] == ToBytes(v / 256, n - 1);
    }
  }

  /** Reading bytes and writing them at the same width gives the bytes. */
  lemma {:induction false} ToFromBytes(bytes: seq<Byte>)
    ensures ToBytes(FromBytes(bytes), |bytes|) == bytes
  {
    if bytes != [] {
      ToFromBytes(bytes[..|bytes| - 1]);
    }
  }

  /** The least number of bytes that hold `v`. */
  function ToMinimum(v: nat): seq<Byte> {
    if v == 0 then [] else ToMinimum(v / 256) + [v % 256]
  }

  lemma {:induction false} MinimumRoundTrip(v: nat)
    ensures FromBytes(ToMinimum(v)) == v
    ensures ToMinimum(v) != [] ==> ToMinimum(v)[0] != 0
  {
    if v > 0 {
      MinimumRoundTrip(v / 256);
      assert ToMinimum(v)[..|ToMinimum(v)| - 1] == ToMinimum(v / 256);
    }
  }

  lemma MinimumStep(v: nat, last: Byte)
    ensures ToMinimum(v * 256 + last) == if v == 0 && last == 0 then [] else ToMinimum(v) + [last]
  {
    assert (v * 256 + last) / 256 == v && (v * 256 + last) % 256 == last;
  }

  /** A number read and written again takes no more bytes, and as many exactly if it had no leading zero. */
  lemma {:induction false} MinimumOfBytes(bytes: seq<Byte>)
    ensures var short := ToMinimum(FromBytes(bytes));
      && |short| <= |bytes|
      && (|short| == |bytes| <==> short == bytes)
      && (short == bytes <==> bytes == [] || bytes[0] != 0)
    decreases |bytes|
  {
    hide ToMinimum;
    if bytes == [] {
      assert ToMinimum(0) == [] by {
        MinimumRoundTrip(0);
        MinimumStep(0, 0);
      }
    } else {
      var front, last := bytes[..|bytes| - 1], bytes[|bytes| - 1];
      MinimumOfBytes(front);
      MinimumStep(FromBytes(front), last);
      MinimumStep(0, 0);
      assert bytes == front + [last];
    }
  }
}
