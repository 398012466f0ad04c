/**
 The replay window of OSCORE (section 7.4 of RFC 8613): an index and a bitfield,
 an integer whose bit `k` tells whether the number `index + k` was seen.
 */
module ReplayWindow {
  import opened Bytes

  // ---- Bitfields as natural numbers ----

  function Shr(b: nat, n: nat): nat {
    if n == 0 then b else Shr(b / 2, n - 1)
  }

  predicate Bit(b: nat, k: nat) {
    Shr(b, k) % 2 == 1
  }

  /** `b | 1 << k` */
  function WithBit(b: nat, k: nat): nat {
    if k == 0 then b - b % 2 + 1 else 2 * WithBit(b / 2, k - 1) + b % 2
  }

  lemma {:induction false} ShrShr(b: nat, n: nat, k: nat)
    ensures Shr(Shr(b, n), k) == Shr(b, n + k)
  {
    if n > 0 {
      ShrShr(b / 2, n - 1, k);
    }
  }

  lemma {:induction false} WithBitSets(b: nat, k: nat, j: nat)
    ensures Bit(WithBit(b, k), j) <==> j == k || Bit(b, j)
  {
    if k == 0 {
      if j > 0 {
        assert WithBit(b, 0) / 2 == b / 2;
      }
    } else {
      assert WithBit(b, k) / 2 == WithBit(b / 2, k - 1);
      if j > 0 {
        WithBitSets(b / 2, k - 1, j - 1);
      }
    }
  }

  lemma HalfBound(b: nat, p: nat)
    ensures b < 2 * p <==> b / 2 < p
  {
  }

  lemma {:induction false} WithBitBound(b: nat, k: nat, n: nat)
    requires b < Pow2(n) && k < n
    ensures WithBit(b, k) < Pow2(n)
  {
    HalfBound(b, Pow2(n - 1));
    if k > 0 {
      WithBitBound(b / 2, k - 1, n - 1);
    }
  }

  lemma {:induction false} ShrBound(b: nat, n: nat, s: nat)
    requires b < Pow2(n)
    ensures Shr(b, s) < Pow2(n)
  {
    if s > 0 {
      assert b / 2 <= b;
      ShrBound(b / 2, n, s - 1);
    }
  }

  /** Numbers below `2^n` have no bits from `n` on. */
  lemma {:induction false} NoHighBits(b: nat, n: nat, k: nat)
    requires b < Pow2(n) && n <= k
    ensures !Bit(b, k)
  {
    if n == 0 {
      ZeroHasNoBits(k);
    } else {
      NoHighBits(b / 2, n - 1, k - 1);
    }
  }

  lemma {:induction false} ZeroHasNoBits(k: nat)
    ensures !Bit(0, k)
  {
    if k > 0 {
      ZeroHasNoBits(k - 1);
    }
  }

  // ---- The window ----

  datatype Window = Window(index: nat, bits: nat)

  function IsValid(size: nat, w: Window, number: nat): bool {
    if number < w.index then false
    else if number >= w.index + size then true
    else !Bit(w.bits, number - w.index)
  }

  function Shifted(size: nat, w: Window, number: nat): Window {
    var overshoot := number - (w.index + size - 1);
    if overshoot > 0 then Window(w.index + overshoot, Shr(w.bits, overshoot)) else w
  }

  /** The window with `number` struck out, or nothing when an exception is raised. */
  function StrikeOut(size: nat, w: Window, number: nat): Option<Window> {
    if !IsValid(size, w, number) then None
    else
      var s := Shifted(size, w, number);
      if !IsValid(size, s, number) then None
      else Some(Window(s.index, WithBit(s.bits, number - s.index)))
  }

  predicate Proper(size: nat, w: Window) {
    w.bits < Pow2(size)
  }

  const EMPTY := Window(0, 0)

  function FreshlySeen(seen: nat): Window {
    Window(seen, 1)
  }

  lemma StartsProper(size: nat, seen: nat)
    requires size > 0
    ensures Proper(size, EMPTY) && Proper(size, FreshlySeen(seen))
    ensures forall m: nat :: IsValid(size, EMPTY, m)
    ensures forall m: nat :: IsValid(size, FreshlySeen(seen), m) <==> m > seen
  {
    PowPositive(size);
    forall m: nat ensures IsValid(size, EMPTY, m) {
      ZeroHasNoBits(m);
    }
    forall m: nat ensures IsValid(size, FreshlySeen(seen), m) <==> m > seen {
      if m > seen {
        assert 1 < Pow2(1);
        NoHighBits(1, 1, m - seen);
      } else if m == seen {
        assert Bit(1, 0);
      }
    }
  }

  lemma {:induction false} PowPositive(n: nat)
    ensures Pow2(n) >= 1 && (n > 0 ==> Pow2(n) >= 2)
  {
    if n > 0 {
      PowPositive(n - 1);
    }
  }

  /** Shifting forgets nothing but the numbers that fall out of the window. */
  lemma ShiftedValid(size: nat, w: Window, number: nat, m: nat)
    requires size > 0 && Proper(size, w)
    ensures var s := Shifted(size, w, number);
      && Proper(size, s) && (number >= w.index ==> s.index <= number < s.index + size)
      && (IsValid(size, s, m) <==> IsValid(size, w, m) && m >= s.index)
  {
    var overshoot := number - (w.index + size - 1);
    if overshoot > 0 {
      var s := Shifted(size, w, number);
      ShrBound(w.bits, size, overshoot);
      if s.index <= m < s.index + size {
        ShrShr(w.bits, overshoot, m - s.index);
        if m >= w.index + size {
          NoHighBits(w.bits, size, m - w.index);
        }
      }
    }
  }

  function Max(a: int, b: int): int {
    if a >= b then a else b
  }

  /**
   Striking out a valid number succeeds, and afterwards a number is valid exactly if it
   was before, is another number and has not fallen out of the window below it.
   */
  lemma StrikeOutMeans(size: nat, w: Window, number: nat, m: nat)
    requires size > 0 && Proper(size, w)
    ensures StrikeOut(size, w, number).Some? <==> IsValid(size, w, number)
    ensures IsValid(size, w, number) ==>
      var r := StrikeOut(size, w, number).value;
      && Proper(size, r) && r.index == Max(w.index, number - size + 1)
      && (IsValid(size, r, m) <==> IsValid(size, w, m) && m != number && m >= r.index)
  {
    if IsValid(size, w, number) {
      var s := Shifted(size, w, number);
      ShiftedValid(size, w, number, number);
      ShiftedValid(size, w, number, m);
      WithBitBound(s.bits, number - s.index, size);
      if s.index <= m {
        WithBitSets(s.bits, number - s.index, m - s.index);
      }
    }
  }

  /** Without a window size no number can be struck out: it has already fallen out. */
  lemma ZeroSizeNeverStrikes(w: Window, number: nat)
    ensures StrikeOut(0, w, number) == None
  {
  }

  // ---- Runs ----

  function StrikeAll(size: nat, w: Window, numbers: seq<nat>): Option<Window> {
    if numbers == [] then Some(w)
    else
      var n := |numbers| - 1;
      var before := StrikeAll(size, w, numbers[..n]);
      if before.None? then None else StrikeOut(size, before.value, numbers[n])
  }

  /** Lower end of a window whose highest number is the maximum of `numbers`. */
  function Lowest(size: nat, start: nat, numbers: seq<nat>): nat {
    if numbers == [] then start
    else
      var n := |numbers| - 1;
      Max(Lowest(size, start, numbers[..n]), numbers[n] - size + 1)
  }

  /**
   The bitfield is a fast form of a set: whatever was struck out, in whatever order, a
   number is valid exactly if it was not struck out and is not below the highest one
   by the window size or more.
   */
  lemma {:induction false} WindowIsSet(size: nat, numbers: seq<nat>, m: nat)
    requires size > 0 && StrikeAll(size, EMPTY, numbers).Some?
    ensures var w := StrikeAll(size, EMPTY, numbers).value;
      && Proper(size, w) && w.index == Lowest(size, 0, numbers)
      && (IsValid(size, w, m) <==> m !in numbers && m >= Lowest(size, 0, numbers))
  {
    if numbers == [] {
      StartsProper(size, 0);
    } else {
      var n := |numbers| - 1;
      var before := StrikeAll(size, EMPTY, numbers[..n]).value;
      WindowIsSet(size, numbers[..n], m);
      StrikeOutMeans(size, before, numbers[n], m);
      assert numbers == numbers[..n] + [numbers[n]];
    }
  }

  /** The lower end in terms of the numbers themselves. */
  lemma {:induction false} LowestMeans(size: nat, numbers: seq<nat>, m: nat)
    requires size > 0
    ensures m >= Lowest(size, 0, numbers) <==> forall n :: n in numbers ==> m + size > n
  {
    if numbers != [] {
      var k := |numbers| - 1;
      LowestMeans(size, numbers[..k], m);
      assert numbers == numbers[..k] + [numbers[k]];
      assert forall n :: n in numbers <==> n in numbers[..k] || n == numbers[k];
      assert numbers[k] in numbers;
    }
  }

  // ---- The code ----

  /** An uninitialized window has no index; it persists as that. */
  class Replay {
    const size: nat
    var window: Option<Window>
    var changes: nat

    constructor (size: nat)
      ensures this.size == size && window == None && changes == 0
    {
      this.size := size;
      window := None;
      changes := 0;
    }

    method InitializeEmpty()
      modifies this`window
      ensures window == Some(EMPTY)
    {
      window := Some(EMPTY);
    }

    method InitializeFromPersisted(persisted: Option<Window>)
      modifies this`window
      ensures window == persisted
    {
      window := persisted;
    }

    method InitializeFromFreshlySeen(seen: nat)
      modifies this`window
      ensures window == Some(Window(seen, 1))
    {
      window := Some(Window(seen, 1));
    }

    method Persist() returns (persisted: Option<Window>)
      ensures persisted == window
    {
      persisted := window;
    }

    /** Persisting and loading: the other window lets through what this one does, now and after any further numbers. */
    method CarryOver(other: Replay)
      requires other != this && other.size == size
      modifies other`window
      ensures window.Some? <==> other.window.Some?
      ensures window.Some? ==> forall numbers: seq<nat>, n: nat ::
        var here := StrikeAll(size, window.value, numbers); var there := StrikeAll(size, other.window.value, numbers);
        && (here.Some? <==> there.Some?)
        && (here.Some? ==> (IsValid(size, here.value, n) <==> IsValid(size, there.value, n)))
    {
      var persisted := Persist();
      other.InitializeFromPersisted(persisted);
    }

    /** `changes` counts the calls of the strike-out callback. */
    method Strike(number: nat) returns (ok: bool)
      requires window.Some? && size > 0 && Proper(size, window.value)
      modifies this`window, this`changes
      ensures ok <==> IsValid(size, old(window).value, number)
      ensures ok ==> window == StrikeOut(size, old(window).value, number) && window.Some?
      ensures ok ==> Proper(size, window.value) && changes == old(changes) + 1
      ensures !ok ==> window == old(window) && changes == old(changes)
    {
      var index, bits := window.value.index, window.value.bits;
      if !IsValid(size, Window(index, bits), number) {
        return false;
      }
      StrikeOutMeans(size, window.value, number, number);
      var overshoot := number - (index + size - 1);
      if overshoot > 0 {
        index := index + overshoot;
        bits := Shr(bits, overshoot);
      }
      bits := WithBit(bits, number - index);
      window := Some(Window(index, bits));
      changes := changes + 1;
      return true;
    }
  }
}
