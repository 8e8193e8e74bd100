/**
 * The unsigned 64-bit operations the proof verifiers use. A word is a natural number below 2^64;
 * each operation is defined bit by bit from the low end, as the hardware instruction is specified.
 */
module Bits {
  import opened Basics

  function Pow2(n: nat): (p: nat)
    ensures p > 0
  {
    if n == 0 then 1 else 2 * Pow2(n - 1)
  }

  /** `a ^ b` */
  function Xor(a: nat, b: nat): nat
    decreases a + b
  {
    if a == 0 && b == 0 then 0
    else 2 * Xor(a / 2, b / 2) + (if a % 2 != b % 2 then 1 else 0)
  }

  /** `x >> i` */
  function Shr(x: nat, i: nat): (r: nat)
    ensures r <= x
  {
    if i == 0 then x else Shr(x / 2, i - 1)
  }

  /** `(x >> i) & 1 == 1` */
  predicate Bit(x: nat, i: nat) {
    Shr(x, i) % 2 == 1
  }

  /** `x.count_ones()` */
  function CountOnes(x: nat): nat
  {
    if x == 0 then 0 else x % 2 + CountOnes(x / 2)
  }

  /** `x.trailing_zeros()`: 64 for the zero word. */
  function TrailingZeros(x: nat): nat
  {
    if x == 0 then 64 else if x % 2 == 1 then 0 else 1 + TrailingZeros(x / 2)
  }

  /** Zero bits above the highest set bit of a `width`-bit word. */
  function LeadingZeros(x: nat, width: nat): (z: nat)
    requires x < Pow2(width)
    ensures z <= width && x < Pow2(width - z)
    ensures z < width ==> Pow2(width - z - 1) <= x
  {
    if width == 0 || x >= Pow2(width - 1) then 0 else 1 + LeadingZeros(x, width - 1)
  }

  lemma {:induction false} Pow2Monotone(m: nat, n: nat)
    requires m <= n
    ensures Pow2(m) <= Pow2(n)
    decreases n
  {
    if m < n { Pow2Monotone(m, n - 1); }
  }

  lemma Pow2Strict(m: nat, n: nat)
    requires Pow2(m) < Pow2(n)
    ensures m < n
  {
    if n <= m { Pow2Monotone(n, m); }
  }

  lemma Pow2_64()
    ensures Pow2(63) == TWO63 && Pow2(64) == TWO64
  {
    assert Pow2(8) == 0x100;
    assert Pow2(16) == 0x1_0000;
    assert Pow2(24) == 0x100_0000;
    assert Pow2(32) == 0x1_0000_0000;
    assert Pow2(40) == 0x100_0000_0000;
    assert Pow2(48) == 0x1_0000_0000_0000;
    assert Pow2(56) == 0x100_0000_0000_0000;
  }

  // ----- shifts and a set top bit -----

  lemma {:induction false} ShrTopBit(x: nat, t: nat, i: nat)
    requires i <= t
    ensures Shr(Pow2(t) + x, i) == Pow2(t - i) + Shr(x, i)
  {
    if i > 0 {
      assert (Pow2(t) + x) / 2 == Pow2(t - 1) + x / 2;
      ShrTopBit(x / 2, t - 1, i - 1);
    }
  }

  lemma {:induction false} ShrSmall(x: nat, t: nat, i: nat)
    requires x < Pow2(t)
    ensures Shr(x, i) < Pow2(if i <= t then t - i else 0)
  {
    if i > 0 {
      if t == 0 {
        ShrSmall(x / 2, 0, i - 1);
      } else {
        ShrSmall(x / 2, t - 1, i - 1);
      }
    }
  }

  lemma {:induction false} ShrSmallIsZero(x: nat, t: nat, i: nat)
    requires x < Pow2(t) && t <= i
    ensures Shr(x, i) == 0
  {
    ShrSmall(x, t, i);
  }

  lemma {:induction false} ShrShr(x: nat, i: nat, j: nat)
    ensures Shr(Shr(x, i), j) == Shr(x, i + j)
  {
    if i > 0 { ShrShr(x / 2, i - 1, j); }
  }

  /** A bit at position t above everything else of `x` does not disturb the lower bits. */
  lemma BitBelowTop(x: nat, t: nat, i: nat)
    requires i < t
    ensures Bit(Pow2(t) + x, i) == Bit(x, i)
  {
    ShrTopBit(x, t, i);
    assert Pow2(t - i) == 2 * Pow2(t - i - 1);
  }

  lemma BitAtTop(x: nat, t: nat)
    requires x < Pow2(t)
    ensures Bit(Pow2(t) + x, t) && !Bit(x, t)
  {
    ShrTopBit(x, t, t);
    ShrSmallIsZero(x, t, t);
  }

  // ----- xor -----

  lemma {:induction false} XorBound(a: nat, b: nat, t: nat)
    requires a < Pow2(t) && b < Pow2(t)
    ensures Xor(a, b) < Pow2(t)
  {
    if t > 0 { XorBound(a / 2, b / 2, t - 1); }
  }

  /** Equal bits at position t cancel. */
  lemma {:induction false} XorCommonTop(a: nat, b: nat, t: nat)
    requires a < Pow2(t) && b < Pow2(t)
    ensures Xor(Pow2(t) + a, Pow2(t) + b) == Xor(a, b)
  {
    if t > 0 {
      assert (Pow2(t) + a) / 2 == Pow2(t - 1) + a / 2 && (Pow2(t) + b) / 2 == Pow2(t - 1) + b / 2;
      XorCommonTop(a / 2, b / 2, t - 1);
    }
  }

  /** Different bits at position t stay. */
  lemma {:induction false} XorOneTop(a: nat, b: nat, t: nat)
    requires a < Pow2(t) <= b < 2 * Pow2(t)
    ensures Pow2(t) <= Xor(a, b) < 2 * Pow2(t)
  {
    if t > 0 { XorOneTop(a / 2, b / 2, t - 1); }
  }
}
