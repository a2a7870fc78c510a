/** Bitwise operations on natural numbers, powers of two, and how 64-bit values split into
    32-bit halves.
 */
module Bits {
  /** The number of 32-bit words. */
  const WORD: nat := 0x1_0000_0000

  datatype BitOp = And | Or | Xor

  function Bit(op: BitOp, a: nat, b: nat): (r: nat)
    ensures r < 2
  {
    match op
    case And => if a == 1 && b == 1 then 1 else 0
    case Or => if a == 1 || b == 1 then 1 else 0
    case Xor => if a != b then 1 else 0
  }

  function Pow2(n: nat): (p: nat)
    ensures p > 0
  {
    if n == 0 then 1 else 2 * Pow2(n - 1)
  }

  lemma {:induction false} Pow2Add(m: nat, n: nat)
    ensures Pow2(m + n) == Pow2(m) * Pow2(n)
  {
    if m > 0 {
      Pow2Add(m - 1, n);
      assert 2 * (Pow2(m - 1) * Pow2(n)) == (2 * Pow2(m - 1)) * Pow2(n);
    }
  }

  lemma MulMonotone(a: int, b: int, d: nat)
    requires a <= b
    ensures a * d <= b * d
  {
    assert (b - a) * d >= 0;
  }

  /** Quotient and remainder are determined by their equation. */
  lemma Quotient(x: int, d: nat, q: int, r: nat)
    requires r < d && x == q * d + r
    ensures x / d == q && x % d == r
  {
    var q', r' := x / d, x % d;
    assert x == q' * d + r';
    if q < q' {
      MulMonotone(q + 1, q', d);
    } else if q' < q {
      MulMonotone(q' + 1, q, d);
    }
  }

  lemma DivMod(x: int, d: nat)
    requires d > 0
    ensures x == x / d * d + x % d && (x >= 0 ==> x / d >= 0)
  {
  }

  lemma Pow2Values()
    ensures Pow2(8) == 0x100 && Pow2(16) == 0x1_0000 && Pow2(24) == 0x100_0000
    ensures Pow2(31) == 0x8000_0000 && Pow2(32) == WORD
  {
    assert Pow2(8) == 0x100;
    Pow2Add(8, 8);
    Pow2Add(8, 16);
    Pow2Add(16, 16);
  }

  /** The operation on the low n bits of x and y. */
  function Bitwise(op: BitOp, n: nat, x: nat, y: nat): (r: nat)
    ensures r < Pow2(n)
  {
    if n == 0 then 0 else 2 * Bitwise(op, n - 1, x / 2, y / 2) + Bit(op, x % 2, y % 2)
  }

  /** Halve a number given as a high part and a low part of m > 0 bits. */
  lemma HalveParts(m: nat, high: nat, low: nat)
    requires m > 0 && low < Pow2(m)
    ensures var x := high * Pow2(m) + low; x % 2 == low % 2 && x / 2 == high * Pow2(m - 1) + low / 2
    ensures low / 2 < Pow2(m - 1) && Pow2(m) == 2 * Pow2(m - 1)
  {
    var x := high * Pow2(m) + low;
    assert high * Pow2(m) == 2 * (high * Pow2(m - 1));
    assert x == 2 * (high * Pow2(m - 1) + low / 2) + low % 2;
  }

  lemma BitwiseStep(op: BitOp, n: nat, x: nat, y: nat, x': nat, y': nat)
    requires n > 0 && x' == x / 2 && y' == y / 2
    ensures Bitwise(op, n, x, y) == 2 * Bitwise(op, n - 1, x', y') + Bit(op, x % 2, y % 2)
  {
  }

  lemma Regroup(full: nat, r: nat, bit: nat, a: nat, p: nat, b: nat, low: nat)
    requires full == 2 * r + bit && r == a * p + b && low == 2 * b + bit
    ensures full == a * (2 * p) + low
  {
  }

  /** A bitwise operation works on the high and the low part separately. */
  lemma {:induction false} BitwiseSplit(op: BitOp, n: nat, m: nat, xh: nat, xl: nat, yh: nat, yl: nat)
    requires xl < Pow2(m) && yl < Pow2(m)
    ensures Bitwise(op, m + n, xh * Pow2(m) + xl, yh * Pow2(m) + yl) ==
      Bitwise(op, n, xh, yh) * Pow2(m) + Bitwise(op, m, xl, yl)
  {
    hide Bit;
    if m == 0 {
      assert xh * Pow2(m) + xl == xh && yh * Pow2(m) + yl == yh;
    } else {
      HalveParts(m, xh, xl);
      HalveParts(m, yh, yl);
      BitwiseSplit(op, n, m - 1, xh, xl / 2, yh, yl / 2);
      BitwiseSplitStep(op, n, m, xh, xl, yh, yl);
    }
  }

  /** From the halves of the low parts to the low parts. */
  lemma BitwiseSplitStep(op: BitOp, n: nat, m: nat, xh: nat, xl: nat, yh: nat, yl: nat)
    requires m > 0 && xl < Pow2(m) && yl < Pow2(m)
    requires Bitwise(op, m - 1 + n, xh * Pow2(m - 1) + xl / 2, yh * Pow2(m - 1) + yl / 2) ==
      Bitwise(op, n, xh, yh) * Pow2(m - 1) + Bitwise(op, m - 1, xl / 2, yl / 2)
    ensures Bitwise(op, m + n, xh * Pow2(m) + xl, yh * Pow2(m) + yl) ==
      Bitwise(op, n, xh, yh) * Pow2(m) + Bitwise(op, m, xl, yl)
  {
    hide Bit, Bitwise, Pow2;
    var x, y := xh * Pow2(m) + xl, yh * Pow2(m) + yl;
    var x', y' := xh * Pow2(m - 1) + xl / 2, yh * Pow2(m - 1) + yl / 2;
    HalveParts(m, xh, xl);
    HalveParts(m, yh, yl);
    BitwiseStep(op, m + n, x, y, x', y');
    BitwiseStep(op, m, xl, yl, xl / 2, yl / 2);
    Regroup(Bitwise(op, m + n, x, y), Bitwise(op, m - 1 + n, x', y'), Bit(op, xl % 2, yl % 2),
            Bitwise(op, n, xh, yh), Pow2(m - 1), Bitwise(op, m - 1, xl / 2, yl / 2), Bitwise(op, m, xl, yl));
  }

  lemma {:induction false} BitwiseZero(n: nat, x: nat)
    requires x < Pow2(n)
    ensures Bitwise(Or, n, x, 0) == x && Bitwise(Or, n, 0, x) == x
    ensures Bitwise(Xor, n, x, 0) == x && Bitwise(Xor, n, 0, x) == x
    ensures Bitwise(And, n, x, 0) == 0 && Bitwise(And, n, 0, x) == 0
  {
    if n > 0 {
      BitwiseZero(n - 1, x / 2);
    }
  }

  /** Numbers that have no bits in common are or-ed by adding them. */
  lemma OrDisjoint(n: nat, m: nat, high: nat, low: nat)
    requires high < Pow2(n) && low < Pow2(m)
    ensures Bitwise(Or, m + n, high * Pow2(m), low) == high * Pow2(m) + low
    ensures Bitwise(Or, m + n, low, high * Pow2(m)) == high * Pow2(m) + low
  {
    hide Bitwise, Pow2;
    BitwiseSplit(Or, n, m, high, 0, 0, low);
    BitwiseSplit(Or, n, m, 0, low, high, 0);
    assert 0 * Pow2(m) + low == low;
    BitwiseZero(n, high);
    BitwiseZero(m, low);
  }

  /** The two's complement reading of an n-bit number. */
  function Signed(n: nat, x: nat): int
    requires n > 0
  {
    if x < Pow2(n - 1) then x else x - Pow2(n)
  }
}
