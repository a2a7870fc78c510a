/** 64-bit arithmetic on 32-bit halves: carries, signed overflow, shifts across the halves and
    bitwise operations.
 */
module DoubleWords {
  import opened Bits
  import opened Arm
  import opened Ir

  const DOUBLE: nat := WORD * WORD

  function Pair(hi: int, lo: int): int {
    hi * WORD + lo
  }

  /** The two's complement reading of a 64-bit number. */
  function Signed64(x: int): int {
    if x < DOUBLE / 2 then x else x - DOUBLE
  }

  predicate Fits64(v: int) {
    -(DOUBLE / 2) <= v < DOUBLE / 2
  }

  lemma Pow2Word(s: nat)
    requires s <= 32
    ensures Pow2(s) * Pow2(32 - s) == WORD
  {
    Pow2Values();
    Pow2Add(s, 32 - s);
  }

  lemma Modulus(x: int, d: nat, q: int, r: nat)
    requires r < d && x == q * d + r
    ensures x % d == r
  {
    Quotient(x, d, q, r);
  }

  // ---------------------------------------------------------------------------------------
  // Addition and subtraction

  lemma AddHalves(ah: nat, al: nat, bh: nat, bl: nat, c: bool)
    requires ah < WORD && al < WORD && bh < WORD && bl < WORD
    ensures Pair(Sum(ah, bh, SumFlags(al, bl, c).c), Sum(al, bl, c))
      == (Pair(ah, al) + Pair(bh, bl) + Carry(c)) % DOUBLE
  {
    hide Word;
    var low, carry := al + bl + Carry(c), SumFlags(al, bl, c).c;
    var high := ah + bh + Carry(carry);
    OneCarry(low);
    OneCarry(high);
    var over := if high >= WORD then 1 else 0;
    Modulus(Pair(ah, al) + Pair(bh, bl) + Carry(c), DOUBLE, over, Pair(Word(high), Word(low)));
  }

  lemma OneCarry(v: nat)
    requires v < 2 * WORD
    ensures Word(v) == if v >= WORD then v - WORD else v
  {
  }

  lemma SignedHalves(h: nat, l: nat)
    requires h < WORD && l < WORD
    ensures Signed64(Pair(h, l)) == Signed(32, h) * WORD + l == Pair(Signed(32, h), l)
    ensures Signed(32, h) == if h < 0x8000_0000 then h else h - WORD
  {
    Pow2Values();
  }

  /** The overflow flag of the upper addition is the signed overflow of the whole. */
  lemma OverflowOfHalves(ah: nat, al: nat, bh: nat, bl: nat, c: bool)
    requires ah < WORD && al < WORD && bh < WORD && bl < WORD
    ensures SumFlags(ah, bh, SumFlags(al, bl, c).c).v
      <==> !Fits64(Signed64(Pair(ah, al)) + Signed64(Pair(bh, bl)) + Carry(c))
  {
    SignedHalves(ah, al);
    SignedHalves(bh, bl);
  }

  lemma NotHalves(h: nat, l: nat)
    requires h < WORD && l < WORD
    ensures Pair(Not(h), Not(l)) == DOUBLE - 1 - Pair(h, l)
    ensures Signed64(Pair(Not(h), Not(l))) == -1 - Signed64(Pair(h, l))
  {
  }

  lemma SubtractByComplement(a: int, b: int)
    ensures (a + (DOUBLE - 1 - b) + 1) % DOUBLE == (a - b) % DOUBLE
  {
    Modulus(a - b, DOUBLE, (a - b) / DOUBLE, (a - b) % DOUBLE);
    Modulus(a - b + DOUBLE, DOUBLE, (a - b) / DOUBLE + 1, (a - b) % DOUBLE);
  }

  // ---------------------------------------------------------------------------------------
  // Shifts

  lemma ShiftLeftWord(v: nat, s: nat)
    requires v < WORD && s < 32
    ensures Shifted(LogicalLeft, s, v) == v % Pow2(32 - s) * Pow2(s) < WORD
  {
    hide Pow2;
    var p, q := Pow2(s), Pow2(32 - s);
    Pow2Word(s);
    DivMod(v, q);
    ScaleEquation(v, v / q, q, v % q, p, WORD);
    MulMonotone(v % q + 1, q, p);
    Modulus(v * p, WORD, v / q, v % q * p);
  }

  lemma ScaleEquation(v: int, k: int, q: int, r: int, p: int, w: int)
    requires v == k * q + r && p * q == w
    ensures v * p == k * w + r * p
  {
    assert (k * q + r) * p == k * q * p + r * p;
    assert k * q * p == k * (p * q);
  }

  lemma ShiftRightWord(v: nat, s: nat)
    requires v < WORD && 0 < s < 32
    ensures Shifted(LogicalRight, s, v) == v / Pow2(s) < Pow2(32 - s)
    ensures Pow2(32 - s) < WORD
  {
    var p, q := Pow2(s), Pow2(32 - s);
    Pow2Word(s);
    DivMod(v, p);
    if v / p >= q {
      MulMonotone(q, v / p, p);
    }
    Pow2AtLeastTwo(s);
    MulMonotone(2, p, q);
    WordOf32(v / p);
  }

  lemma WordOf32(v: nat)
    requires v < WORD
    ensures v % WORD == v
  {
  }

  lemma Pow2AtLeastTwo(s: nat)
    requires s > 0
    ensures Pow2(s) >= 2
  {
  }

  /** What DSLL puts in the two words is the shifted value. */
  lemma ShiftLeftHalves(hi: nat, lo: nat, s: nat)
    requires hi < WORD && lo < WORD && 0 < s < 32
    ensures
      var left, right := Shifted(LogicalLeft, s, hi), Shifted(LogicalRight, 32 - s, lo);
      Pair(Bitwise(Or, 32, left, right), Shifted(LogicalLeft, s, lo)) == Pair(hi, lo) * Pow2(s) % DOUBLE
  {
    hide Pow2, Shifted, Bitwise;
    var p, q := Pow2(s), Pow2(32 - s);
    Pow2Word(s);
    ShiftLeftWord(hi, s);
    ShiftLeftWord(lo, s);
    ShiftRightWord(lo, 32 - s);
    OrDisjoint(32 - s, s, hi % q, lo / q);
    DivMod(hi, q);
    DivMod(lo, q);
    ShiftLeftSum(hi, hi / q, hi % q, lo, lo / q, lo % q, p, q);
  }

  lemma ShiftLeftSum(hi: nat, hq: nat, hr: nat, lo: nat, lq: nat, lr: nat, p: nat, q: nat)
    requires p * q == WORD && hi == hq * q + hr && lo == lq * q + lr && hr < q && lr < q && lq < p
    ensures Pair(hr * p + lq, lr * p) == Pair(hi, lo) * p % DOUBLE
  {
    var (h, l) := (hr * p, lr * p);
    ScaleEquation(hi, hq, q, hr, p, WORD);
    ScaleEquation(lo, lq, q, lr, p, WORD);
    assert h + lq < WORD && l < WORD by {
      MulMonotone(hr + 1, q, p);
      MulMonotone(lr + 1, q, p);
    }
    ScaleWords(hi, lo, p);
    hide Pair;
    ShiftedWords(hi * p, lo * p, hq, h, lq, l);
  }

  lemma ScaleWords(hi: int, lo: int, p: int)
    ensures Pair(hi, lo) * p == hi * p * WORD + lo * p
  {
    assert hi * WORD * p == hi * p * WORD;
  }

  lemma ShiftedWords(a: int, b: int, hq: int, h: nat, lq: nat, l: nat)
    requires a == hq * WORD + h && b == lq * WORD + l && h + lq < WORD && l < WORD
    ensures (a * WORD + b) % DOUBLE == Pair(h + lq, l)
  {
    Modulus(a * WORD + b, DOUBLE, hq, Pair(h + lq, l));
  }

  /** The low word of a right shift: bits of the high word move in from above. */
  lemma ShiftRightLow(h: nat, lo: nat, s: nat)
    requires h < WORD && lo < WORD && 0 < s < 32
    ensures Bitwise(Or, 32, Shifted(LogicalRight, s, lo), Shifted(LogicalLeft, 32 - s, h))
      == h % Pow2(s) * Pow2(32 - s) + lo / Pow2(s)
  {
    ShiftRightWord(lo, s);
    ShiftLeftWord(h, 32 - s);
    OrDisjoint(s, 32 - s, h % Pow2(s), lo / Pow2(s));
  }

  /** Shift a (possibly negative) high word and the low word right together. */
  lemma ShiftRightSum(hi: int, lo: nat, s: nat)
    requires lo < WORD && s <= 32
    ensures Pair(hi, lo) / Pow2(s) == Pair(hi / Pow2(s), hi % Pow2(s) * Pow2(32 - s) + lo / Pow2(s))
  {
    var p, q := Pow2(s), Pow2(32 - s);
    Pow2Word(s);
    DivMod(hi, p);
    DivMod(lo, p);
    var k := Pair(hi / p, hi % p * q + lo / p);
    ShiftRightEquation(hi, hi / p, hi % p, lo, lo / p, lo % p, p, q);
    Quotient(Pair(hi, lo), p, k, lo % p);
  }

  lemma ShiftRightEquation(hi: int, hq: int, hr: int, lo: int, lq: int, lr: int, p: nat, q: nat)
    requires p * q == WORD && hi == hq * p + hr && lo == lq * p + lr
    ensures Pair(hi, lo) == Pair(hq, hr * q + lq) * p + lr
  {
    assert Pair(hq, hr * q + lq) * p == hq * WORD * p + hr * q * p + lq * p;
    assert hr * q * p == hr * (p * q);
    assert hq * WORD * p + hr * WORD == (hq * p + hr) * WORD;
  }

  /** Reducing the high part modulo a word reduces the pair modulo a double word. */
  lemma PairModulus(hi: int, lo: nat)
    requires lo < WORD
    ensures Pair(hi, lo) % DOUBLE == Pair(Word(hi), lo)
  {
    DivMod(hi, WORD);
    Modulus(Pair(hi, lo), DOUBLE, hi / WORD, Pair(Word(hi), lo));
  }

  /** The low bits of a number do not depend on the signed reading. */
  lemma SignedRemainder(h: nat, s: nat)
    requires h < WORD && s <= 32
    ensures Signed(32, h) % Pow2(s) == h % Pow2(s)
  {
    hide Pow2;
    var p, q := Pow2(s), Pow2(32 - s);
    Pow2Values();
    Pow2Word(s);
    DivMod(h, p);
    if h >= 0x8000_0000 {
      assert (h / p - q) * p == h / p * p - p * q;
      Modulus(h - WORD, p, h / p - q, h % p);
    }
  }

  // ---------------------------------------------------------------------------------------
  // Bitwise operations

  lemma BitwiseHalves(op: BitOp, ah: nat, al: nat, bh: nat, bl: nat)
    requires al < WORD && bl < WORD
    ensures Pair(Bitwise(op, 32, ah, bh), Bitwise(op, 32, al, bl)) == Bitwise(op, 64, Pair(ah, al), Pair(bh, bl))
  {
    hide Bitwise;
    Pow2Values();
    BitwiseSplit(op, 32, 32, ah, al, bh, bl);
  }

  lemma Bytes(op: BitOp, al: nat, bh: nat, bl: nat)
    requires bl < 0x100
    ensures Bitwise(op, 32, al, bh * 0x100 + bl) == Bitwise(op, 24, al / 0x100, bh) * 0x100
      + Bitwise(op, 8, al % 0x100, bl)
  {
    hide Bitwise;
    Pow2Values();
    DivMod(al, 0x100);
    BitwiseSplit(op, 24, 8, al / 0x100, al % 0x100, bh, bl);
  }

  /** An immediate in two steps: the two masked parts put together. */
  lemma AndBytes(al: nat, bh: nat, bl: nat)
    requires al < WORD && bh < 0x100 && bl < 0x100
    ensures Bitwise(Or, 32, Bitwise(And, 32, al, bl), Bitwise(And, 32, al, bh * 0x100))
      == Bitwise(And, 32, al, bh * 0x100 + bl)
  {
    hide Bitwise;
    var h, l := al / 0x100, al % 0x100;
    Pow2Values();
    Bytes(And, al, bh, 0);
    Bytes(And, al, 0, bl);
    Bytes(And, al, bh, bl);
    BitwiseZero(24, h);
    BitwiseZero(8, l);
    OrDisjoint(24, 8, Bitwise(And, 24, h, bh), Bitwise(And, 8, l, bl));
  }

  /** Or and exclusive or with the upper byte, then with the lower one. */
  lemma OrBytes(op: BitOp, al: nat, bh: nat, bl: nat)
    requires op != And && al < WORD && bh < 0x100 && bl < 0x100
    ensures Bitwise(op, 32, Bitwise(op, 32, al, bh * 0x100), bl) == Bitwise(op, 32, al, bh * 0x100 + bl)
  {
    hide Bitwise;
    var h, l := al / 0x100, al % 0x100;
    Pow2Values();
    Bytes(op, al, bh, 0);
    Bytes(op, al, bh, bl);
    BitwiseZero(8, l);
    var first := Bitwise(op, 24, h, bh) * 0x100 + l;
    Quotient(first, 0x100, Bitwise(op, 24, h, bh), l);
    Bytes(op, first, 0, bl);
    BitwiseZero(24, Bitwise(op, 24, h, bh));
  }
}
