/** ARM immediates and branch displacements: the encoder's arithmetic and the disassembler's in
    the same file undo each other (ARM Architecture Reference Manual DDI 0406C, sections A5.2.4
    and A8.8.18).
 */
module Encoding {
  import opened Ir
  import opened Bits

  // ---------------------------------------------------------------------------------------
  // Immediates

  /** The number of trailing zero bits of a positive number. */
  function TrailingZeros(val: nat): (i: nat)
    requires val > 0
    ensures val % Pow2(i) == 0
    ensures (val / Pow2(i)) % 2 == 1
  {
    if val % 2 == 1 then 0
    else
      var i := TrailingZeros(val / 2);
      HalfDivides(val, i);
      i + 1
  }

  lemma HalfDivides(val: nat, i: nat)
    requires val % 2 == 0
    ensures val / Pow2(i + 1) == val / 2 / Pow2(i)
    ensures val / 2 % Pow2(i) == 0 ==> val % Pow2(i + 1) == 0
  {
    var p, q, r := Pow2(i), val / 2 / Pow2(i), val / 2 % Pow2(i);
    assert val == 2 * (q * p + r) == q * (2 * p) + 2 * r;
    Quotient(val, 2 * p, q, 2 * r);
  }

  /** Imm8Shift: how far val must be shifted right to fit eight bits, or -1. */
  function Imm8Shift(val: nat): int {
    if val < 0x100 then 0
    else
      var i := TrailingZeros(val);
      if val / Pow2(i) < 0x100 then i else -1
  }

  method ComputeImm8Shift(val: nat) returns (shift: int)
    ensures shift == Imm8Shift(val)
  {
    if val < 0x100 {
      return 0;
    }
    var v, i := val, 0;
    assert val / Pow2(0) == val;
    while v % 2 == 0
      invariant v > 0 && v == val / Pow2(i)
      invariant TrailingZeros(val) == i + TrailingZeros(v)
      decreases v
    {
      HalfStep(val, i);
      v := v / 2;
      i := i + 1;
    }
    shift := if v < 0x100 then i else -1;
  }

  lemma HalfStep(val: nat, i: nat)
    ensures val / Pow2(i) / 2 == val / Pow2(i + 1)
  {
    hide Pow2;
    PowStep(i);
    var p, q, r := Pow2(i), val / Pow2(i), val % Pow2(i);
    DivMod(val, p);
    assert (q / 2) * (2 * p) + ((q % 2) * p + r) == (2 * (q / 2) + q % 2) * p + r;
    MulMonotone(q % 2, 1, p);
    Quotient(val, 2 * p, q / 2, (q % 2) * p + r);
  }

  /** How many bit pairs ALU_OP2 shifts out of an immediate above 255: the first of the sixteen
      pairs that is not zero. */
  function FirstPair(v: nat): (x: nat)
    requires v > 0
  {
    TrailingZeros(v) / 2
  }

  /** A logical right shift. */
  function Shr(v: nat, n: nat): (q: nat) {
    var p := Pow2(n);
    DivMod(v, p);
    v / p
  }

  /** The twelve-bit operand field ALU_OP2 makes of an immediate when the instruction's own
      rotation is zero; nothing where it aborts. */
  function EncodeImmediate(v: nat): Option<nat> {
    if v <= 0xff then Some(v)
    else
      var x := FirstPair(v);
      var imm := Shr(v, 2 * x);
      if x >= 16 || imm >= 0x100 then None else Some((16 - x) % 16 * 0x100 + imm)
  }

  /** The value the disassembler reads in an operand field. */
  function DecodeImmediate(word: nat): (v: nat)
    ensures v < WORD
  {
    var field, b := word / 0x100 % 16, word % 0x100;
    Pow2Values();
    if field == 0 then b
    else
      var ror := 2 * field;
      Bitwise(Or, 32, b * Pow2(32 - ror) % WORD, Shr(b, ror))
  }

  /** v is a byte shifted left by k bit pairs. */
  predicate IsShiftedByte(v: nat, k: nat) {
    v % Pow2(2 * k) == 0 && Shr(v, 2 * k) < 0x100
  }

  lemma PowStep(i: nat)
    ensures Pow2(i + 1) == 2 * Pow2(i) && Pow2(i + 2) == 4 * Pow2(i)
  {
  }

  lemma {:induction false} Pow2Monotone(a: nat, b: nat)
    requires a <= b
    ensures Pow2(a) <= Pow2(b)
  {
    if a < b {
      Pow2Monotone(a, b - 1);
      PowStep(b - 1);
    }
  }

  /** The trailing zeros are exactly the powers of two that divide. */
  lemma {:induction false} TrailingZerosLargest(v: nat, i: nat)
    requires v > 0
    ensures v % Pow2(i) == 0 <==> i <= TrailingZeros(v)
  {
    if i == 0 {
    } else if v % 2 == 1 {
      OddIsNoMultiple(v, i);
    } else {
      hide Pow2;
      HalfDivides(v, i - 1);
      TrailingZerosLargest(v / 2, i - 1);
      if v % Pow2(i) == 0 {
        HalvedMultiple(v, i - 1);
      }
    }
  }

  lemma OddIsNoMultiple(v: nat, i: nat)
    requires v % 2 == 1 && i > 0
    ensures v % Pow2(i) != 0
  {
    var q, p := v / Pow2(i), Pow2(i - 1);
    PowStep(i - 1);
    DivMod(v, Pow2(i));
    assert q * (2 * p) == 2 * (q * p);
  }

  lemma HalvedMultiple(v: nat, i: nat)
    requires v % 2 == 0 && v % Pow2(i + 1) == 0
    ensures v / 2 % Pow2(i) == 0
  {
    var q := v / Pow2(i + 1);
    DivMod(v, Pow2(i + 1));
    assert v / 2 == q * Pow2(i);
    Quotient(v / 2, Pow2(i), q, 0);
  }

  /** Dropping the zero pairs leaves the odd part, or twice it. */
  lemma PairQuotient(v: nat)
    requires v > 0
    ensures
      var t, x := TrailingZeros(v), FirstPair(v);
      && v % Pow2(2 * x) == 0
      && v / Pow2(2 * x) == if t % 2 == 0 then v / Pow2(t) else 2 * (v / Pow2(t))
  {
    hide Pow2;
    var t, x := TrailingZeros(v), FirstPair(v);
    TrailingZerosLargest(v, 2 * x);
    if t % 2 == 1 {
      var q, p := v / Pow2(t), Pow2(2 * x);
      PowStep(2 * x);
      DivMod(v, Pow2(t));
      assert v == q * (2 * p) == 2 * q * p;
      Quotient(v, p, 2 * q, 0);
    }
  }

  /** What is accepted, in terms of Imm8Shift: an even shift, or an odd one with a bit to spare. */
  lemma AcceptedByShift(v: nat)
    requires 0xff < v < WORD
    ensures
      var i := Imm8Shift(v);
      EncodeImmediate(v).Some? <==> i >= 0 && (i % 2 == 0 || v / Pow2(i) <= 127)
  {
    PairQuotient(v);
    SmallPair(v);
  }

  /** A 32-bit number has a non-zero pair among its sixteen. */
  lemma SmallPair(v: nat)
    requires 0 < v < WORD
    ensures FirstPair(v) < 16
  {
    var t := TrailingZeros(v);
    if t >= 32 {
      hide Pow2;
      Pow2Values();
      Pow2Monotone(32, t);
      Quotient(v, Pow2(t), 0, v);
    }
  }

  /** The accepted numbers are exactly the bytes shifted left by an even number of bits. */
  lemma AcceptedExactly(v: nat)
    requires v < WORD
    ensures EncodeImmediate(v).Some? <==> exists k :: 0 <= k < 16 && IsShiftedByte(v, k)
  {
    hide Pow2;
    if v <= 0xff {
      Pow2Zero();
      Quotient(v, 1, v, 0);
      assert IsShiftedByte(v, 0);
    } else {
      hide Shr;
      PairQuotient(v);
      SmallPair(v);
      if EncodeImmediate(v).Some? {
        assert IsShiftedByte(v, FirstPair(v));
      }
      if k :| 0 <= k < 16 && IsShiftedByte(v, k) {
        ShiftedByteIsAccepted(v, k);
      }
    }
  }

  lemma ShiftedByteIsAccepted(v: nat, k: nat)
    requires 0xff < v < WORD && IsShiftedByte(v, k)
    ensures EncodeImmediate(v).Some?
  {
    hide Pow2, Shr;
    SmallPair(v);
    TrailingZerosLargest(v, 2 * k);
    SmallerQuotient(v, 2 * k, 2 * FirstPair(v));
  }

  lemma SmallerQuotient(v: nat, a: nat, b: nat)
    requires a <= b
    ensures Shr(v, b) <= Shr(v, a)
  {
    var p, q := v / Pow2(a), v / Pow2(b);
    Pow2Monotone(a, b);
    DivMod(v, Pow2(a));
    DivMod(v, Pow2(b));
    if q > p {
      MulMonotone(p + 1, q, Pow2(a));
      MulMonotone(Pow2(a), Pow2(b), q);
    }
  }

  /** Encoding and decoding give the immediate back. */
  lemma ImmediateRoundTrip(v: nat)
    requires v < WORD && EncodeImmediate(v).Some?
    ensures EncodeImmediate(v).value < 0x1000 && DecodeImmediate(EncodeImmediate(v).value) == v
  {
    hide Pow2, DecodeImmediate, EncodeImmediate;
    var word := EncodeImmediate(v).value;
    if v <= 0xff {
      SmallIsItself(v);
      DecodeSmall(v);
    } else {
      var x := FirstPair(v);
      AcceptedParts(v);
      if x == 0 {
        Pow2Zero();
      } else {
        DecodeField(v, Shr(v, 2 * x), x);
      }
    }
  }

  lemma SmallIsItself(v: nat)
    requires v <= 0xff
    ensures EncodeImmediate(v) == Some(v)
  {
  }

  lemma AcceptedParts(v: nat)
    requires 0xff < v < WORD && EncodeImmediate(v).Some?
    ensures
      var x := FirstPair(v);
      var imm := Shr(v, 2 * x);
      x < 16 && imm < 0x100 && v == imm * Pow2(2 * x) && EncodeImmediate(v).value == (16 - x) % 16 * 0x100 + imm
  {
    hide Pow2;
    PairQuotient(v);
    ShrOfMultiple(v, 2 * FirstPair(v));
  }

  lemma DecodeSmall(v: nat)
    requires v < 0x100
    ensures DecodeImmediate(v) == v
  {
    hide Pow2, Bitwise, Shr;
    Quotient(v, 0x100, 0, v);
  }

  lemma ShrOfMultiple(v: nat, n: nat)
    requires v % Pow2(n) == 0
    ensures v == Shr(v, n) * Pow2(n)
  {
    DivMod(v, Pow2(n));
  }

  lemma DecodeField(v: nat, imm: nat, x: nat)
    requires 0 < x < 16 && imm < 0x100 && v == imm * Pow2(2 * x) && v < WORD
    ensures DecodeImmediate((16 - x) * 0x100 + imm) == v
  {
    hide Pow2, Bitwise, DecodeImmediate;
    DecodeRotated(16 - x, imm);
    assert 32 - 2 * (16 - x) == 2 * x && 2 * (16 - x) == 32 - 2 * x;
    NothingRotatesBelow(v, imm, 2 * x);
    Quotient(v, WORD, 0, v);
    Pow2Values();
    BitwiseZero(32, v);
  }

  lemma DecodeRotated(field: nat, imm: nat)
    requires 0 < field < 16 && imm < 0x100
    ensures DecodeImmediate(field * 0x100 + imm) ==
      Bitwise(Or, 32, imm * Pow2(32 - 2 * field) % WORD, Shr(imm, 2 * field))
  {
    hide Pow2, Bitwise;
    FieldParts(field, imm);
  }

  lemma Pow2Zero()
    ensures Pow2(0) == 1
  {
  }

  lemma FieldParts(field: nat, imm: nat)
    requires 0 < field < 16 && imm < 0x100
    ensures (field * 0x100 + imm) / 0x100 % 16 == field && (field * 0x100 + imm) % 0x100 == imm
  {
  }

  /** The bits that leave the word on the right are zero. */
  lemma NothingRotatesBelow(v: nat, imm: nat, n: nat)
    requires v < WORD && 0 < n < 32 && v == imm * Pow2(n)
    ensures Shr(imm, 32 - n) == 0
  {
    hide Pow2;
    var p := Pow2(32 - n);
    Pow2Values();
    Pow2Add(32 - n, n);
    DivMod(imm, p);
    if imm / p > 0 {
      MulMonotone(1, imm / p, p);
      MulMonotone(p, imm, Pow2(n));
    }
  }

  /** The search of ALU_OP2 for the first pair that is not zero. */
  method AluOp2(v: nat) returns (r: Option<nat>)
    requires v < WORD
    ensures r == EncodeImmediate(v)
  {
    hide Pow2, Shr;
    var imm, rotate := v, 0;
    if v > 0xff {
      var x := 0;
      SmallPair(v);
      while x < 16
        invariant x <= FirstPair(v) && imm == v && rotate == 0
        decreases 16 - x
      {
        NextPair(v, x);
        if Shr(v, 2 * x) % 4 != 0 {
          imm := Shr(v, 2 * x);
          rotate := x;
          break;
        }
        x := x + 1;
      }
    }
    if rotate >= 16 || imm >= 0x100 {
      return None;
    }
    return Some((16 - rotate) % 16 * 0x100 + imm);
  }

  lemma TwiceOdd(q: int)
    requires q % 2 == 1
    ensures 2 * q % 4 == 2
  {
  }

  lemma ZeroPair(v: nat, n: nat)
    requires v % Pow2(n + 2) == 0
    ensures Shr(v, n) % 4 == 0
  {
    hide Pow2;
    var q, p := v / Pow2(n + 2), Pow2(n);
    PowStep(n);
    DivMod(v, Pow2(n + 2));
    assert v == q * (4 * p) == 4 * q * p;
    Quotient(v, p, 4 * q, 0);
  }

  /** The pairs below the first non-zero one are zero and it is not. */
  lemma NextPair(v: nat, x: nat)
    requires v > 0 && x <= FirstPair(v)
    ensures Shr(v, 2 * x) % 4 != 0 <==> x == FirstPair(v)
  {
    hide Pow2;
    if x < FirstPair(v) {
      TrailingZerosLargest(v, 2 * x + 2);
      ZeroPair(v, 2 * x);
    } else {
      OddPair(v);
    }
  }

  lemma OddPair(v: nat)
    requires v > 0
    ensures Shr(v, 2 * FirstPair(v)) % 4 != 0
  {
    hide Pow2;
    var t := TrailingZeros(v);
    PairQuotient(v);
    if t % 2 == 1 {
      TwiceOdd(v / Pow2(t));
    }
  }

  /** Of the fields a constant can be written with, the encoder takes the one that is shifted furthest: its
      byte does not end in a zero bit pair. */
  lemma FieldIsReduced(v: nat)
    requires 0xff < v < WORD && EncodeImmediate(v).Some?
    ensures EncodeImmediate(v).value % 4 != 0
  {
    hide EncodeImmediate, Shr, FirstPair;
    AcceptedParts(v);
    OddPair(v);
    MultipleOfFour((16 - FirstPair(v)) % 16, Shr(v, 2 * FirstPair(v)));
  }

  lemma MultipleOfFour(a: nat, b: nat)
    ensures (a * 0x100 + b) % 4 == b % 4
  {
  }

  // ---------------------------------------------------------------------------------------
  // Branch displacements

  /** Sixteen million words: the range of the displacement field. */
  const FIELD: nat := 0x100_0000

  /** The 24-bit field for an absolute target, with the encoder's unsigned division. */
  function EncodeBranch(addr: nat, target: nat): (f: nat)
    ensures f < FIELD
  {
    ((target - addr) % WORD / 4 - 2) % FIELD
  }

  /** The field for a displacement counted in instructions. */
  function EncodeRelative(offset: int): (f: nat)
    ensures f < FIELD
  {
    (offset - 2) % FIELD
  }

  /** The address the disassembler reads in a branch at addr. */
  function DecodeBranch(addr: nat, field: nat): nat {
    (addr + 8 + 4 * SignedField(field)) % WORD
  }

  /** The distance from addr to target read as a signed 32-bit number. */
  function Distance(addr: nat, target: nat): int {
    var d := (target - addr) % WORD;
    if d < WORD / 2 then d else d - WORD
  }

  /** The round trip gives the target exactly for whole words within the reach of the field. */
  lemma BranchRoundTrip(addr: nat, target: nat)
    requires addr < WORD && target < WORD
    ensures
      var d := Distance(addr, target);
      DecodeBranch(addr, EncodeBranch(addr, target)) == target
      <==> d % 4 == 0 && -0x200_0000 + 8 <= d <= 0x200_0000 + 4
  {
    hide EncodeBranch, Distance, SignedField;
    var d := Distance(addr, target);
    DistanceLeads(addr, target);
    FieldOfDistance(addr, target);
    FieldReach(d / 4 - 2);
    SameAddress(addr, 8 + 4 * SignedField((d / 4 - 2) % FIELD), d);
  }

  lemma DistanceLeads(addr: nat, target: nat)
    requires addr < WORD && target < WORD
    ensures -0x8000_0000 <= Distance(addr, target) < 0x8000_0000
    ensures (addr + Distance(addr, target)) % WORD == target
  {
    var turns := (target - addr - Distance(addr, target)) / WORD;
    DivMod(target - addr, WORD);
    Quotient(addr + Distance(addr, target), WORD, -turns, target);
  }

  /** The unsigned word count and the signed one differ by a multiple of 2^30. */
  lemma FieldOfDistance(addr: nat, target: nat)
    requires addr < WORD && target < WORD
    ensures EncodeBranch(addr, target) == (Distance(addr, target) / 4 - 2) % FIELD
  {
    var d := Distance(addr, target);
    SameField(d / 4 - 2, if d >= 0 then 0 else 0x40);
  }

  function SignedField(field: nat): int {
    if field < FIELD / 2 then field else field - FIELD
  }

  /** The thirty bits of an unsigned word count and the signed count have the same low 24. */
  lemma SameField(k: int, turns: int)
    ensures (k + turns * FIELD) % FIELD == k % FIELD
  {
    DivMod(k, FIELD);
    Quotient(k + turns * FIELD, FIELD, k / FIELD + turns, k % FIELD);
  }

  lemma FieldReach(k: int)
    ensures SignedField(k % FIELD) == k <==> -0x80_0000 <= k < 0x80_0000
    ensures -0x80_0000 <= SignedField(k % FIELD) < 0x80_0000
  {
  }

  /** Addresses wrap at 2^32. */
  lemma SameAddress(addr: int, d: int, e: int)
    requires d - e < WORD && e - d < WORD
    ensures (addr + d) % WORD == (addr + e) % WORD <==> d == e
  {
    var k := (addr + d) / WORD - (addr + e) / WORD;
    DivMod(addr + d, WORD);
    DivMod(addr + e, WORD);
  }

  /** A displacement in instructions leads that many instructions away. */
  lemma RelativeRoundTrip(addr: nat, offset: int)
    requires addr < WORD && -0x1000_0000 <= offset < 0x1000_0000
    ensures DecodeBranch(addr, EncodeRelative(offset)) == (addr + 4 * offset) % WORD
      <==> -0x80_0000 + 2 <= offset <= 0x80_0000 + 1
  {
  }
}
