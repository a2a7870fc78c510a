/** The main result about the lowering: for every modelled operation, all register numbers and
    all register contents, the emitted sequence leaves in the destination exactly what the MIPS
    operation computes, and it says precisely where the code falls short of that.
 */
module LoweringRefinement {
  import opened Ir
  import opened Bits
  import opened Machine
  import opened Arm
  import opened DoubleWords
  import opened Encoding
  import opened Lowering
  import opened LoweringSteps
  import opened LoweringCorrectness

  predicate IsShift(op: Opcode) {
    op.MipsDsll? || op.MipsDsrl? || op.MipsDsra? || op.MipsDsll32? || op.MipsDsrl32? || op.MipsDsra32?
  }

  predicate IsModelled(op: Opcode) {
    || IsShift(op) || op.MipsDaddu? || op.MipsDsubu? || op.MipsDadd? || op.MipsDsub?
    || op.MipsAnd? || op.MipsOr? || op.MipsXor? || op.MipsAndi? || op.MipsOri? || op.MipsXori?
  }

  /** MIPS IV Instruction Set, section A: the 64-bit result of the operation on the values a and
      b; a trapping operation that overflows leaves the old value of its destination. */
  function MipsResult(x: Ins, a: nat, b: nat, old': int): int {
    var p, imm := Pow2(x.what.shift), Imm16(x);
    match x.what.op
    case MipsDaddu => (a + b) % DOUBLE
    case MipsDsubu => (a - b) % DOUBLE
    case MipsDadd => if Fits64(Signed64(a) + Signed64(b)) then (a + b) % DOUBLE else old'
    case MipsDsub => if Fits64(Signed64(a) - Signed64(b)) then (a - b) % DOUBLE else old'
    case MipsAnd => Bitwise(And, 64, a, b)
    case MipsOr => Bitwise(Or, 64, a, b)
    case MipsXor => Bitwise(Xor, 64, a, b)
    case MipsAndi => Bitwise(And, 64, a, imm)
    case MipsOri => Bitwise(Or, 64, a, imm)
    case MipsXori => Bitwise(Xor, 64, a, imm)
    case MipsDsll => a * p % DOUBLE
    case MipsDsrl => a / p
    case MipsDsra => Signed64(a) / p % DOUBLE
    case MipsDsll32 => a * Pow2(x.what.shift + 32) % DOUBLE
    case MipsDsrl32 => a / Pow2(x.what.shift + 32)
    case MipsDsra32 => Signed64(a) / Pow2(x.what.shift + 32) % DOUBLE
    case _ => old'
  }

  /** Every constant shift fits the five-bit field of the encoding; the encoder aborts otherwise. */
  predicate Emittable(c: seq<Ins>) {
    forall i :: 0 <= i < |c| ==> c[i].what.isImm || c[i].what.shift < 32
  }

  /** What a caller can check: the high word of the source, the shift amount and whether source
      and destination coincide. */
  predicate IsExact(x: Ins, hi: nat)
    requires hi < WORD && x.what.shift < 32
  {
    match x.what.op
    case MipsDsra =>
      x.rd1 != x.r1 || Shifted(ArithmeticRight, x.what.shift, hi) % Pow2(x.what.shift) == hi % Pow2(x.what.shift)
    case MipsDsrl32 => x.what.shift != 0 || hi == 0
    case MipsDsra32 => x.what.shift != 0 || hi == 0 || hi == WORD - 1
    case _ => true
  }

  /** The 64-bit shifts by zero produce a shift by 32, which cannot be emitted. */
  lemma ZeroShiftIsNotEmitted(x: Ins)
    requires x.what.op.MipsDsll? || x.what.op.MipsDsrl? || x.what.op.MipsDsra?
    requires Lower(x).Some?
    ensures Emittable(Lower(x).value) <==> x.what.shift != 0
  {
    var c := Lower(x).value;
    if x.what.shift == 0 {
      assert c[if x.what.op.MipsDsll? then 3 else 2].what.shift == 32;
    }
  }

  lemma ShiftRefinesMips(x: Ins, s: State<Flags>)
    requires Decoded(x) && IsShift(x.what.op) && Words(s.regs)
    requires x.what.shift < 32 && Lower(x).Some? && Emittable(Lower(x).value)
    ensures
      var a, b, old' := Value(s.regs, x.r1), Value(s.regs, x.r2), Value(s.regs, x.rd1);
      Computes(x, s.regs, Exec(Lower(x).value, s).regs, MipsResult(x, a, b, old'))
      <==> IsExact(x, s.regs(Wide(x.r1)))
  {
    hide Computes, Exec, Pow2, Bitwise, Fits64, Signed64, Shifted, Words, Decoded, Emittable, Imm16, Value, Wide;
    hide LowerDsll, LowerDsrl, LowerDsra, LowerDsll32, LowerDsrl32, LowerDsra32;
    match x.what.op
    case MipsDsll => ZeroShiftIsNotEmitted(x); DsllIsCorrect(x, s);
    case MipsDsrl => ZeroShiftIsNotEmitted(x); DsrlIsCorrect(x, s);
    case MipsDsra => ZeroShiftIsNotEmitted(x); DsraIsCorrect(x, s);
    case MipsDsll32 => Dsll32IsCorrect(x, s);
    case MipsDsrl32 => Dsrl32IsCorrect(x, s);
    case MipsDsra32 => Dsra32IsCorrect(x, s);
  }

  /** The sequence leaves the MIPS result in the destination, and nothing else changed, if and only if the
      condition on the high word, the shift and the registers holds. */
  lemma LoweringRefinesMips(x: Ins, s: State<Flags>)
    requires Decoded(x) && IsModelled(x.what.op) && Words(s.regs)
    requires IsShift(x.what.op) || x.what.shift == 0
    requires x.what.shift < 32 && Lower(x).Some? && Emittable(Lower(x).value)
    ensures
      var a, b, old' := Value(s.regs, x.r1), Value(s.regs, x.r2), Value(s.regs, x.rd1);
      Computes(x, s.regs, Exec(Lower(x).value, s).regs, MipsResult(x, a, b, old'))
      <==> IsExact(x, s.regs(Wide(x.r1)))
  {
    hide Computes, Exec, Pow2, Bitwise, Fits64, Signed64, Shifted, Words, Decoded, Emittable, Imm16, Value, Wide;
    hide LowerLogic, LowerTrapping, LowerWrapping, LowerDsll, LowerDsrl, LowerDsra;
    hide LowerDsll32, LowerDsrl32, LowerDsra32, LowerAndi, LowerImmediate;
    match x.what.op
    case MipsDaddu => WrappingIsCorrect(x, ArmAdd, ArmAdc, s);
    case MipsDsubu => WrappingIsCorrect(x, ArmSub, ArmSbc, s);
    case MipsDadd => TrappingIsCorrect(x, ArmAdd, ArmAdc, s);
    case MipsDsub => TrappingIsCorrect(x, ArmSub, ArmSbc, s);
    case MipsAnd => LogicIsCorrect(x, And, s);
    case MipsOr => LogicIsCorrect(x, Or, s);
    case MipsXor => LogicIsCorrect(x, Xor, s);
    case MipsAndi => AndiIsCorrect(x, s);
    case MipsOri => ImmediateIsCorrect(x, Or, s);
    case MipsXori => ImmediateIsCorrect(x, Xor, s);
    case _ => ShiftRefinesMips(x, s);
  }

  /** DSRA r1, r1, 1 of 0x1_0000_0000: the bit that should reach the low word is lost. */
  lemma OverwrittenSourceIsNotExact()
    ensures
      var x := Blank(MipsDsra, AL).(rd1 := 1, r1 := 1, what := Blank(MipsDsra, AL).what.(shift := 1));
      !IsExact(x, 1)
  {
    var x := Blank(MipsDsra, AL).(rd1 := 1, r1 := 1, what := Blank(MipsDsra, AL).what.(shift := 1));
    Pow2Values();
    assert Pow2(1) == 2 * Pow2(0) && Pow2(0) == 1;
    assert Shifted(ArithmeticRight, 1, 1) == Word(Signed(32, 1) / 2) == 0;
  }

  /** Every immediate is one the operand encoding can express. */
  predicate ImmediatesFit(c: seq<Ins>) {
    forall i :: 0 <= i < |c| && c[i].what.isImm ==> EncodeImmediate(Word(c[i].what.imm)).Some?
  }

  lemma BytesFit(v: nat)
    requires v < 0x100
    ensures EncodeImmediate(v).Some? && EncodeImmediate(v * 0x100).Some?
  {
    hide EncodeImmediate;
    Pow2Zero();
    Pow2Values();
    AcceptedExactly(v);
    AcceptedExactly(v * 0x100);
    Quotient(v * 0x100, 0x100, v, 0);
    Quotient(v, 1, v, 0);
    assert IsShiftedByte(v, 0) && IsShiftedByte(v * 0x100, 4);
  }

  /** The lowering of a sixteen-bit logic operation takes one step whenever Imm8Shift finds a
      shift, but the encoder wants an even shift: exactly these immediates are refused later. */
  lemma LogicImmediatesFit(x: Ins)
    requires x.what.op.MipsAndi? || x.what.op.MipsOri? || x.what.op.MipsXori?
    ensures
      var v, i := Imm16(x), Imm8Shift(Imm16(x));
      ImmediatesFit(Lower(x).value) <==> v <= 0xff || i == -1 || i % 2 == 0 || v / Pow2(i) <= 127
  {
    hide EncodeImmediate, Imm8Shift, Pow2, ImmediatesFit, LowerAndi, LowerImmediate, Imm16;
    var v := Imm16(x);
    ImmediateBytes(x);
    FirstImmediate(x);
    ShiftIsNoLessThanMinusOne(v);
    if v > 0xff {
      AcceptedByShift(v);
    } else {
      BytesFit(v);
    }
  }

  /** In two steps everything fits; in one step what counts is the immediate itself. */
  lemma FirstImmediate(x: Ins)
    requires x.what.op.MipsAndi? || x.what.op.MipsOri? || x.what.op.MipsXori?
    ensures ImmediatesFit(Lower(x).value) <==> Imm8Shift(Imm16(x)) == -1 || EncodeImmediate(Imm16(x)).Some?
  {
    hide EncodeImmediate, Imm8Shift, Word, Imm16, UpperByte, LowerByte, LowerAndi, LowerImmediate;
    ImmediateBytes(x);
    WordOf(Imm16(x));
    WordOf(UpperByte(x));
    WordOf(LowerByte(x));
    WordOf(0);
    BytesFit(Imm16(x) / 0x100);
    BytesFit(LowerByte(x));
    BytesFit(0);
    if x.what.op.MipsAndi? {
      AndiImmediates(x);
    } else {
      OriImmediates(x, if x.what.op.MipsOri? then ArmOrr else ArmEor);
    }
  }

  lemma AndiImmediates(x: Ins)
    requires EncodeImmediate(Word(UpperByte(x))).Some? && EncodeImmediate(Word(LowerByte(x))).Some?
    requires EncodeImmediate(Word(0)).Some?
    ensures ImmediatesFit(LowerAndi(x)) <==> Imm8Shift(Imm16(x)) == -1 || EncodeImmediate(Word(Imm16(x))).Some?
  {
    hide EncodeImmediate, Imm8Shift, Word, Imm16, UpperByte, LowerByte;
    var c := LowerAndi(x);
    if Imm8Shift(Imm16(x)) != -1 {
      assert c[0].what.isImm && c[0].what.imm == Imm16(x);
    }
  }

  lemma OriImmediates(x: Ins, op: Opcode)
    requires op == ArmOrr || op == ArmEor
    requires EncodeImmediate(Word(UpperByte(x))).Some? && EncodeImmediate(Word(LowerByte(x))).Some?
    ensures ImmediatesFit(LowerImmediate(x, op)) <==> Imm8Shift(Imm16(x)) == -1 || EncodeImmediate(Word(Imm16(x))).Some?
  {
    hide EncodeImmediate, Imm8Shift, Word, Imm16, UpperByte, LowerByte;
    var c := LowerImmediate(x, op);
    if Imm8Shift(Imm16(x)) != -1 {
      assert c[0].what.isImm && c[0].what.imm == Imm16(x);
    }
  }

  lemma ShiftIsNoLessThanMinusOne(v: nat)
    ensures Imm8Shift(v) >= -1
  {
  }
}
