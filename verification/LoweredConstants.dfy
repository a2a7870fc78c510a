/** The constants in lowered code: the encoder refuses a program exactly for the ANDI, ORI and XORI
    constants that Translate_ALU takes for shifted bytes and the encoding does not.
 */
module LoweredConstants {
  import opened Ir
  import opened Bits
  import opened Arm
  import opened Encoding
  import opened Lowering
  import opened LoweringRefinement
  import opened LoweringRuns

  predicate IsLogicImmediate(op: Opcode) {
    op.MipsAndi? || op.MipsOri? || op.MipsXori?
  }

  /** The constant of an ANDI, ORI or XORI is one the encoder accepts, or takes two steps. */
  predicate HasFittingImmediate(x: Ins) {
    var (v, i) := (Imm16(x), Imm8Shift(Imm16(x)));
    v <= 0xff || i == -1 || i % 2 == 0 || v / Pow2(i) <= 127
  }

  lemma ZeroFits()
    ensures EncodeImmediate(Word(0)) == Some(0)
  {
  }

  predicate OnlyZeros(c: seq<Ins>) {
    forall i :: 0 <= i < |c| && c[i].what.isImm ==> c[i].what.imm == 0
  }

  lemma ZerosTogether(c: seq<Ins>, d: seq<Ins>)
    requires OnlyZeros(c) && OnlyZeros(d)
    ensures OnlyZeros(c + d)
  {
  }

  lemma DmultHasZeros(x: Ins)
    ensures OnlyZeros(LowerDmult(x))
  {
    hide OnlyZeros;
    var first := InstrI(x, ArmCmp, AL, REG_NOT_USED, Wide(x.r1), REG_NOT_USED, 0);
    var second := NewI(ArmCmp, AL, REG_NOT_USED, Wide(x.r2), REG_NOT_USED, 0);
    MagnitudeHasZeros(first, x.r1, REG_HOST_R0, REG_HOST_R1);
    MagnitudeHasZeros(second, x.r2, REG_HOST_R2, REG_HOST_R3);
    var (a, b, e) := (Magnitude(first, x.r1, REG_HOST_R0, REG_HOST_R1),
                      Magnitude(second, x.r2, REG_HOST_R2, REG_HOST_R3),
                      FixSign(x.r1, x.r2));
    var n := [ Multiply(ArmUmull, Wide(REG_MULTLO), REG_MULTLO, REG_HOST_R0, REG_HOST_R2),
               NewI(ArmMov, AL, REG_MULTHI, REG_NOT_USED, REG_NOT_USED, 0),
               NewI(ArmMov, AL, Wide(REG_MULTHI), REG_NOT_USED, REG_NOT_USED, 0) ];
    ZerosInParts(n, x.r1, x.r2);
    ZerosTogether(a, b);
    ZerosTogether(a + b, n);
    ZerosTogether(a + b + n, CrossProducts());
    ZerosTogether(a + b + n + CrossProducts(), e);
  }

  lemma MagnitudeHasZeros(first: Ins, r: Reg, lo: Reg, hi: Reg)
    requires first.what.isImm ==> first.what.imm == 0
    ensures OnlyZeros(Magnitude(first, r, lo, hi))
  {
  }

  lemma ZerosInParts(n: seq<Ins>, r1: Reg, r2: Reg)
    requires n == [ Multiply(ArmUmull, Wide(REG_MULTLO), REG_MULTLO, REG_HOST_R0, REG_HOST_R2),
                    NewI(ArmMov, AL, REG_MULTHI, REG_NOT_USED, REG_NOT_USED, 0),
                    NewI(ArmMov, AL, Wide(REG_MULTHI), REG_NOT_USED, REG_NOT_USED, 0) ]
    ensures OnlyZeros(n) && OnlyZeros(CrossProducts()) && OnlyZeros(FixSign(r1, r2))
  {
  }

  lemma DmultuHasZeros(x: Ins)
    ensures OnlyZeros(LowerDmultu(x))
  {
    hide Wide;
  }

  lemma ShiftsHaveZeros(x: Ins)
    requires x.what.shift <= 32
    ensures OnlyZeros(LowerDsll(x)) && OnlyZeros(LowerDsrl(x)) && OnlyZeros(LowerDsra(x))
  {
    hide Wide;
    var (a, b, c) := (LowerDsll(x), LowerDsrl(x), LowerDsra(x));
    assert !a[0].what.isImm && !a[1].what.isImm && !a[2].what.isImm && !a[3].what.isImm;
    assert !b[0].what.isImm && !b[1].what.isImm && !b[2].what.isImm && !b[3].what.isImm;
    assert !c[0].what.isImm && !c[1].what.isImm && !c[2].what.isImm;
  }

  lemma LongShiftsHaveZeros(x: Ins)
    ensures OnlyZeros(LowerDsll32(x)) && OnlyZeros(LowerDsrl32(x)) && OnlyZeros(LowerDsra32(x))
  {
    hide Wide;
    var (a, b, c) := (LowerDsll32(x), LowerDsrl32(x), LowerDsra32(x));
    assert !a[0].what.isImm && a[1].what.imm == 0;
    assert !b[0].what.isImm && b[1].what.imm == 0;
    assert !c[0].what.isImm && c[1].what.imm == 0 && c[2].what.imm == 0;
  }

  lemma AddersHaveZeros(x: Ins)
    ensures OnlyZeros(LowerTrapping(x, ArmAdd, ArmAdc)) && OnlyZeros(LowerTrapping(x, ArmSub, ArmSbc))
    ensures OnlyZeros(LowerWrapping(x, ArmAdd, ArmAdc)) && OnlyZeros(LowerWrapping(x, ArmSub, ArmSbc))
    ensures OnlyZeros(LowerLogic(x, ArmAnd)) && OnlyZeros(LowerLogic(x, ArmOrr)) && OnlyZeros(LowerLogic(x, ArmEor))
  {
  }

  lemma ZerosFit(c: seq<Ins>)
    requires OnlyZeros(c)
    ensures ImmediatesFit(c)
  {
    hide EncodeImmediate;
    ZeroFits();
  }

  lemma OtherImmediatesFit(x: Ins)
    requires Supported(x) && !IsLogicImmediate(x.what.op)
    ensures ImmediatesFit(Lower(x).value)
  {
    hide OnlyZeros, ImmediatesFit, LowerDmult, LowerDmultu, LowerTrapping, LowerWrapping, LowerLogic;
    hide LowerDsll, LowerDsrl, LowerDsra, LowerDsll32, LowerDsrl32, LowerDsra32;
    DmultHasZeros(x);
    DmultuHasZeros(x);
    ShiftsHaveZeros(x);
    LongShiftsHaveZeros(x);
    AddersHaveZeros(x);
    ZerosFit(Lower(x).value);
  }

  lemma FitTogether(c: seq<Ins>, d: seq<Ins>)
    ensures ImmediatesFit(c + d) <==> ImmediatesFit(c) && ImmediatesFit(d)
  {
    hide EncodeImmediate;
    if ImmediatesFit(c + d) {
      assert forall i :: 0 <= i < |c| ==> (c + d)[i] == c[i];
      assert forall i :: 0 <= i < |d| ==> (c + d)[|c| + i] == d[i];
    }
  }

  /** The encoder accepts every constant of the lowered program exactly when those of its ANDI, ORI
      and XORI instructions are fitting. */
  lemma {:induction false} ProgramImmediatesFit(c: seq<Ins>)
    requires forall i :: 0 <= i < |c| ==> Supported(c[i])
    ensures LowerAll(c).Some?
    ensures ImmediatesFit(LowerAll(c).value) <==>
      forall i :: 0 <= i < |c| && IsLogicImmediate(c[i].what.op) ==> HasFittingImmediate(c[i])
  {
    if c != [] {
      hide Lower, Supported, HasFittingImmediate, ImmediatesFit;
      var x := c[0];
      assert Supported(x);
      ProgramImmediatesFit(c[1..]);
      FirstImmediatesFit(x);
      FitTogether(Lower(x).value, LowerAll(c[1..]).value);
      assert forall i :: 1 <= i < |c| ==> c[i] == c[1..][i - 1];
    }
  }

  lemma FirstImmediatesFit(x: Ins)
    requires Supported(x)
    ensures Lower(x).Some? &&
      (ImmediatesFit(Lower(x).value) <==> IsLogicImmediate(x.what.op) ==> HasFittingImmediate(x))
  {
    hide Lower, ImmediatesFit, Supported;
    if IsLogicImmediate(x.what.op) {
      LogicImmediatesFit(x);
    } else {
      OtherImmediatesFit(x);
    }
    SupportedIsLowered(x);
  }

  lemma SupportedIsLowered(x: Ins)
    requires Supported(x)
    ensures Lower(x).Some?
  {
  }
}
