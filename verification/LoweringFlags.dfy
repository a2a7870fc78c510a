/** What the lowered sequences do to the ARM flags, and which operations are not lowered.
 */
module LoweringFlags {
  import opened Ir
  import opened Arm
  import opened Machine
  import opened Encoding
  import opened Lowering
  import opened LoweringSteps

  /** Translate_ALU aborts exactly on a DSLL, DSRL or DSRA whose shift does not fit its field. */
  lemma LowerAborts(x: Ins)
    ensures Lower(x).None? <==>
      || (x.what.op == MipsDsll && (x.what.shift >= 32 || x.what.imm >= 32))
      || ((x.what.op == MipsDsrl || x.what.op == MipsDsra) && x.what.shift >= 32)
  {
    hide LowerDmult, LowerDmultu, LowerLogic, LowerTrapping, LowerWrapping, LowerDsll, LowerDsrl, LowerDsra;
    hide LowerDsll32, LowerDsrl32, LowerDsra32, LowerAndi, LowerImmediate;
  }

  ghost predicate IsQuiet(c: seq<Ins>) {
    forall i :: 0 <= i < |c| ==> !SetsFlags(c[i].what)
  }

  lemma QuietStep(x: Ins, s: State<Flags>)
    requires !SetsFlags(x.what)
    ensures Step(x, s).world == s.world
  {
    hide Sum, SumFlags, Operand2, LogicResult, LogicFlags, AdderInputs, Word, Holds;
  }

  lemma {:induction false} QuietKeepsFlags(c: seq<Ins>, s: State<Flags>)
    requires IsQuiet(c)
    ensures Exec(c, s).world == s.world
  {
    hide Execute;
    if c != [] {
      QuietStep(c[0], s);
      QuietKeepsFlags(c[1..], Step(c[0], s));
    }
  }

  /** The operations that are lowered without setting flags. */
  predicate IsQuietOperation(op: Opcode) {
    || op.MipsAnd? || op.MipsOr? || op.MipsXor? || op.MipsAndi? || op.MipsOri? || op.MipsXori? || op.MipsDmultu?
    || op.MipsDsll? || op.MipsDsrl? || op.MipsDsra? || op.MipsDsll32? || op.MipsDsrl32?
  }

  lemma QuietLogic(x: Ins, op: Opcode)
    requires op == ArmAnd || op == ArmOrr || op == ArmEor
    ensures IsQuiet(LowerLogic(x, op)) && IsQuiet(LowerImmediate(x, op))
  {
    hide Wide, Imm8Shift, Imm16, UpperByte, LowerByte;
  }

  lemma QuietAndi(x: Ins)
    ensures IsQuiet(LowerAndi(x))
  {
    hide Wide, Imm8Shift, Imm16, UpperByte, LowerByte;
  }

  lemma QuietShifts(x: Ins)
    requires x.what.shift <= 32
    ensures IsQuiet(LowerDsll(x)) && IsQuiet(LowerDsrl(x)) && IsQuiet(LowerDsra(x))
  {
    hide Wide;
  }

  lemma QuietWideShifts(x: Ins)
    ensures IsQuiet(LowerDsll32(x)) && IsQuiet(LowerDsrl32(x))
  {
    hide Wide;
  }

  lemma QuietAppend(c: seq<Ins>, d: seq<Ins>)
    requires IsQuiet(c) && IsQuiet(d)
    ensures IsQuiet(c + d)
  {
  }

  lemma QuietProducts()
    ensures IsQuiet(CrossProducts())
  {
    hide Wide;
  }

  lemma QuietDmultu(x: Ins)
    ensures IsQuiet(LowerDmultu(x))
  {
    hide Wide, CrossProducts;
    QuietProducts();
    var front := LowerDmultu(x)[..7];
    assert LowerDmultu(x) == front + CrossProducts();
    QuietAppend(front, CrossProducts());
  }

  lemma QuietLowering(x: Ins)
    requires IsQuietOperation(x.what.op) && Lower(x).Some?
    ensures IsQuiet(Lower(x).value)
  {
    hide IsQuiet, LowerLogic, LowerDsll, LowerDsrl, LowerDsra, LowerDsll32, LowerDsrl32, LowerAndi, LowerImmediate;
    hide LowerDmultu;
    match x.what.op
    case MipsDmultu => QuietDmultu(x);
    case MipsAnd => QuietLogic(x, ArmAnd);
    case MipsOr => QuietLogic(x, ArmOrr);
    case MipsXor => QuietLogic(x, ArmEor);
    case MipsAndi => QuietAndi(x);
    case MipsOri => QuietLogic(x, ArmOrr);
    case MipsXori => QuietLogic(x, ArmEor);
    case MipsDsll32 => QuietWideShifts(x);
    case MipsDsrl32 => QuietWideShifts(x);
    case _ => QuietShifts(x);
  }

  /** The lowered bitwise operations, shifts and DMULTU leave the flags as they were. */
  lemma FlagsAreKept(x: Ins, s: State<Flags>)
    requires IsQuietOperation(x.what.op) && Lower(x).Some?
    ensures Exec(Lower(x).value, s).world == s.world
  {
    hide Lower, IsQuietOperation;
    QuietLowering(x);
    QuietKeepsFlags(Lower(x).value, s);
  }
}
