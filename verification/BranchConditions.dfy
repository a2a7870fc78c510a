/** The comparisons Translate_Branch makes for a conditional branch, and exactly when the ARM
    condition after them is the MIPS condition on the 64-bit registers.
 */
module BranchConditions {
  import opened Ir
  import opened Bits
  import opened Arm
  import opened Machine
  import opened DoubleWords
  import opened Lowering
  import opened LoweringSteps
  import opened LoweringCorrectness

  predicate IsEquality(op: Opcode) {
    op.MipsBeq? || op.MipsBne? || op.MipsBeql? || op.MipsBnel?
  }

  predicate IsSignTest(op: Opcode) {
    op.MipsBltz? || op.MipsBgez? || op.MipsBlez? || op.MipsBgtz?
  }

  /** The branches and the jump Translate_Branch is modelled for. */
  predicate IsHandled(op: Opcode) {
    IsEquality(op) || IsSignTest(op) || op.MipsJ?
  }

  predicate IsLikely(op: Opcode) {
    op.MipsBeql? || op.MipsBnel?
  }

  /** The condition of the ARM branch. */
  function TakenIf(op: Opcode): Cond {
    match op
    case MipsBeq => EQ
    case MipsBeql => EQ
    case MipsBne => NE
    case MipsBnel => NE
    case MipsBltz => MI
    case MipsBgez => PL
    case MipsBlez => LE
    case MipsBgtz => GT
    case _ => AL
  }

  /** The condition under which the low words are compared as well. */
  function LowIf(op: Opcode): Cond {
    match op
    case MipsBltz => MI
    case MipsBgez => PL
    case _ => EQ
  }

  /** The comparison of the high words takes the place of the branch x; the low words follow. */
  function CompareHigh(x: Ins): Ins {
    if IsEquality(x.what.op) && x.r2 != 0 then Instr(x, ArmCmp, AL, REG_NOT_USED, Wide(x.r1), Wide(x.r2))
    else InstrI(x, ArmCmp, AL, REG_NOT_USED, Wide(x.r1), REG_NOT_USED, 0)
  }

  function CompareLow(x: Ins): Ins {
    if IsEquality(x.what.op) && x.r2 != 0 then New(ArmCmp, LowIf(x.what.op), REG_NOT_USED, x.r1, x.r2)
    else NewI(ArmCmp, LowIf(x.what.op), REG_NOT_USED, x.r1, REG_NOT_USED, 0)
  }

  /** MIPS IV Instruction Set, section A: is the branch taken for the register values a and b? */
  predicate MipsTaken(op: Opcode, a: nat, b: nat) {
    match op
    case MipsBeq => a == b
    case MipsBeql => a == b
    case MipsBne => a != b
    case MipsBnel => a != b
    case MipsBltz => Signed64(a) < 0
    case MipsBgez => Signed64(a) >= 0
    case MipsBlez => Signed64(a) <= 0
    case MipsBgtz => Signed64(a) > 0
    case _ => true
  }

  /** What decides whether the ARM condition is right: the two words of the register. */
  predicate IsDecidedRightly(op: Opcode, hi: nat, lo: nat) {
    match op
    case MipsBltz => hi >= 0x8000_0000 ==> lo >= 0x8000_0000
    case MipsBgez => hi < 0x8000_0000 ==> lo < 0x8000_0000
    case MipsBlez => hi == 0 ==> lo < 0x8000_0000
    case MipsBgtz => hi == 0 ==> lo < 0x8000_0000
    case _ => true
  }

  /** The decoder's form of a conditional branch; register 0 as second operand is the constant. */
  predicate IsBranch(x: Ins) {
    && (IsEquality(x.what.op) || IsSignTest(x.what.op))
    && x.r1 < 32 && (IsEquality(x.what.op) ==> x.r2 < 32) && x.rd2 == REG_NOT_USED
    && x.what.shift == 0 && x.what.shiftType == LogicalLeft
  }

  /** The flags after comparing a with b. */
  function Compared(a: nat, b: nat): (f: Flags)
    requires a < WORD && b < WORD
  {
    SumFlags(a, Not(b), true)
  }

  lemma ComparedFlags(a: nat, b: nat)
    requires a < WORD && b < WORD
    ensures Compared(a, b).z <==> a == b
    ensures Compared(a, 0).n <==> a >= 0x8000_0000
    ensures !Compared(a, 0).v
  {
    Pow2Values();
  }

  /** The flags after both comparisons, the second one conditional on the first. */
  function CompareFlags(op: Opcode, ah: nat, al: nat, bh: nat, bl: nat): Flags
    requires ah < WORD && al < WORD && bh < WORD && bl < WORD
  {
    var first := Compared(ah, bh);
    if Holds(LowIf(op), first) then Compared(al, bl) else first
  }

  lemma CompareOne(x: Ins, s: State<Flags>, b: nat)
    requires x.what.op == ArmCmp && x.rd1 == x.rd2 == REG_NOT_USED && Words(s.regs) && b == Op2(x, s.regs)
    ensures Step(x, s) == if Holds(x.cond, s.world) then s.(world := Compared(s.regs(x.r1), b)) else s
  {
    hide Sum, SumFlags, Operand2, Word;
    WordOf(s.regs(x.r1));
    WordOf(s.regs(x.r2));
  }

  /** The second operand of the comparisons: the register, or the constant zero. */
  function Operand(x: Ins, regs: Regs, wide: bool): int {
    if !IsEquality(x.what.op) || x.r2 == 0 then 0 else if wide then regs(Wide(x.r2)) else regs(x.r2)
  }

  lemma CompareRun(x: Ins, s: State<Flags>)
    requires IsBranch(x) && Words(s.regs)
    ensures Exec([CompareHigh(x), CompareLow(x)], s) ==
      s.(world := CompareFlags(x.what.op, s.regs(Wide(x.r1)), s.regs(x.r1), Operand(x, s.regs, true),
                               Operand(x, s.regs, false)))
  {
    hide Exec, Step, Compared, Word;
    WordOf(0);
    ExecTwo(CompareHigh(x), CompareLow(x), s);
    if IsEquality(x.what.op) && x.r2 != 0 {
      PlainOperand(CompareHigh(x), s.regs);
      PlainOperand(CompareLow(x), s.regs);
    }
    CompareOne(CompareHigh(x), s, Operand(x, s.regs, true));
    CompareOne(CompareLow(x), Step(CompareHigh(x), s), Operand(x, s.regs, false));
  }

  lemma FlagsDecide(op: Opcode, ah: nat, al: nat, bh: nat, bl: nat)
    requires ah < WORD && al < WORD && bh < WORD && bl < WORD
    requires IsEquality(op) || (IsSignTest(op) && bh == bl == 0)
    ensures (Holds(TakenIf(op), CompareFlags(op, ah, al, bh, bl)) <==> MipsTaken(op, Pair(ah, al), Pair(bh, bl)))
      <==> IsDecidedRightly(op, ah, al)
  {
    hide Compared;
    ComparedFlags(ah, bh);
    ComparedFlags(al, bl);
    ComparedFlags(ah, 0);
    ComparedFlags(al, 0);
  }

  /** The ARM branch is taken exactly when the MIPS branch is, if and only if the words of the
      register are as required: always for the equality branches; for BLTZ not for a negative
      high word with a low word below 2^31; for BGEZ not for a nonnegative high word with a low
      word from 2^31; for BLEZ and BGTZ not for a zero high word with such a low word. */
  lemma BranchIsDecidedRightly(x: Ins, s: State<Flags>)
    requires IsBranch(x) && Words(s.regs) && (x.r2 == 0 ==> s.regs(0) == 0 && s.regs(Wide(0)) == 0)
    ensures
      var t := Exec([CompareHigh(x), CompareLow(x)], s);
      (Holds(TakenIf(x.what.op), t.world) <==> MipsTaken(x.what.op, Value(s.regs, x.r1), Value(s.regs, x.r2)))
      <==> IsDecidedRightly(x.what.op, s.regs(Wide(x.r1)), s.regs(x.r1))
  {
    hide Exec, CompareFlags, MipsTaken, IsDecidedRightly, Holds;
    CompareRun(x, s);
    SecondOperandOfSignTest(x, s.regs);
    FlagsDecide(x.what.op, s.regs(Wide(x.r1)), s.regs(x.r1), Operand(x, s.regs, true), Operand(x, s.regs, false));
  }

  /** A sign test does not look at the second register. */
  lemma SecondOperandOfSignTest(x: Ins, regs: Regs)
    requires IsBranch(x) && Words(regs) && (x.r2 == 0 ==> regs(0) == 0 && regs(Wide(0)) == 0)
    ensures
      var b := Pair(Operand(x, regs, true), Operand(x, regs, false));
      MipsTaken(x.what.op, Value(regs, x.r1), Value(regs, x.r2)) == MipsTaken(x.what.op, Value(regs, x.r1), b)
  {
  }

  /** Every branch is decided rightly on sign-extended 32-bit values. */
  lemma SignExtendedIsDecidedRightly(op: Opcode, hi: nat, lo: nat)
    requires hi < WORD && lo < WORD && hi == if lo >= 0x8000_0000 then WORD - 1 else 0
    ensures IsDecidedRightly(op, hi, lo)
  {
  }
}
