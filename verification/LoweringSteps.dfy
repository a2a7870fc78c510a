/** One ARM instruction at a time: what it leaves in the registers and in the flags.
 */
module LoweringSteps {
  import opened Ir
  import opened Bits
  import opened Machine
  import opened Arm

  ghost predicate Words(regs: Regs) {
    forall r: Reg :: 0 <= regs(r) < WORD
  }

  /** t is s with v written to rd. */
  ghost predicate Wrote(s: Regs, t: Regs, rd: Reg, v: int) {
    forall q: Reg {:trigger t(q)} :: t(q) == if q == rd then v else s(q)
  }

  function Step(x: Ins, s: State<Flags>): State<Flags> {
    Execute(ArmSemantics(), x, s)
  }

  function Exec(c: seq<Ins>, s: State<Flags>): State<Flags> {
    Run(ArmSemantics(), c, s)
  }

  /** The value of the second operand. */
  function Op2(x: Ins, regs: Regs): nat
    requires Words(regs)
  {
    Operand2(x.what, regs(x.r2))
  }

  predicate Single(x: Ins) {
    x.rd1 != REG_NOT_USED && x.rd2 == REG_NOT_USED
  }

  predicate Plain(x: Ins) {
    !x.what.isImm && x.what.shift == 0 && x.what.shiftType == LogicalLeft
  }

  lemma WordOf(v: int)
    requires 0 <= v < WORD
    ensures Word(v) == v
  {
  }

  lemma PlainOperand(x: Ins, regs: Regs)
    requires Words(regs) && Plain(x)
    ensures Op2(x, regs) == regs(x.r2)
  {
    WordOf(regs(x.r2));
  }

  /** An instruction with one destination writes what Effect says. */
  lemma SingleStep(x: Ins, s: State<Flags>)
    requires Single(x) && Holds(x.cond, s.world) && ArmSemantics().writes1(x.what)
    ensures
      var (v, _, f) := Effect(x.what, s.regs(x.r1), s.regs(x.r2), s.regs(x.r3), s.regs(x.r4), s.world);
      Wrote(s.regs, Step(x, s).regs, x.rd1, v) && Step(x, s).world == f
  {
    hide Effect;
  }

  /** Additions and subtractions of unshifted registers. */
  lemma AdderStep(x: Ins, s: State<Flags>)
    requires Words(s.regs) && Single(x) && Holds(x.cond, s.world) && IsAdder(x.what.op) && x.what.op != ArmCmp
    requires Plain(x)
    ensures
      var (a, b, c) := AdderInputs(x.what.op, s.regs(x.r1), s.regs(x.r2), s.world.c);
      && Wrote(s.regs, Step(x, s).regs, x.rd1, Sum(a, b, c)) && Words(Step(x, s).regs)
      && Step(x, s).world == if x.what.setFlags then SumFlags(a, b, c) else s.world
  {
    hide Step, Sum, SumFlags, Word;
    SingleStep(x, s);
    PlainOperand(x, s.regs);
    WordOf(s.regs(x.r1));
    WordOf(s.regs(x.r2));
  }

  /** Bitwise operations and moves. */
  lemma LogicStep(x: Ins, s: State<Flags>)
    requires Words(s.regs) && Single(x) && Holds(x.cond, s.world) && IsLogic(x.what.op) && x.what.op != ArmTeq
    ensures
      var v := LogicResult(x.what.op, s.regs(x.r1), Op2(x, s.regs));
      && Wrote(s.regs, Step(x, s).regs, x.rd1, v)
      && Step(x, s).world == if x.what.setFlags then LogicFlags(x.what, v, s.regs(x.r2), s.world) else s.world
  {
    hide Step, Operand2, LogicResult, LogicFlags, Word;
    SingleStep(x, s);
    WordOf(s.regs(x.r1));
    WordOf(s.regs(x.r2));
  }

  /** A move, possibly of a shifted register. */
  lemma MoveStep(x: Ins, s: State<Flags>)
    requires Words(s.regs) && Single(x) && Holds(x.cond, s.world) && x.what.op == ArmMov
    requires !x.what.isImm && x.what.shift < 32
    ensures
      var v := Shifted(x.what.shiftType, x.what.shift, s.regs(x.r2));
      && Wrote(s.regs, Step(x, s).regs, x.rd1, v) && Words(Step(x, s).regs)
      && Step(x, s).world == if x.what.setFlags then LogicFlags(x.what, v, s.regs(x.r2), s.world) else s.world
  {
    hide Step, Shifted, LogicFlags;
    LogicStep(x, s);
  }

  /** x puts register r, shifted, into rd. */
  predicate IsMove(x: Ins, rd: Reg, r: Reg, shiftType: ShiftType, shift: nat) {
    && x.what.op == ArmMov && x.cond == AL && !x.what.isImm && !x.what.setFlags
    && Single(x) && x.rd1 == rd && x.r2 == r
    && x.what.shiftType == shiftType && x.what.shift == shift
  }

  /** x ors register r, shifted, to register a and puts the result into rd. */
  predicate IsOr(x: Ins, rd: Reg, a: Reg, r: Reg, shiftType: ShiftType, shift: nat) {
    && x.what.op == ArmOrr && x.cond == AL && !x.what.isImm && !x.what.setFlags
    && Single(x) && x.rd1 == rd && x.r1 == a && x.r2 == r
    && x.what.shiftType == shiftType && x.what.shift == shift
  }

  lemma ShiftedMoveStep(x: Ins, rd: Reg, r: Reg, shiftType: ShiftType, n: nat, s: State<Flags>)
    requires IsMove(x, rd, r, shiftType, n) && n < 32 && Words(s.regs)
    ensures Wrote(s.regs, Step(x, s).regs, rd, Shifted(shiftType, n, s.regs(r)))
    ensures Words(Step(x, s).regs) && Step(x, s).world == s.world
  {
    hide Step, Shifted;
    MoveStep(x, s);
  }

  lemma OrShiftedStep(x: Ins, rd: Reg, a: Reg, r: Reg, shiftType: ShiftType, n: nat, s: State<Flags>)
    requires IsOr(x, rd, a, r, shiftType, n) && n < 32 && Words(s.regs)
    ensures Wrote(s.regs, Step(x, s).regs, rd, Bitwise(Or, 32, s.regs(a), Shifted(shiftType, n, s.regs(r))))
    ensures Words(Step(x, s).regs)
  {
    hide Step, Shifted, Bitwise;
    BitwiseStepped(x, s, Or);
  }

  lemma PlainMoveStep(x: Ins, s: State<Flags>)
    requires Words(s.regs) && Single(x) && Holds(x.cond, s.world) && x.what.op == ArmMov
    requires Plain(x) && !x.what.setFlags
    ensures Wrote(s.regs, Step(x, s).regs, x.rd1, s.regs(x.r2)) && Words(Step(x, s).regs)
    ensures Step(x, s).world == s.world
  {
    hide Step;
    LogicStep(x, s);
    PlainOperand(x, s.regs);
  }

  /** A bitwise operation on registers, the second one possibly shifted, or an immediate. */
  lemma BitwiseStepped(x: Ins, s: State<Flags>, op: BitOp)
    requires Words(s.regs) && Single(x) && Holds(x.cond, s.world) && !x.what.setFlags
    requires x.what.op == match op case And => ArmAnd case Or => ArmOrr case Xor => ArmEor
    ensures Wrote(s.regs, Step(x, s).regs, x.rd1, Bitwise(op, 32, s.regs(x.r1), Op2(x, s.regs)))
    ensures Words(Step(x, s).regs) && Step(x, s).world == s.world
  {
    hide Step, Operand2, Bitwise, Pow2, Word;
    LogicStep(x, s);
    Pow2Values();
  }

  lemma Skipped(x: Ins, s: State<Flags>)
    requires !Holds(x.cond, s.world) || x.what.op == NoOp
    ensures Step(x, s) == s
  {
  }

  /** Comparison of a register with zero. */
  lemma CompareStep(x: Ins, s: State<Flags>)
    requires Words(s.regs) && x.cond == AL && x.what.op == ArmCmp && x.rd1 == x.rd2 == REG_NOT_USED
    ensures Step(x, s) == s.(world := SumFlags(s.regs(x.r1), Not(Op2(x, s.regs)), true))
  {
    hide Sum, SumFlags, Operand2, Word;
    WordOf(s.regs(x.r1));
    WordOf(s.regs(x.r2));
  }

  /** An unshifted move copies a register. */
  lemma ShiftByNone(v: nat)
    requires v < WORD
    ensures Shifted(LogicalLeft, 0, v) == v
  {
    WordOf(v);
  }

  lemma CopyStep(x: Ins, rd: Reg, r: Reg, s: State<Flags>)
    requires IsMove(x, rd, r, LogicalLeft, 0) && Words(s.regs)
    ensures Wrote(s.regs, Step(x, s).regs, rd, s.regs(r))
    ensures Words(Step(x, s).regs) && Step(x, s).world == s.world
  {
    hide Step;
    ShiftedMoveStep(x, rd, r, LogicalLeft, 0, s);
    ShiftByNone(s.regs(r));
  }

  lemma ExecOne(a: Ins, s: State<Flags>)
    ensures Exec([a], s) == Step(a, s)
  {
    hide Execute;
    RunOne(ArmSemantics(), a, s);
  }

  lemma ExecTwo(a: Ins, b: Ins, s: State<Flags>)
    ensures Exec([a, b], s) == Step(b, Step(a, s))
  {
    hide Execute;
    RunTwo(ArmSemantics(), a, b, s);
  }

  lemma ExecThree(a: Ins, b: Ins, c: Ins, s: State<Flags>)
    ensures Exec([a, b, c], s) == Step(c, Step(b, Step(a, s)))
  {
    hide Execute;
    RunThree(ArmSemantics(), a, b, c, s);
  }

  lemma ExecFour(a: Ins, b: Ins, c: Ins, d: Ins, s: State<Flags>)
    ensures Exec([a, b, c, d], s) == Step(d, Step(c, Step(b, Step(a, s))))
  {
    hide Execute;
    RunFour(ArmSemantics(), a, b, c, d, s);
  }

  lemma ExecSplit(c: seq<Ins>, d: seq<Ins>, s: State<Flags>)
    ensures Exec(c + d, s) == Exec(d, Exec(c, s))
  {
    RunSplit(ArmSemantics(), c, d, s);
  }
}
