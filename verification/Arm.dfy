/** The ARM data-processing instructions the lowering of 64-bit operations produces, as one
    meaning of the intermediate code: 32-bit words, the condition flags, and the long
    multiplications (ARM Architecture Reference Manual DDI 0406C, sections A5.2 and A8.8).
 */
module Arm {
  import opened Ir
  import opened Bits
  import opened Machine

  datatype Flags = Flags(n: bool, z: bool, c: bool, v: bool)

  function Word(v: int): (w: nat)
    ensures w < WORD
  {
    v % WORD
  }

  function Not(x: nat): nat
    requires x < WORD
  {
    WORD - 1 - x
  }

  predicate Holds(cond: Cond, f: Flags) {
    match cond
    case EQ => f.z
    case NE => !f.z
    case CS => f.c
    case CC => !f.c
    case MI => f.n
    case PL => !f.n
    case VS => f.v
    case VC => !f.v
    case HI => f.c && !f.z
    case LS => !f.c || f.z
    case GE => f.n == f.v
    case LT => f.n != f.v
    case GT => !f.z && f.n == f.v
    case LE => f.z || f.n != f.v
    case AL => true
    case NV => false
  }

  /** A register operand shifted by a constant as the encoding has it: a right shift by 0
      stands for a right shift by 32. */
  function Shifted(shiftType: ShiftType, shift: nat, a: nat): (r: nat)
    requires shift < 32 && a < WORD
    ensures r < WORD
  {
    var s := if shift == 0 then 32 else shift;
    match shiftType
    case LogicalLeft => Word(a * Pow2(shift))
    case LogicalRight => (a / Pow2(s)) % WORD
    case ArithmeticRight => Word(Signed(32, a) / Pow2(s))
    case RotateRight => Word(a / Pow2(shift) + (a % Pow2(shift)) * Pow2(32 - shift))
  }

  /** The bit a shift pushes out. */
  function ShiftCarry(shiftType: ShiftType, shift: nat, a: nat, carry: bool): bool
    requires shift < 32
  {
    var s := if shift == 0 then 32 else shift;
    if shiftType == LogicalLeft then
      if shift == 0 then carry else a / Pow2(32 - shift) % 2 == 1
    else
      a / Pow2(s - 1) % 2 == 1
  }

  /** The second operand; an operation whose shift field does not fit is not emitted. */
  function Operand2(what: Operation, b: nat): (r: nat)
    requires b < WORD
    ensures r < WORD
  {
    if what.isImm then Word(what.imm)
    else if what.shift < 32 then Shifted(what.shiftType, what.shift, b) else 0
  }

  function LogicFlags(what: Operation, r: nat, b: nat, f: Flags): Flags {
    var c := if what.isImm || what.shift >= 32 then f.c else ShiftCarry(what.shiftType, what.shift, b, f.c);
    Flags(r >= 0x8000_0000, r == 0, c, f.v)
  }

  function Carry(c: bool): nat {
    if c then 1 else 0
  }

  function Sum(x: nat, y: nat, c: bool): (r: nat)
    ensures r < WORD
  {
    Word(x + y + Carry(c))
  }

  function SumFlags(x: nat, y: nat, c: bool): Flags
    requires x < WORD && y < WORD
  {
    var r := Sum(x, y, c);
    var exact := Signed(32, x) + Signed(32, y) + Carry(c);
    Flags(r >= 0x8000_0000, r == 0, x + y + Carry(c) >= WORD, !(-0x8000_0000 <= exact < 0x8000_0000))
  }

  /** The operands of the adder: subtraction adds the complement. */
  function AdderInputs(op: Opcode, a: nat, b: nat, c: bool): (r: (nat, nat, bool))
    requires a < WORD && b < WORD
    ensures r.0 < WORD && r.1 < WORD
  {
    match op
    case ArmAdc => (a, b, c)
    case ArmSub => (a, Not(b), true)
    case ArmCmp => (a, Not(b), true)
    case ArmSbc => (a, Not(b), c)
    case ArmRsb => (Not(a), b, true)
    case _ => (a, b, false)
  }

  function LogicResult(op: Opcode, a: nat, b: nat): nat
    requires a < WORD && b < WORD
  {
    match op
    case ArmAnd => Bitwise(And, 32, a, b)
    case ArmOrr => Bitwise(Or, 32, a, b)
    case ArmEor => Bitwise(Xor, 32, a, b)
    case ArmTeq => Bitwise(Xor, 32, a, b)
    case ArmMvn => Not(b)
    case _ => b
  }

  predicate IsAdder(op: Opcode) {
    op.ArmAdc? || op.ArmAdd? || op.ArmSub? || op.ArmSbc? || op.ArmRsb? || op.ArmCmp?
  }

  predicate IsLogic(op: Opcode) {
    op.ArmAnd? || op.ArmOrr? || op.ArmEor? || op.ArmMov? || op.ArmMvn? || op.ArmTeq?
  }

  predicate SetsFlags(what: Operation) {
    what.setFlags || what.op.ArmCmp? || what.op.ArmTeq?
  }

  function Effect(what: Operation, r1: int, r2: int, r3: int, r4: int, f: Flags): (int, int, Flags) {
    var a, b := Word(r1), Word(r2);
    if IsAdder(what.op) then
      var (x, y, c) := AdderInputs(what.op, a, Operand2(what, b), f.c);
      (Sum(x, y, c), 0, if SetsFlags(what) then SumFlags(x, y, c) else f)
    else if IsLogic(what.op) then
      var r := LogicResult(what.op, a, Operand2(what, b));
      (r, 0, if SetsFlags(what) then LogicFlags(what, r, b, f) else f)
    else if what.op.ArmUmull? then
      (Word(a * b / WORD), Word(a * b), f)
    else if what.op.ArmUmlal? then
      var acc := a * b + Word(r3) * WORD + Word(r4);
      (Word(acc / WORD), Word(acc), f)
    else
      (0, 0, f)
  }

  function ArmSemantics(): Semantics<Flags> {
    Semantics(
      Holds,
      Effect,
      (what: Operation) => (IsAdder(what.op) || IsLogic(what.op) || what.op.ArmUmull? || what.op.ArmUmlal?)
                           && !what.op.ArmCmp? && !what.op.ArmTeq?,
      (what: Operation) => what.op.ArmUmull? || what.op.ArmUmlal?)
  }
}
