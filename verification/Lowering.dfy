/** Translate_ALU for the 64-bit operations: the ARM instructions that replace each of them. A
    64-bit MIPS register is a pair, the low word in register r and the high word in r with
    REG_WIDE set.
 */
module Lowering {
  import opened Ir
  import opened Encoding

  /** r | REG_WIDE. */
  function Wide(r: Reg): Reg {
    if r / REG_WIDE % 2 == 1 then r else (r + REG_WIDE) % 0x1_0000
  }

  function New(op: Opcode, cond: Cond, rd1: Reg, r1: Reg, r2: Reg): Ins {
    Instr(Blank(op, cond), op, cond, rd1, r1, r2)
  }

  function NewI(op: Opcode, cond: Cond, rd1: Reg, r1: Reg, r2: Reg, imm: int): Ins {
    InstrI(Blank(op, cond), op, cond, rd1, r1, r2, imm)
  }

  function NewS(op: Opcode, cond: Cond, rd1: Reg, r1: Reg, r2: Reg): Ins {
    InstrS(Blank(op, cond), op, cond, rd1, r1, r2)
  }

  function WithShift(ins: Ins, shiftType: ShiftType, shift: nat): Ins {
    ins.(what := ins.what.(shiftType := shiftType, shift := shift))
  }

  /** A long multiplication with its second destination, accumulating when it is a UMLAL. */
  function Multiply(op: Opcode, hi: Reg, lo: Reg, r1: Reg, r2: Reg): Ins {
    var ins := New(op, AL, hi, r1, r2).(rd2 := lo);
    if op == ArmUmlal then ins.(r3 := hi, r4 := lo) else ins
  }

  /** A bitwise operation on both halves. */
  function LowerLogic(x: Ins, op: Opcode): seq<Ins> {
    [ Instr(x, op, AL, x.rd1, x.r1, x.r2),
      New(op, AL, Wide(x.rd1), Wide(x.r1), Wide(x.r2)) ]
  }

  /** Addition or subtraction that leaves the destination alone on signed overflow: the
      destination is read first so that it is loaded. */
  function LowerTrapping(x: Ins, low: Opcode, high: Opcode): seq<Ins> {
    [ Instr(x, NoOp, AL, REG_NOT_USED, x.rd1, REG_NOT_USED),
      New(NoOp, AL, REG_NOT_USED, Wide(x.rd1), REG_NOT_USED),
      NewS(low, AL, REG_TEMP_SCRATCH0, x.r1, x.r2),
      NewS(high, AL, REG_TEMP_SCRATCH1, Wide(x.r1), Wide(x.r2)),
      New(ArmMov, VC, x.rd1, REG_NOT_USED, REG_TEMP_SCRATCH0),
      New(ArmMov, VC, Wide(x.rd1), REG_NOT_USED, REG_TEMP_SCRATCH1) ]
  }

  function LowerWrapping(x: Ins, low: Opcode, high: Opcode): seq<Ins> {
    [ InstrS(x, low, AL, x.rd1, x.r1, x.r2),
      New(high, AL, Wide(x.rd1), Wide(x.r1), Wide(x.r2)) ]
  }

  /** A shift of 32 less s is written when s bits move from one half to the other. */
  function LowerDsll(x: Ins): seq<Ins>
    requires x.what.shift <= 32
  {
    var (rd, r, s) := (x.rd1, x.r1, x.what.shift);
    [ WithShift(Instr(x, ArmMov, AL, Wide(rd), REG_NOT_USED, Wide(r)), LogicalLeft, s),
      New(ArmMov, AL, REG_HOST_R0, REG_NOT_USED, r),
      WithShift(New(ArmMov, AL, rd, REG_NOT_USED, r), LogicalLeft, s),
      WithShift(New(ArmOrr, AL, Wide(rd), Wide(rd), REG_HOST_R0), LogicalRight, 32 - s) ]
  }

  function LowerDsrl(x: Ins): seq<Ins>
    requires x.what.shift <= 32
  {
    var (rd, r, s) := (x.rd1, x.r1, x.what.shift);
    [ WithShift(Instr(x, ArmMov, AL, REG_HOST_R0, REG_NOT_USED, Wide(r)), LogicalRight, s),
      WithShift(New(ArmMov, AL, REG_HOST_R1, REG_NOT_USED, r), LogicalRight, s),
      WithShift(New(ArmOrr, AL, rd, REG_HOST_R1, Wide(r)), LogicalLeft, 32 - s),
      New(ArmMov, AL, Wide(rd), REG_NOT_USED, REG_HOST_R0) ]
  }

  function LowerDsra(x: Ins): seq<Ins>
    requires x.what.shift <= 32
  {
    var (rd, r, s) := (x.rd1, x.r1, x.what.shift);
    [ WithShift(Instr(x, ArmMov, AL, rd, REG_NOT_USED, r), LogicalRight, s),
      WithShift(New(ArmMov, AL, Wide(rd), REG_NOT_USED, Wide(r)), ArithmeticRight, s),
      WithShift(New(ArmOrr, AL, rd, rd, Wide(r)), LogicalLeft, 32 - s) ]
  }

  function LowerDsll32(x: Ins): seq<Ins> {
    [ WithShift(Instr(x, ArmMov, AL, Wide(x.rd1), REG_NOT_USED, x.r1), LogicalLeft, x.what.shift),
      NewI(ArmMov, AL, x.rd1, REG_NOT_USED, REG_NOT_USED, 0) ]
  }

  function LowerDsrl32(x: Ins): seq<Ins> {
    [ WithShift(Instr(x, ArmMov, AL, x.rd1, REG_NOT_USED, Wide(x.r1)), LogicalRight, x.what.shift),
      NewI(ArmMov, AL, Wide(x.rd1), REG_NOT_USED, REG_NOT_USED, 0) ]
  }

  function LowerDsra32(x: Ins): seq<Ins> {
    [ WithShift(InstrS(x, ArmMov, AL, x.rd1, REG_NOT_USED, Wide(x.r1)), ArithmeticRight, x.what.shift),
      NewI(ArmMvn, MI, Wide(x.rd1), REG_NOT_USED, REG_NOT_USED, 0),
      NewI(ArmMov, PL, Wide(x.rd1), REG_NOT_USED, REG_NOT_USED, 0) ]
  }

  /** The immediate, its upper and its lower byte, of the sixteen-bit logic operations. */
  function Imm16(x: Ins): nat {
    x.what.imm % 0x1_0000
  }

  function UpperByte(x: Ins): nat {
    Imm16(x) / 0x100 * 0x100
  }

  function LowerByte(x: Ins): nat {
    Imm16(x) % 0x100
  }

  function LowerAndi(x: Ins): seq<Ins> {
    (if Imm8Shift(Imm16(x)) == -1 then
       [ InstrI(x, ArmAnd, AL, REG_TEMP_SCRATCH0, x.r1, REG_NOT_USED, UpperByte(x)),
         NewI(ArmAnd, AL, x.rd1, x.r1, REG_NOT_USED, LowerByte(x)),
         New(ArmOrr, AL, x.rd1, x.rd1, REG_TEMP_SCRATCH0) ]
     else
       [ InstrI(x, ArmAnd, AL, x.rd1, x.r1, REG_NOT_USED, Imm16(x)) ])
    + [ NewI(ArmMov, AL, Wide(x.rd1), REG_NOT_USED, REG_NOT_USED, 0) ]
  }

  /** ORI and XORI. */
  function LowerImmediate(x: Ins, op: Opcode): seq<Ins> {
    (if Imm8Shift(Imm16(x)) == -1 then
       [ InstrI(x, op, AL, x.rd1, x.r1, REG_NOT_USED, UpperByte(x)),
         NewI(op, AL, x.rd1, x.rd1, REG_NOT_USED, LowerByte(x)) ]
     else
       [ InstrI(x, op, AL, x.rd1, x.r1, REG_NOT_USED, Imm16(x)) ])
    + [ New(ArmMov, AL, Wide(x.rd1), REG_NOT_USED, Wide(x.r1)) ]
  }

  /** The product of the host register pairs R1:R0 and R3:R2 accumulated in HI:LO, whose upper
      half must start at zero. */
  function CrossProducts(): seq<Ins> {
    [ Multiply(ArmUmlal, REG_MULTHI, Wide(REG_MULTLO), REG_HOST_R1, REG_HOST_R2),
      Multiply(ArmUmlal, REG_MULTHI, Wide(REG_MULTLO), REG_HOST_R0, REG_HOST_R3),
      Multiply(ArmUmlal, Wide(REG_MULTHI), REG_MULTHI, REG_HOST_R1, REG_HOST_R3) ]
  }

  function LowerDmultu(x: Ins): seq<Ins> {
    [ InstrI(x, ArmMov, AL, REG_MULTHI, REG_NOT_USED, REG_NOT_USED, 0),
      NewI(ArmMov, AL, Wide(REG_MULTHI), REG_NOT_USED, REG_NOT_USED, 0),
      New(ArmMov, AL, REG_HOST_R0, REG_NOT_USED, x.r1),
      New(ArmMov, AL, REG_HOST_R1, REG_NOT_USED, Wide(x.r1)),
      New(ArmMov, AL, REG_HOST_R2, REG_NOT_USED, x.r2),
      New(ArmMov, AL, REG_HOST_R3, REG_NOT_USED, Wide(x.r2)),
      Multiply(ArmUmull, Wide(REG_MULTLO), REG_MULTLO, REG_HOST_R0, REG_HOST_R2) ]
    + CrossProducts()
  }

  /** The magnitude of r in the host pair hi:lo; first compares its high word with zero. */
  function Magnitude(first: Ins, r: Reg, lo: Reg, hi: Reg): seq<Ins> {
    [ first,
      New(ArmMov, PL, lo, REG_NOT_USED, r),
      New(ArmMov, PL, hi, REG_NOT_USED, Wide(r)),
      NewI(ArmRsb, MI, lo, r, REG_NOT_USED, 0),
      New(ArmMvn, MI, hi, REG_NOT_USED, Wide(r)) ]
  }

  /** Negate HI:LO when the operands' signs differ. */
  function FixSign(r1: Reg, r2: Reg): seq<Ins> {
    [ New(ArmTeq, AL, REG_NOT_USED, Wide(r1), Wide(r2)),
      NewI(ArmRsb, MI, REG_MULTLO, REG_MULTLO, REG_NOT_USED, 0),
      New(ArmMvn, MI, Wide(REG_MULTLO), REG_NOT_USED, Wide(REG_MULTLO)),
      New(ArmMvn, MI, REG_MULTHI, REG_NOT_USED, REG_MULTHI),
      New(ArmMvn, MI, Wide(REG_MULTHI), REG_NOT_USED, Wide(REG_MULTHI)) ]
  }

  function LowerDmult(x: Ins): seq<Ins> {
    Magnitude(InstrI(x, ArmCmp, AL, REG_NOT_USED, Wide(x.r1), REG_NOT_USED, 0), x.r1, REG_HOST_R0, REG_HOST_R1)
    + Magnitude(NewI(ArmCmp, AL, REG_NOT_USED, Wide(x.r2), REG_NOT_USED, 0), x.r2, REG_HOST_R2, REG_HOST_R3)
    + [ Multiply(ArmUmull, Wide(REG_MULTLO), REG_MULTLO, REG_HOST_R0, REG_HOST_R2),
        NewI(ArmMov, AL, REG_MULTHI, REG_NOT_USED, REG_NOT_USED, 0),
        NewI(ArmMov, AL, Wide(REG_MULTHI), REG_NOT_USED, REG_NOT_USED, 0) ]
    + CrossProducts()
    + FixSign(x.r1, x.r2)
  }

  /** What Translate_ALU puts in the place of one instruction, for the modelled operations and those it has
      no case for (IsSwitched). The shift operations abort when the field does not fit. */
  function Lower(x: Ins): (q: Option<seq<Ins>>)
    ensures q.Some? ==> |q.value| > 0
  {
    match x.what.op
    case MipsDmult => Some(LowerDmult(x))
    case MipsDmultu => Some(LowerDmultu(x))
    case MipsAnd => Some(LowerLogic(x, ArmAnd))
    case MipsOr => Some(LowerLogic(x, ArmOrr))
    case MipsXor => Some(LowerLogic(x, ArmEor))
    case MipsDadd => Some(LowerTrapping(x, ArmAdd, ArmAdc))
    case MipsDaddu => Some(LowerWrapping(x, ArmAdd, ArmAdc))
    case MipsDsub => Some(LowerTrapping(x, ArmSub, ArmSbc))
    case MipsDsubu => Some(LowerWrapping(x, ArmSub, ArmSbc))
    case MipsDsll => if x.what.imm < 32 && x.what.shift < 32 then Some(LowerDsll(x)) else None
    case MipsDsrl => if x.what.shift < 32 then Some(LowerDsrl(x)) else None
    case MipsDsra => if x.what.shift < 32 then Some(LowerDsra(x)) else None
    case MipsDsll32 => Some(LowerDsll32(x))
    case MipsDsrl32 => Some(LowerDsrl32(x))
    case MipsDsra32 => Some(LowerDsra32(x))
    case MipsAndi => Some(LowerAndi(x))
    case MipsOri => Some(LowerImmediate(x, ArmOrr))
    case MipsXori => Some(LowerImmediate(x, ArmEor))
    case _ => Some([x])
  }
}
