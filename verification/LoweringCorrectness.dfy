/** The lowered sequences compute the MIPS operations (MIPS IV Instruction Set, section A) on
    64-bit values, whatever the register contents and however the registers coincide.
 */
module LoweringCorrectness {
  import opened Ir
  import opened Bits
  import opened Machine
  import opened Arm
  import opened DoubleWords
  import opened Encoding
  import opened Lowering
  import opened LoweringSteps

  /** The 64-bit value of a register pair. */
  function Value(regs: Regs, r: Reg): int {
    Pair(regs(Wide(r)), regs(r))
  }

  /** The decoder's form of a register instruction: general registers, nothing left over. */
  predicate Decoded(x: Ins) {
    && x.rd1 < 32 && x.r1 < 32 && x.r2 < 32
    && x.rd2 == REG_NOT_USED && x.r3 == REG_NOT_USED && x.r4 == REG_NOT_USED
    && x.what.shiftType == LogicalLeft
  }

  lemma WideOf(r: Reg)
    requires r < 32
    ensures Wide(r) == r + 64
  {
  }

  lemma WideOfAll(x: Ins)
    requires Decoded(x)
    ensures Wide(x.rd1) == x.rd1 + 64 && Wide(x.r1) == x.r1 + 64 && Wide(x.r2) == x.r2 + 64
  {
  }

  /** The scratch registers a sequence may leave changed besides its destination. */
  predicate Scratch(r: Reg) {
    r == REG_TEMP_SCRATCH0 || r == REG_TEMP_SCRATCH1 || r == REG_HOST_R0 || r == REG_HOST_R1
  }

  /** After x, its destination pair holds v and no other register has changed. */
  ghost predicate Computes(x: Ins, s: Regs, t: Regs, v: int) {
    && Value(t, x.rd1) == v
    && (forall r: Reg {:trigger t(r)} :: t(r) == s(r) || r == x.rd1 || r == Wide(x.rd1) || Scratch(r))
  }

  /** The same by words. */
  ghost predicate Leaves(x: Ins, s: Regs, t: Regs, hi: int, lo: int) {
    && t(Wide(x.rd1)) == hi && t(x.rd1) == lo
    && (forall r: Reg {:trigger t(r)} :: t(r) == s(r) || r == x.rd1 || r == Wide(x.rd1) || Scratch(r))
  }

  // ---------------------------------------------------------------------------------------
  // Addition and subtraction

  /** The two adder instructions, with the carry handed from the lower to the upper one. */
  predicate AdderPair(low: Opcode, high: Opcode) {
    (low == ArmAdd && high == ArmAdc) || (low == ArmSub && high == ArmSbc)
  }

  function AdderSum(low: Opcode, a: int, b: int): int {
    if low == ArmSub then (a - b) % DOUBLE else (a + b) % DOUBLE
  }

  function AdderExact(low: Opcode, a: int, b: int): int {
    if low == ArmSub then Signed64(a) - Signed64(b) else Signed64(a) + Signed64(b)
  }

  /** The two sums, high and low, and the overflow flag of the high one, when the low one hands
      its carry on. */
  function AdderOutcome(low: Opcode, high: Opcode, ah: nat, al: nat, bh: nat, bl: nat, c: bool): (r: (nat, nat, bool))
    requires ah < WORD && al < WORD && bh < WORD && bl < WORD
    ensures r.0 < WORD && r.1 < WORD
  {
    var (x, y, c1) := AdderInputs(low, al, bl, c);
    var (x', y', c2) := AdderInputs(high, ah, bh, SumFlags(x, y, c1).c);
    (Sum(x', y', c2), Sum(x, y, c1), SumFlags(x', y', c2).v)
  }

  /** It is the wrapped sum or difference, and the flag its signed overflow. */
  lemma AdderHalves(low: Opcode, high: Opcode, ah: nat, al: nat, bh: nat, bl: nat, c: bool)
    requires AdderPair(low, high) && ah < WORD && al < WORD && bh < WORD && bl < WORD
    ensures
      var r := AdderOutcome(low, high, ah, al, bh, bl, c);
      && Pair(r.0, r.1) == AdderSum(low, Pair(ah, al), Pair(bh, bl))
      && (r.2 <==> !Fits64(AdderExact(low, Pair(ah, al), Pair(bh, bl))))
  {
    hide Word, Sum, SumFlags, Signed64, Fits64, Pair;
    if low == ArmSub {
      SubtractHalves(ah, al, bh, bl);
    } else {
      AddHalves(ah, al, bh, bl, false);
      OverflowOfHalves(ah, al, bh, bl, false);
    }
  }

  lemma SubtractHalves(ah: nat, al: nat, bh: nat, bl: nat)
    requires ah < WORD && al < WORD && bh < WORD && bl < WORD
    ensures
      var (a, b, carry) := (Pair(ah, al), Pair(bh, bl), SumFlags(al, Not(bl), true).c);
      && Pair(Sum(ah, Not(bh), carry), Sum(al, Not(bl), true)) == (a - b) % DOUBLE
      && (SumFlags(ah, Not(bh), carry).v <==> !Fits64(Signed64(a) - Signed64(b)))
  {
    hide Word, Sum, SumFlags, Signed64, Fits64, Pair;
    NotHalves(bh, bl);
    AddHalves(ah, al, Not(bh), Not(bl), true);
    OverflowOfHalves(ah, al, Not(bh), Not(bl), true);
    SubtractByComplement(Pair(ah, al), Pair(bh, bl));
  }

  /** The outcome for the registers of x. */
  function AdderOn(x: Ins, low: Opcode, high: Opcode, regs: Regs, c: bool): (r: (nat, nat, bool))
    requires Words(regs)
  {
    AdderOutcome(low, high, regs(Wide(x.r1)), regs(x.r1), regs(Wide(x.r2)), regs(x.r2), c)
  }

  /** An adder instruction on the low words and one on the high words, into two registers. */
  lemma AdderRun(a: Ins, b: Ins, lo: Reg, hi: Reg, low: Opcode, high: Opcode, x: Ins, s: State<Flags>)
    requires Decoded(x) && Words(s.regs) && AdderPair(low, high)
    requires IsAdderIns(a, low, lo, x.r1, x.r2) && a.what.setFlags && lo != Wide(x.r1) && lo != Wide(x.r2)
    requires IsAdderIns(b, high, hi, Wide(x.r1), Wide(x.r2)) && hi != lo
    ensures
      var (t, r) := (Step(b, Step(a, s)), AdderOn(x, low, high, s.regs, s.world.c));
      && Words(t.regs) && t.regs(hi) == r.0 && t.regs(lo) == r.1 && (b.what.setFlags ==> t.world.v == r.2)
      && (forall q: Reg {:trigger t.regs(q)} :: q != hi && q != lo ==> t.regs(q) == s.regs(q))
  {
    hide Step, Sum, SumFlags, AdderPair, Wide;
    AdderStep(a, s);
    AdderStep(b, Step(a, s));
  }

  predicate IsAdderIns(x: Ins, op: Opcode, rd: Reg, r1: Reg, r2: Reg) {
    && x.what.op == op && IsAdder(op) && op != ArmCmp && x.cond == AL && Plain(x) && Single(x)
    && x.rd1 == rd && x.r1 == r1 && x.r2 == r2
  }

  /** DADDU and DSUBU. */
  lemma WrappingIsCorrect(x: Ins, low: Opcode, high: Opcode, s: State<Flags>)
    requires Decoded(x) && x.what.shift == 0 && Words(s.regs) && AdderPair(low, high)
    ensures Computes(x, s.regs, Exec(LowerWrapping(x, low, high), s).regs,
                     AdderSum(low, Value(s.regs, x.r1), Value(s.regs, x.r2)))
  {
    hide Exec, Step, AdderSum, AdderExact, AdderOutcome, Fits64;
    var c := LowerWrapping(x, low, high);
    WideOfAll(x);
    AdderRun(c[0], c[1], x.rd1, Wide(x.rd1), low, high, x, s);
    ExecTwo(c[0], c[1], s);
    AdderHalves(low, high, s.regs(x.r1 + 64), s.regs(x.r1), s.regs(x.r2 + 64), s.regs(x.r2), s.world.c);
  }

  /** The flag-setting half of DADD and DSUB, in the two temporaries. */
  lemma TrappingSum(a: Ins, b: Ins, low: Opcode, high: Opcode, x: Ins, s: State<Flags>)
    requires Decoded(x) && Words(s.regs) && AdderPair(low, high)
    requires a == NewS(low, AL, REG_TEMP_SCRATCH0, x.r1, x.r2)
    requires b == NewS(high, AL, REG_TEMP_SCRATCH1, Wide(x.r1), Wide(x.r2))
    ensures
      var t := Step(b, Step(a, s));
      && Words(t.regs)
      && Pair(t.regs(REG_TEMP_SCRATCH1), t.regs(REG_TEMP_SCRATCH0)) ==
         AdderSum(low, Value(s.regs, x.r1), Value(s.regs, x.r2))
      && (t.world.v <==> !Fits64(AdderExact(low, Value(s.regs, x.r1), Value(s.regs, x.r2))))
      && (forall r: Reg {:trigger t.regs(r)} :: t.regs(r) == s.regs(r) || Scratch(r))
  {
    hide Step, AdderSum, AdderExact, AdderOutcome, Fits64;
    WideOfAll(x);
    AdderRun(a, b, REG_TEMP_SCRATCH0, REG_TEMP_SCRATCH1, low, high, x, s);
    AdderHalves(low, high, s.regs(x.r1 + 64), s.regs(x.r1), s.regs(x.r2 + 64), s.regs(x.r2), s.world.c);
  }

  /** The conditional half: the temporaries are copied unless the overflow flag is set. */
  lemma TrappingCopy(x: Ins, s: State<Flags>)
    requires Decoded(x) && Words(s.regs)
    ensures
      var a := New(ArmMov, VC, x.rd1, REG_NOT_USED, REG_TEMP_SCRATCH0);
      var b := New(ArmMov, VC, Wide(x.rd1), REG_NOT_USED, REG_TEMP_SCRATCH1);
      Computes(x, s.regs, Step(b, Step(a, s)).regs,
               if s.world.v then Value(s.regs, x.rd1) else Pair(s.regs(REG_TEMP_SCRATCH1), s.regs(REG_TEMP_SCRATCH0)))
  {
    hide Step;
    var a := New(ArmMov, VC, x.rd1, REG_NOT_USED, REG_TEMP_SCRATCH0);
    var b := New(ArmMov, VC, Wide(x.rd1), REG_NOT_USED, REG_TEMP_SCRATCH1);
    WideOfAll(x);
    if s.world.v {
      Skipped(a, s);
      Skipped(b, s);
    } else {
      PlainMoveStep(a, s);
      PlainMoveStep(b, Step(a, s));
    }
  }

  /** DADD and DSUB: the destination is unchanged exactly on signed 64-bit overflow. */
  lemma TrappingIsCorrect(x: Ins, low: Opcode, high: Opcode, s: State<Flags>)
    requires Decoded(x) && Words(s.regs) && AdderPair(low, high)
    ensures
      var a, b := Value(s.regs, x.r1), Value(s.regs, x.r2);
      Computes(x, s.regs, Exec(LowerTrapping(x, low, high), s).regs,
               if Fits64(AdderExact(low, a, b)) then AdderSum(low, a, b) else Value(s.regs, x.rd1))
  {
    hide Exec, Step, AdderSum, AdderExact, Fits64;
    var c := LowerTrapping(x, low, high);
    assert c == c[..2] + c[2..];
    assert c[..2] == [c[0], c[1]] && c[2..] == [c[2], c[3], c[4], c[5]][..];
    ExecSplit(c[..2], c[2..], s);
    ExecTwo(c[0], c[1], s);
    Skipped(c[0], s);
    Skipped(c[1], s);
    ExecFour(c[2], c[3], c[4], c[5], s);
    TrappingSum(c[2], c[3], low, high, x, s);
    WideOfAll(x);
    TrappingCopy(x, Step(c[3], Step(c[2], s)));
  }

  // ---------------------------------------------------------------------------------------
  // Bitwise operations

  function LogicOpcode(op: BitOp): Opcode {
    match op case And => ArmAnd case Or => ArmOrr case Xor => ArmEor
  }

  lemma LogicIsCorrect(x: Ins, op: BitOp, s: State<Flags>)
    requires Decoded(x) && x.what.shift == 0 && Words(s.regs)
    ensures Computes(x, s.regs, Exec(LowerLogic(x, LogicOpcode(op)), s).regs,
                     Bitwise(op, 64, Value(s.regs, x.r1), Value(s.regs, x.r2)))
  {
    hide Exec, Step, Bitwise, Shifted, Operand2;
    var c := LowerLogic(x, LogicOpcode(op));
    WideOfAll(x);
    BitwiseStepped(c[0], s, op);
    PlainOperand(c[0], s.regs);
    var t := Step(c[0], s);
    BitwiseStepped(c[1], t, op);
    PlainOperand(c[1], t.regs);
    ExecTwo(c[0], c[1], s);
    BitwiseHalves(op, s.regs(x.r1 + 64), s.regs(x.r1), s.regs(x.r2 + 64), s.regs(x.r2));
  }

  // ---------------------------------------------------------------------------------------
  // Shifts

  lemma DsllCode(x: Ins)
    requires Decoded(x) && x.what.shift < 32
    ensures
      var (c, n, rd, r) := (LowerDsll(x), x.what.shift, x.rd1, x.r1);
      && c == [c[0], c[1], c[2], c[3]]
      && IsMove(c[0], rd + 64, r + 64, LogicalLeft, n)
      && IsMove(c[1], REG_HOST_R0, r, LogicalLeft, 0)
      && IsMove(c[2], rd, r, LogicalLeft, n)
      && IsOr(c[3], rd + 64, rd + 64, REG_HOST_R0, LogicalRight, 32 - n)
  {
  }

  lemma DsllWords(x: Ins, s: State<Flags>)
    requires Decoded(x) && Words(s.regs) && 0 < x.what.shift < 32
    ensures
      var (n, hi, lo) := (x.what.shift, s.regs(Wide(x.r1)), s.regs(x.r1));
      Leaves(x, s.regs, Exec(LowerDsll(x), s).regs,
             Bitwise(Or, 32, Shifted(LogicalLeft, n, hi), Shifted(LogicalRight, 32 - n, lo)),
             Shifted(LogicalLeft, n, lo))
  {
    hide Exec, Step, Bitwise, Shifted, Wide, IsMove, IsOr, LowerDsll;
    var (c, n, rd, r) := (LowerDsll(x), x.what.shift, x.rd1, x.r1);
    WideOfAll(x);
    DsllCode(x);
    ShiftedMoveStep(c[0], rd + 64, r + 64, LogicalLeft, n, s);
    var s1 := Step(c[0], s);
    ShiftedMoveStep(c[1], REG_HOST_R0, r, LogicalLeft, 0, s1);
    ShiftByNone(s1.regs(r));
    var s2 := Step(c[1], s1);
    ShiftedMoveStep(c[2], rd, r, LogicalLeft, n, s2);
    var s3 := Step(c[2], s2);
    OrShiftedStep(c[3], rd + 64, rd + 64, REG_HOST_R0, LogicalRight, 32 - n, s3);
    ExecFour(c[0], c[1], c[2], c[3], s);
  }

  lemma DsllIsCorrect(x: Ins, s: State<Flags>)
    requires Decoded(x) && Words(s.regs) && 0 < x.what.shift < 32
    ensures Computes(x, s.regs, Exec(LowerDsll(x), s).regs, Value(s.regs, x.r1) * Pow2(x.what.shift) % DOUBLE)
  {
    hide Exec, LowerDsll, Bitwise, Shifted, Pow2;
    DsllWords(x, s);
    ShiftLeftHalves(s.regs(Wide(x.r1)), s.regs(x.r1), x.what.shift);
  }

  /** A right shift of a 64-bit value by s, from its halves. */
  lemma ShiftRightHalves(hi: nat, lo: nat, n: nat)
    requires hi < WORD && lo < WORD && 0 < n < 32
    ensures Pair(Shifted(LogicalRight, n, hi),
                 Bitwise(Or, 32, Shifted(LogicalRight, n, lo), Shifted(LogicalLeft, 32 - n, hi)))
      == Pair(hi, lo) / Pow2(n)
  {
    hide Bitwise, Shifted, Pow2;
    ShiftRightWord(hi, n);
    ShiftRightLow(hi, lo, n);
    ShiftRightSum(hi, lo, n);
  }

  lemma DsrlCode(x: Ins)
    requires Decoded(x) && x.what.shift < 32
    ensures
      var (c, n, rd, r) := (LowerDsrl(x), x.what.shift, x.rd1, x.r1);
      && c == [c[0], c[1], c[2], c[3]]
      && IsMove(c[0], REG_HOST_R0, r + 64, LogicalRight, n)
      && IsMove(c[1], REG_HOST_R1, r, LogicalRight, n)
      && IsOr(c[2], rd, REG_HOST_R1, r + 64, LogicalLeft, 32 - n)
      && IsMove(c[3], rd + 64, REG_HOST_R0, LogicalLeft, 0)
  {
  }

  lemma DsrlWords(x: Ins, s: State<Flags>)
    requires Decoded(x) && Words(s.regs) && 0 < x.what.shift < 32
    ensures
      var (n, hi, lo) := (x.what.shift, s.regs(Wide(x.r1)), s.regs(x.r1));
      Leaves(x, s.regs, Exec(LowerDsrl(x), s).regs,
             Shifted(LogicalRight, n, hi),
             Bitwise(Or, 32, Shifted(LogicalRight, n, lo), Shifted(LogicalLeft, 32 - n, hi)))
  {
    hide Exec, Step, Bitwise, Shifted, Wide, IsMove, IsOr, LowerDsrl;
    var (c, n, rd, r) := (LowerDsrl(x), x.what.shift, x.rd1, x.r1);
    WideOfAll(x);
    DsrlCode(x);
    ShiftedMoveStep(c[0], REG_HOST_R0, r + 64, LogicalRight, n, s);
    var s1 := Step(c[0], s);
    ShiftedMoveStep(c[1], REG_HOST_R1, r, LogicalRight, n, s1);
    var s2 := Step(c[1], s1);
    OrShiftedStep(c[2], rd, REG_HOST_R1, r + 64, LogicalLeft, 32 - n, s2);
    var s3 := Step(c[2], s2);
    ShiftedMoveStep(c[3], rd + 64, REG_HOST_R0, LogicalLeft, 0, s3);
    ShiftByNone(s3.regs(REG_HOST_R0));
    ExecFour(c[0], c[1], c[2], c[3], s);
  }

  lemma DsrlIsCorrect(x: Ins, s: State<Flags>)
    requires Decoded(x) && Words(s.regs) && 0 < x.what.shift < 32
    ensures Computes(x, s.regs, Exec(LowerDsrl(x), s).regs, Value(s.regs, x.r1) / Pow2(x.what.shift))
  {
    hide Exec, LowerDsrl, Bitwise, Shifted, Pow2;
    DsrlWords(x, s);
    ShiftRightHalves(s.regs(Wide(x.r1)), s.regs(x.r1), x.what.shift);
  }

  /** The high word DSRA takes its incoming bits from: it has been overwritten when source and
      destination are the same register. */
  function DsraSource(x: Ins, hi: nat): nat
    requires hi < WORD && x.what.shift < 32
  {
    if x.rd1 == x.r1 then Shifted(ArithmeticRight, x.what.shift, hi) else hi
  }

  lemma DsraHalves(hi: nat, h: nat, lo: nat, n: nat)
    requires hi < WORD && h < WORD && lo < WORD && 0 < n < 32
    ensures
      var low := Bitwise(Or, 32, Shifted(LogicalRight, n, lo), Shifted(LogicalLeft, 32 - n, h));
      Pair(Shifted(ArithmeticRight, n, hi), low) == Signed64(Pair(hi, lo)) / Pow2(n) % DOUBLE
      <==> h % Pow2(n) == hi % Pow2(n)
  {
    hide Bitwise, Pow2, Word, Signed64, Signed;
    var p, q := Pow2(n), Pow2(32 - n);
    Pow2Word(n);
    ShiftRightLow(h, lo, n);
    ShiftRightWord(lo, n);
    DsraDivided(hi, lo, n);
    DifferentMultiples(h % p, hi % p, q);
  }

  /** The low word after a right shift by n: bits of the high word, then bits of the low word. */
  function LowAfterShift(top: nat, lo: nat, n: nat): nat
    requires n <= 32
  {
    var (p, q) := (Pow2(n), Pow2(32 - n));
    DivMod(lo, p);
    MulMonotone(0, top, q);
    top * q + lo / p
  }

  lemma DsraQuotient(hi: nat, lo: nat, n: nat)
    requires hi < WORD && lo < WORD && 0 < n < 32
    ensures Signed64(Pair(hi, lo)) / Pow2(n) == Pair(Signed(32, hi) / Pow2(n), LowAfterShift(hi % Pow2(n), lo, n))
  {
    hide Pair, Signed, Signed64, Pow2;
    SignedHalves(hi, lo);
    SignedRemainder(hi, n);
    ShiftRightSum(Signed(32, hi), lo, n);
  }

  lemma DsraDivided(hi: nat, lo: nat, n: nat)
    requires hi < WORD && lo < WORD && 0 < n < 32
    ensures Signed64(Pair(hi, lo)) / Pow2(n) % DOUBLE ==
      Pair(Word(Signed(32, hi) / Pow2(n)), hi % Pow2(n) * Pow2(32 - n) + lo / Pow2(n))
  {
    hide Pair, Signed, Signed64, Pow2, Word;
    DsraQuotient(hi, lo, n);
    LowWordFits(hi, lo, n);
    PairModulus(Signed(32, hi) / Pow2(n), LowAfterShift(hi % Pow2(n), lo, n));
  }

  lemma LowWordFits(hi: nat, lo: nat, n: nat)
    requires lo < WORD && 0 < n < 32
    ensures hi % Pow2(n) * Pow2(32 - n) + lo / Pow2(n) < WORD
  {
    hide Pow2, Shifted;
    Pow2Word(n);
    ShiftRightWord(lo, n);
    MulMonotone(hi % Pow2(n) + 1, Pow2(n), Pow2(32 - n));
  }

  lemma DifferentMultiples(a: nat, b: nat, q: nat)
    requires q > 0
    ensures a * q == b * q <==> a == b
  {
    if a < b {
      MulMonotone(a + 1, b, q);
    } else if b < a {
      MulMonotone(b + 1, a, q);
    }
  }

  lemma DsraCode(x: Ins)
    requires Decoded(x) && x.what.shift < 32
    ensures
      var (c, n, rd, r) := (LowerDsra(x), x.what.shift, x.rd1, x.r1);
      && c == [c[0], c[1], c[2]]
      && IsMove(c[0], rd, r, LogicalRight, n)
      && IsMove(c[1], rd + 64, r + 64, ArithmeticRight, n)
      && IsOr(c[2], rd, rd, r + 64, LogicalLeft, 32 - n)
  {
  }

  lemma DsraWords(x: Ins, s: State<Flags>)
    requires Decoded(x) && Words(s.regs) && 0 < x.what.shift < 32
    ensures
      var (n, hi, lo) := (x.what.shift, s.regs(Wide(x.r1)), s.regs(x.r1));
      Leaves(x, s.regs, Exec(LowerDsra(x), s).regs,
             Shifted(ArithmeticRight, n, hi),
             Bitwise(Or, 32, Shifted(LogicalRight, n, lo), Shifted(LogicalLeft, 32 - n, DsraSource(x, hi))))
  {
    hide Exec, Step, Bitwise, Shifted, Wide, IsMove, IsOr, LowerDsra;
    var (c, n, rd, r) := (LowerDsra(x), x.what.shift, x.rd1, x.r1);
    WideOfAll(x);
    DsraCode(x);
    ShiftedMoveStep(c[0], rd, r, LogicalRight, n, s);
    var s1 := Step(c[0], s);
    ShiftedMoveStep(c[1], rd + 64, r + 64, ArithmeticRight, n, s1);
    var s2 := Step(c[1], s1);
    OrShiftedStep(c[2], rd, rd, r + 64, LogicalLeft, 32 - n, s2);
    ExecThree(c[0], c[1], c[2], s);
  }

  /** DSRA is right exactly when the bits taken from the high word are those of the original:
      always for different registers. */
  lemma DsraIsCorrect(x: Ins, s: State<Flags>)
    requires Decoded(x) && Words(s.regs) && 0 < x.what.shift < 32
    ensures
      var hi, p := s.regs(Wide(x.r1)), Pow2(x.what.shift);
      Computes(x, s.regs, Exec(LowerDsra(x), s).regs, Signed64(Value(s.regs, x.r1)) / p % DOUBLE)
      <==> DsraSource(x, hi) % p == hi % p
  {
    hide Exec, LowerDsra, Bitwise, Shifted, Pow2, Signed64;
    DsraWords(x, s);
    var hi := s.regs(Wide(x.r1));
    DsraHalves(hi, DsraSource(x, hi), s.regs(x.r1), x.what.shift);
  }

  lemma Dsll32Words(x: Ins, s: State<Flags>)
    requires Decoded(x) && Words(s.regs) && x.what.shift < 32
    ensures Leaves(x, s.regs, Exec(LowerDsll32(x), s).regs, Shifted(LogicalLeft, x.what.shift, s.regs(x.r1)), 0)
  {
    hide Exec, Step, Shifted, Wide, IsMove, IsClear, LowerDsll32;
    var (c, rd) := (LowerDsll32(x), x.rd1);
    WideOfAll(x);
    Dsll32Code(x);
    ShiftedMoveStep(c[0], rd + 64, x.r1, LogicalLeft, x.what.shift, s);
    ClearStep(c[1], rd, Step(c[0], s));
    ExecTwo(c[0], c[1], s);
  }

  lemma Dsll32Code(x: Ins)
    requires Decoded(x)
    ensures
      var c := LowerDsll32(x);
      c == [c[0], c[1]] && IsMove(c[0], x.rd1 + 64, x.r1, LogicalLeft, x.what.shift) && IsClear(c[1], x.rd1)
  {
  }

  lemma Dsll32IsCorrect(x: Ins, s: State<Flags>)
    requires Decoded(x) && Words(s.regs) && x.what.shift < 32
    ensures Computes(x, s.regs, Exec(LowerDsll32(x), s).regs, Value(s.regs, x.r1) * Pow2(x.what.shift + 32) % DOUBLE)
  {
    hide Exec, LowerDsll32, Pow2, Word;
    Dsll32Words(x, s);
    Pow2Add(x.what.shift, 32);
    Pow2Values();
    ShiftLeftDouble(s.regs(Wide(x.r1)), s.regs(x.r1), Pow2(x.what.shift));
  }

  lemma ShiftLeftDouble(hi: nat, lo: nat, p: nat)
    ensures Pair(hi, lo) * (p * WORD) % DOUBLE == Pair(Word(lo * p), 0)
  {
    DivMod(lo * p, WORD);
    assert Pair(hi, lo) * (p * WORD) == hi * p * DOUBLE + lo * p * WORD;
    Modulus(Pair(hi, lo) * (p * WORD), DOUBLE, hi * p + lo * p / WORD, Pair(Word(lo * p), 0));
  }

  lemma ShiftRightDouble(hi: int, lo: nat, p: nat)
    requires p > 0 && lo < WORD
    ensures Pair(hi, lo) / (p * WORD) == hi / p
  {
    var q, r := hi / p, hi % p;
    DivMod(hi, p);
    assert (q * p + r) * WORD == q * (p * WORD) + r * WORD;
    MulMonotone(r + 1, p, WORD);
    Quotient(Pair(hi, lo), p * WORD, q, r * WORD + lo);
  }

  lemma Dsrl32Value(hi: nat, lo: nat, n: nat)
    requires hi < WORD && lo < WORD && n < 32
    ensures Pair(0, Shifted(LogicalRight, n, hi)) == Pair(hi, lo) / Pow2(n + 32) <==> n != 0 || hi == 0
  {
    hide Pow2;
    Pow2Add(n, 32);
    Pow2Values();
    Pow2Zero();
    ShiftRightDouble(hi, lo, Pow2(n));
    if n != 0 {
      ShiftRightWord(hi, n);
    }
  }

  /** DSRL32 and DSRA32 by 0 are encoded as shifts by 32, which lose the high word. */
  lemma Dsrl32IsCorrect(x: Ins, s: State<Flags>)
    requires Decoded(x) && Words(s.regs) && x.what.shift < 32
    ensures Computes(x, s.regs, Exec(LowerDsrl32(x), s).regs, Value(s.regs, x.r1) / Pow2(x.what.shift + 32))
      <==> x.what.shift != 0 || s.regs(Wide(x.r1)) == 0
  {
    hide Exec, Step, Bitwise, Pow2, Shifted;
    var c := LowerDsrl32(x);
    WideOfAll(x);
    MoveStep(c[0], s);
    LogicStep(c[1], Step(c[0], s));
    WordOf(0);
    ExecTwo(c[0], c[1], s);
    Dsrl32Value(s.regs(x.r1 + 64), s.regs(x.r1), x.what.shift);
  }

  /** The sign word that belongs to a shifted high word. */
  lemma Dsra32Value(hi: nat, lo: nat, n: nat)
    requires hi < WORD && lo < WORD && n < 32
    ensures
      var r := Shifted(ArithmeticRight, n, hi);
      Pair(if r >= 0x8000_0000 then WORD - 1 else 0, r) == Signed64(Pair(hi, lo)) / Pow2(n + 32) % DOUBLE
      <==> n != 0 || hi == 0 || hi == WORD - 1
  {
    hide Pow2, Word, Signed64;
    var k := if n == 0 then 32 else n;
    var top := Signed(32, hi);
    Pow2Add(n, 32);
    Pow2Values();
    Pow2Zero();
    SignedHalves(hi, lo);
    ShiftRightDouble(top, lo, Pow2(n));
    ArithmeticShift(top, Pow2(k));
    ArithmeticShift(top, Pow2(n));
    SignExtended(top / Pow2(k), top / Pow2(n));
  }

  /** The sign word in front of a 32-bit number makes it a 64-bit number. */
  lemma SignExtended(q: int, q': int)
    requires -0x8000_0000 <= q < 0x8000_0000 && -0x8000_0000 <= q' < 0x8000_0000
    ensures Pair(if Word(q) >= 0x8000_0000 then WORD - 1 else 0, Word(q)) == q' % DOUBLE <==> q == q'
  {
    assert Word(q) == if q < 0 then q + WORD else q;
    assert q' % DOUBLE == if q' < 0 then q' + DOUBLE else q';
  }

  lemma ArithmeticShift(v: int, p: nat)
    requires p > 0 && -0x8000_0000 <= v < 0x8000_0000
    ensures -0x8000_0000 <= v / p < 0x8000_0000 && (v / p < 0 <==> v < 0)
    ensures p == 1 ==> v / p == v
    ensures p == WORD ==> v / p == if v < 0 then -1 else 0
  {
    DivMod(v, p);
  }

  /** The sign test after the shift: one of the two conditional moves runs. */
  lemma SignWord(a: Ins, b: Ins, rd: Reg, s: State<Flags>)
    requires Words(s.regs) && rd < 96
    requires a == NewI(ArmMvn, MI, rd, REG_NOT_USED, REG_NOT_USED, 0)
    requires b == NewI(ArmMov, PL, rd, REG_NOT_USED, REG_NOT_USED, 0)
    ensures Wrote(s.regs, Step(b, Step(a, s)).regs, rd, if s.world.n then WORD - 1 else 0)
  {
    hide Step, Word;
    WordOf(0);
    if s.world.n {
      LogicStep(a, s);
      Skipped(b, Step(a, s));
    } else {
      Skipped(a, s);
      LogicStep(b, s);
    }
  }

  lemma Dsra32IsCorrect(x: Ins, s: State<Flags>)
    requires Decoded(x) && Words(s.regs) && x.what.shift < 32
    ensures Computes(x, s.regs, Exec(LowerDsra32(x), s).regs,
                     Signed64(Value(s.regs, x.r1)) / Pow2(x.what.shift + 32) % DOUBLE)
      <==> x.what.shift != 0 || s.regs(Wide(x.r1)) == 0 || s.regs(Wide(x.r1)) == WORD - 1
  {
    hide Exec, Step, Shifted, Pow2, Signed64;
    var c := LowerDsra32(x);
    WideOfAll(x);
    MoveStep(c[0], s);
    SignWord(c[1], c[2], x.rd1 + 64, Step(c[0], s));
    ExecThree(c[0], c[1], c[2], s);
    Dsra32Value(s.regs(x.r1 + 64), s.regs(x.r1), x.what.shift);
  }

  // ---------------------------------------------------------------------------------------
  // Sixteen-bit immediates

  /** A zero-extended immediate leaves the high word alone, or clears it. */
  lemma ImmediateHalves(op: BitOp, hi: nat, lo: nat, v: nat)
    requires hi < WORD && lo < WORD && v < WORD
    ensures Pair(if op == And then 0 else hi, Bitwise(op, 32, lo, v)) == Bitwise(op, 64, Pair(hi, lo), v)
  {
    hide Bitwise;
    BitwiseHalves(op, hi, lo, 0, v);
    Pow2Values();
    BitwiseZero(32, hi);
  }

  predicate IsImmediate(x: Ins, op: BitOp, rd: Reg, r: Reg, v: nat) {
    && x.what.op == LogicOpcode(op) && x.cond == AL && x.what.isImm && !x.what.setFlags
    && Single(x) && x.rd1 == rd && x.r1 == r && x.what.imm == v
  }

  lemma ImmediateStep(x: Ins, op: BitOp, rd: Reg, r: Reg, v: nat, s: State<Flags>)
    requires IsImmediate(x, op, rd, r, v) && v < WORD && Words(s.regs)
    ensures Wrote(s.regs, Step(x, s).regs, rd, Bitwise(op, 32, s.regs(r), v)) && Words(Step(x, s).regs)
  {
    hide Step, Bitwise, Word;
    WordOf(v);
    BitwiseStepped(x, s, op);
  }

  predicate IsClear(x: Ins, rd: Reg) {
    x.what.op == ArmMov && x.cond == AL && x.what.isImm && !x.what.setFlags && Single(x) && x.rd1 == rd &&
      x.what.imm == 0
  }

  lemma ClearStep(x: Ins, rd: Reg, s: State<Flags>)
    requires IsClear(x, rd) && Words(s.regs)
    ensures Wrote(s.regs, Step(x, s).regs, rd, 0) && Words(Step(x, s).regs) && Step(x, s).world == s.world
  {
    hide Step, Word;
    WordOf(0);
    LogicStep(x, s);
  }

  lemma ImmediateBytes(x: Ins)
    ensures Imm16(x) == UpperByte(x) + LowerByte(x) < 0x1_0000
    ensures UpperByte(x) == Imm16(x) / 0x100 * 0x100 && Imm16(x) / 0x100 < 0x100 && LowerByte(x) < 0x100
  {
  }

  /** ANDI of the low word alone. */
  lemma AndiLow(x: Ins, s: State<Flags>)
    requires Decoded(x) && Words(s.regs)
    ensures
      var c := LowerAndi(x);
      var t := Exec(c[..|c| - 1], s);
      && Words(t.regs) && t.regs(x.rd1) == Bitwise(And, 32, s.regs(x.r1), Imm16(x))
      && (forall r: Reg {:trigger t.regs(r)} :: t.regs(r) == s.regs(r) || r == x.rd1 || Scratch(r))
  {
    hide Exec, Step, Bitwise, Imm8Shift, Imm16, UpperByte, LowerByte, Shifted;
    var (c, rd, r) := (LowerAndi(x), x.rd1, x.r1);
    var front := c[..|c| - 1];
    ImmediateBytes(x);
    if Imm8Shift(Imm16(x)) == -1 {
      assert front == [c[0], c[1], c[2]];
      AndiTwoSteps(c[0], c[1], c[2], x, s);
    } else {
      assert front == [c[0]];
      ExecOne(c[0], s);
      ImmediateStep(c[0], And, rd, r, Imm16(x), s);
    }
  }

  lemma AndiTwoSteps(a: Ins, b: Ins, c: Ins, x: Ins, s: State<Flags>)
    requires Decoded(x) && Words(s.regs)
    requires IsImmediate(a, And, REG_TEMP_SCRATCH0, x.r1, UpperByte(x))
    requires IsImmediate(b, And, x.rd1, x.r1, LowerByte(x))
    requires IsOr(c, x.rd1, x.rd1, REG_TEMP_SCRATCH0, LogicalLeft, 0)
    ensures
      var t := Exec([a, b, c], s);
      && Words(t.regs) && t.regs(x.rd1) == Bitwise(And, 32, s.regs(x.r1), Imm16(x))
      && (forall r: Reg {:trigger t.regs(r)} :: t.regs(r) == s.regs(r) || r == x.rd1 || Scratch(r))
  {
    hide Exec, Step, Bitwise, Imm16, UpperByte, LowerByte, Shifted, IsOr, IsImmediate;
    var (rd, r) := (x.rd1, x.r1);
    ImmediateBytes(x);
    ImmediateStep(a, And, REG_TEMP_SCRATCH0, r, UpperByte(x), s);
    var s1 := Step(a, s);
    ImmediateStep(b, And, rd, r, LowerByte(x), s1);
    var s2 := Step(b, s1);
    OrShiftedStep(c, rd, rd, REG_TEMP_SCRATCH0, LogicalLeft, 0, s2);
    ShiftByNone(s2.regs(REG_TEMP_SCRATCH0));
    ExecThree(a, b, c, s);
    AndBytes(s.regs(r), Imm16(x) / 0x100, LowerByte(x));
  }

  lemma AndiLast(x: Ins)
    requires Decoded(x)
    ensures
      var c := LowerAndi(x);
      |c| > 0 && c == c[..|c| - 1] + [c[|c| - 1]] && IsClear(c[|c| - 1], x.rd1 + 64)
  {
    hide Imm8Shift, Imm16, UpperByte, LowerByte;
  }

  lemma AndiIsCorrect(x: Ins, s: State<Flags>)
    requires Decoded(x) && Words(s.regs)
    ensures Computes(x, s.regs, Exec(LowerAndi(x), s).regs, Bitwise(And, 64, Value(s.regs, x.r1), Imm16(x)))
  {
    hide Exec, Step, Bitwise, Imm16, LowerAndi, IsClear, Wide;
    var c := LowerAndi(x);
    AndiLast(x);
    var front, last := c[..|c| - 1], c[|c| - 1];
    ExecSplit(front, [last], s);
    ExecOne(last, Exec(front, s));
    WideOfAll(x);
    AndiLow(x, s);
    ClearStep(last, x.rd1 + 64, Exec(front, s));
    ImmediateBytes(x);
    ImmediateHalves(And, s.regs(x.r1 + 64), s.regs(x.r1), Imm16(x));
  }

  lemma OriTwoSteps(a: Ins, b: Ins, op: BitOp, x: Ins, s: State<Flags>)
    requires op != And && Decoded(x) && Words(s.regs)
    requires IsImmediate(a, op, x.rd1, x.r1, UpperByte(x))
    requires IsImmediate(b, op, x.rd1, x.rd1, LowerByte(x))
    ensures
      var t := Exec([a, b], s);
      Words(t.regs) && Wrote(s.regs, t.regs, x.rd1, Bitwise(op, 32, s.regs(x.r1), Imm16(x)))
  {
    hide Exec, Step, Bitwise, Imm16, UpperByte, LowerByte, IsImmediate;
    ImmediateBytes(x);
    ImmediateStep(a, op, x.rd1, x.r1, UpperByte(x), s);
    ImmediateStep(b, op, x.rd1, x.rd1, LowerByte(x), Step(a, s));
    ExecTwo(a, b, s);
    OrBytes(op, s.regs(x.r1), Imm16(x) / 0x100, LowerByte(x));
  }

  /** ORI and XORI of the low word alone. */
  lemma OriLow(x: Ins, op: BitOp, s: State<Flags>)
    requires op != And && Decoded(x) && Words(s.regs)
    ensures
      var c := LowerImmediate(x, LogicOpcode(op));
      var t := Exec(c[..|c| - 1], s);
      Words(t.regs) && Wrote(s.regs, t.regs, x.rd1, Bitwise(op, 32, s.regs(x.r1), Imm16(x)))
  {
    hide Exec, Step, Bitwise, Imm8Shift, Imm16, UpperByte, LowerByte;
    var c := LowerImmediate(x, LogicOpcode(op));
    var front := c[..|c| - 1];
    ImmediateBytes(x);
    if Imm8Shift(Imm16(x)) == -1 {
      assert front == [c[0], c[1]];
      OriTwoSteps(c[0], c[1], op, x, s);
    } else {
      assert front == [c[0]];
      ExecOne(c[0], s);
      ImmediateStep(c[0], op, x.rd1, x.r1, Imm16(x), s);
    }
  }

  lemma OriLast(x: Ins, op: BitOp)
    requires op != And && Decoded(x)
    ensures
      var c := LowerImmediate(x, LogicOpcode(op));
      |c| > 0 && c == c[..|c| - 1] + [c[|c| - 1]] && IsMove(c[|c| - 1], x.rd1 + 64, x.r1 + 64, LogicalLeft, 0)
  {
    hide Imm8Shift, Imm16, UpperByte, LowerByte;
  }

  lemma ImmediateIsCorrect(x: Ins, op: BitOp, s: State<Flags>)
    requires op != And && Decoded(x) && Words(s.regs)
    ensures Computes(x, s.regs, Exec(LowerImmediate(x, LogicOpcode(op)), s).regs,
                     Bitwise(op, 64, Value(s.regs, x.r1), Imm16(x)))
  {
    hide Exec, Step, Bitwise, Imm16, LowerImmediate, IsMove, Wide;
    var c := LowerImmediate(x, LogicOpcode(op));
    OriLast(x, op);
    var front, last := c[..|c| - 1], c[|c| - 1];
    ExecSplit(front, [last], s);
    ExecOne(last, Exec(front, s));
    WideOfAll(x);
    OriLow(x, op, s);
    CopyStep(last, x.rd1 + 64, x.r1 + 64, Exec(front, s));
    ImmediateBytes(x);
    ImmediateHalves(op, s.regs(x.r1 + 64), s.regs(x.r1), Imm16(x));
  }
}
