/** DMULT and DMULTU: the 128-bit product in HI:LO, the carry the second accumulation can lose,
    and the operands for which the sign-magnitude sequence of DMULT is exact.
 */
module Multiplication {
  import opened Ir
  import opened Bits
  import opened Machine
  import opened Arm
  import opened DoubleWords
  import opened Lowering
  import opened LoweringSteps
  import opened LoweringCorrectness

  const HI_UPPER: Reg := 0xe4
  const LO_UPPER: Reg := 0xe6

  const QUADRUPLE: nat := DOUBLE * DOUBLE

  /** The 128-bit number in HI:LO. */
  function Product(regs: Regs): int {
    Pair(regs(HI_UPPER), regs(REG_MULTHI)) * DOUBLE + Pair(regs(LO_UPPER), regs(REG_MULTLO))
  }

  /** The host registers that hold the operands, and HI:LO. */
  predicate Clobbered(r: Reg) {
    || r == REG_HOST_R0 || r == REG_HOST_R1 || r == REG_HOST_R2 || r == REG_HOST_R3
    || r == REG_MULTHI || r == REG_MULTLO || r == HI_UPPER || r == LO_UPPER
  }

  ghost predicate OnlyClobbers(s: Regs, t: Regs) {
    forall r: Reg {:trigger t(r)} :: t(r) == s(r) || Clobbered(r)
  }

  // ---------------------------------------------------------------------------------------
  // Long multiplications

  predicate IsMultiply(x: Ins, op: Opcode, hi: Reg, lo: Reg, r1: Reg, r2: Reg) {
    && x.what.op == op && x.cond == AL && x.rd1 == hi && x.rd2 == lo && x.r1 == r1 && x.r2 == r2
    && hi != lo && hi != REG_NOT_USED && lo != REG_NOT_USED
    && (op == ArmUmlal ==> x.r3 == hi && x.r4 == lo)
  }

  /** t is s with the 64-bit value v written to hi:lo. */
  ghost predicate WrotePair(s: Regs, t: Regs, hi: Reg, lo: Reg, v: int) {
    && Pair(t(hi), t(lo)) == v
    && (forall q: Reg {:trigger t(q)} :: t(q) == s(q) || q == hi || q == lo)
  }

  lemma SplitWords(v: nat)
    ensures Pair(Word(v / WORD), Word(v)) == v % DOUBLE
    ensures v < DOUBLE ==> v % DOUBLE == v
  {
    DivMod(v, WORD);
    DivMod(v / WORD, WORD);
    Modulus(v, DOUBLE, v / WORD / WORD, Pair(Word(v / WORD), Word(v)));
  }

  lemma ProductFits(a: nat, b: nat)
    requires a < WORD && b < WORD
    ensures a * b <= (WORD - 1) * (WORD - 1)
  {
    MulMonotone(a, WORD - 1, b);
    MulMonotone(b, WORD - 1, WORD - 1);
  }

  lemma UmullStep(x: Ins, hi: Reg, lo: Reg, r1: Reg, r2: Reg, s: State<Flags>)
    requires IsMultiply(x, ArmUmull, hi, lo, r1, r2) && Words(s.regs)
    ensures WrotePair(s.regs, Step(x, s).regs, hi, lo, s.regs(r1) * s.regs(r2))
    ensures Words(Step(x, s).regs) && Step(x, s).world == s.world
  {
    hide Word;
    WordOf(s.regs(r1));
    WordOf(s.regs(r2));
    ProductFits(s.regs(r1), s.regs(r2));
    SplitWords(s.regs(r1) * s.regs(r2));
  }

  lemma UmlalStep(x: Ins, hi: Reg, lo: Reg, r1: Reg, r2: Reg, s: State<Flags>)
    requires IsMultiply(x, ArmUmlal, hi, lo, r1, r2) && Words(s.regs)
    ensures WrotePair(s.regs, Step(x, s).regs, hi, lo,
                      (s.regs(r1) * s.regs(r2) + Pair(s.regs(hi), s.regs(lo))) % DOUBLE)
    ensures Words(Step(x, s).regs) && Step(x, s).world == s.world
  {
    hide Word;
    WordOf(s.regs(r1));
    WordOf(s.regs(r2));
    WordOf(s.regs(hi));
    WordOf(s.regs(lo));
    SplitWords(s.regs(r1) * s.regs(r2) + Pair(s.regs(hi), s.regs(lo)));
  }

  // ---------------------------------------------------------------------------------------
  // The cross products

  /** The carry out of the second accumulation, which the code drops. */
  function LostCarry(ah: nat, al: nat, bh: nat, bl: nat): nat {
    if al * bl / WORD + ah * bl + al * bh >= DOUBLE then 1 else 0
  }

  /** The sum of the partial products, as the three accumulations form it. */
  lemma PartialProducts(ah: nat, al: nat, bh: nat, bl: nat)
    requires ah < WORD && al < WORD && bh < WORD && bl < WORD
    ensures
      var low := al * bl;
      var middle := (al * bh + (ah * bl + low / WORD) % DOUBLE) % DOUBLE;
      var high := (ah * bh + middle / WORD) % DOUBLE;
      high * DOUBLE + Pair(middle % WORD, low % WORD) + LostCarry(ah, al, bh, bl) * (DOUBLE * WORD)
        == Pair(ah, al) * Pair(bh, bl)
  {
    ProductFits(al, bl);
    ProductFits(ah, bl);
    ProductFits(al, bh);
    ProductFits(ah, bh);
    var low, m1, m2, h := al * bl, ah * bl, al * bh, ah * bh;
    Expand(ah, al, bh, bl);
    assert LostCarry(ah, al, bh, bl) == if low / WORD + m1 + m2 >= DOUBLE then 1 else 0;
    hide LostCarry, Pair;
    Accumulate(low, m1, m2, h);
  }

  lemma Expand(ah: int, al: int, bh: int, bl: int)
    ensures Pair(ah, al) * Pair(bh, bl) == ah * bh * DOUBLE + (ah * bl + al * bh) * WORD + al * bl
  {
    assert Pair(ah, al) * Pair(bh, bl) == ah * WORD * Pair(bh, bl) + al * Pair(bh, bl);
    assert ah * WORD * Pair(bh, bl) == ah * bh * DOUBLE + ah * bl * WORD;
    assert al * Pair(bh, bl) == al * bh * WORD + al * bl;
  }

  lemma Accumulate(low: nat, m1: nat, m2: nat, h: nat)
    requires low <= (WORD - 1) * (WORD - 1) && m1 <= (WORD - 1) * (WORD - 1)
    requires m2 <= (WORD - 1) * (WORD - 1) && h <= (WORD - 1) * (WORD - 1)
    ensures
      var middle := (m2 + (m1 + low / WORD) % DOUBLE) % DOUBLE;
      var high := (h + middle / WORD) % DOUBLE;
      var lost := if low / WORD + m1 + m2 >= DOUBLE then 1 else 0;
      high * DOUBLE + Pair(middle % WORD, low % WORD) + lost * (DOUBLE * WORD) == h * DOUBLE + (m1 + m2) * WORD + low
  {
    var k, first := low / WORD, m1 + low / WORD;
    DivMod(low, WORD);
    assert k < WORD;
    Reduce(first);
    Reduce(m2 + first);
    var middle := (m2 + first) % DOUBLE;
    DivMod(middle, WORD);
    assert middle / WORD < WORD;
    Reduce(h + middle / WORD);
  }

  lemma Reduce(v: nat)
    requires v < 2 * DOUBLE
    ensures v % DOUBLE == if v >= DOUBLE then v - DOUBLE else v
  {
  }

  predicate IsCrossProducts(c: seq<Ins>) {
    && |c| == 3
    && IsMultiply(c[0], ArmUmlal, REG_MULTHI, LO_UPPER, REG_HOST_R1, REG_HOST_R2)
    && IsMultiply(c[1], ArmUmlal, REG_MULTHI, LO_UPPER, REG_HOST_R0, REG_HOST_R3)
    && IsMultiply(c[2], ArmUmlal, HI_UPPER, REG_MULTHI, REG_HOST_R1, REG_HOST_R3)
  }

  /** The operands in R1:R0 and R3:R2. */
  function Left(regs: Regs): int {
    Pair(regs(REG_HOST_R1), regs(REG_HOST_R0))
  }

  function Right(regs: Regs): int {
    Pair(regs(REG_HOST_R3), regs(REG_HOST_R2))
  }

  ghost predicate ReadyToCross(regs: Regs) {
    && Words(regs) && regs(REG_MULTHI) == 0 && regs(HI_UPPER) == 0
    && Pair(regs(LO_UPPER), regs(REG_MULTLO)) == regs(REG_HOST_R0) * regs(REG_HOST_R2)
  }

  /** The words the three accumulations leave. */
  lemma CrossWords(c: seq<Ins>, s: State<Flags>)
    requires IsCrossProducts(c) && ReadyToCross(s.regs)
    ensures
      var t := Exec(c, s);
      var r := s.regs;
      var low := r(REG_HOST_R0) * r(REG_HOST_R2);
      var middle := (r(REG_HOST_R0) * r(REG_HOST_R3)
                     + (r(REG_HOST_R1) * r(REG_HOST_R2) + low / WORD) % DOUBLE) % DOUBLE;
      && Words(t.regs) && t.world == s.world
      && Pair(t.regs(HI_UPPER), t.regs(REG_MULTHI)) == (r(REG_HOST_R1) * r(REG_HOST_R3) + middle / WORD) % DOUBLE
      && t.regs(LO_UPPER) == middle % WORD && t.regs(REG_MULTLO) == low % WORD
      && OnlyClobbers(s.regs, t.regs)
  {
    hide Exec, Step, IsMultiply, Pair;
    assert c == [c[0], c[1], c[2]];
    ExecThree(c[0], c[1], c[2], s);
    var r := s.regs;
    UmlalStep(c[0], REG_MULTHI, LO_UPPER, REG_HOST_R1, REG_HOST_R2, s);
    var s1 := Step(c[0], s);
    UmlalStep(c[1], REG_MULTHI, LO_UPPER, REG_HOST_R0, REG_HOST_R3, s1);
    var s2 := Step(c[1], s1);
    UmlalStep(c[2], HI_UPPER, REG_MULTHI, REG_HOST_R1, REG_HOST_R3, s2);
    var s3 := Step(c[2], s2);
    PairParts(r(LO_UPPER), r(REG_MULTLO));
    PairParts(0, r(LO_UPPER));
    PairParts(0, s2.regs(REG_MULTHI));
    PairParts(s2.regs(REG_MULTHI), s2.regs(LO_UPPER));
  }

  lemma PairParts(hi: nat, lo: nat)
    requires lo < WORD
    ensures Pair(hi, lo) / WORD == hi && Pair(hi, lo) % WORD == lo && (hi == 0 ==> Pair(hi, lo) == lo)
  {
    Quotient(Pair(hi, lo), WORD, hi, lo);
  }

  lemma CrossProductsAreCorrect(c: seq<Ins>, s: State<Flags>)
    requires IsCrossProducts(c) && ReadyToCross(s.regs)
    ensures
      var t, r := Exec(c, s), s.regs;
      && Product(t.regs) + LostCarry(r(REG_HOST_R1), r(REG_HOST_R0), r(REG_HOST_R3), r(REG_HOST_R2)) * (DOUBLE * WORD)
         == Left(r) * Right(r)
      && Words(t.regs) && t.world == s.world && OnlyClobbers(s.regs, t.regs)
  {
    hide Exec, IsCrossProducts, LostCarry;
    CrossWords(c, s);
    var r := s.regs;
    PartialProducts(r(REG_HOST_R1), r(REG_HOST_R0), r(REG_HOST_R3), r(REG_HOST_R2));
  }

  lemma NoCarryIsLost(ah: nat, al: nat, bh: nat, bl: nat)
    requires ah < WORD / 2 && al < WORD && bh < WORD / 2 && bl < WORD
    ensures LostCarry(ah, al, bh, bl) == 0
  {
    ProductFits(al, bl);
    MulMonotone(ah, WORD / 2 - 1, bl);
    MulMonotone(bl, WORD, WORD / 2 - 1);
    MulMonotone(bh, WORD / 2 - 1, al);
    MulMonotone(al, WORD, WORD / 2 - 1);
  }

  /** All ones times all ones: the second accumulation overflows and the product is wrong. */
  lemma CarryCanBeLost()
    ensures LostCarry(WORD - 1, WORD - 1, WORD - 1, WORD - 1) == 1
  {
  }

  // ---------------------------------------------------------------------------------------
  // DMULTU

  /** The front part: HI cleared, the operands copied, the low product formed. */
  predicate IsDmultuFront(c: seq<Ins>, r1: Reg, r2: Reg) {
    && |c| == 7 && r1 < 32 && r2 < 32
    && IsClear(c[0], REG_MULTHI) && IsClear(c[1], HI_UPPER)
    && IsMove(c[2], REG_HOST_R0, r1, LogicalLeft, 0) && IsMove(c[3], REG_HOST_R1, r1 + 64, LogicalLeft, 0)
    && IsMove(c[4], REG_HOST_R2, r2, LogicalLeft, 0) && IsMove(c[5], REG_HOST_R3, r2 + 64, LogicalLeft, 0)
    && IsMultiply(c[6], ArmUmull, LO_UPPER, REG_MULTLO, REG_HOST_R0, REG_HOST_R2)
  }

  lemma DmultuCode(x: Ins)
    requires Decoded(x) && x.what.shift == 0
    ensures
      var c := LowerDmultu(x);
      |c| == 10 && c == c[..7] + c[7..] && IsDmultuFront(c[..7], x.r1, x.r2) && IsCrossProducts(c[7..])
  {
    hide IsCrossProducts, CrossProducts;
    WideOfAll(x);
    CrossProductsCode();
    var c := LowerDmultu(x);
    assert c[7..] == CrossProducts();
  }

  lemma CrossProductsCode()
    ensures IsCrossProducts(CrossProducts())
  {
  }

  lemma DmultuFront(c: seq<Ins>, r1: Reg, r2: Reg, s: State<Flags>)
    requires IsDmultuFront(c, r1, r2) && Words(s.regs)
    ensures
      var t := Exec(c, s);
      && ReadyToCross(t.regs) && OnlyClobbers(s.regs, t.regs)
      && t.regs(REG_HOST_R0) == s.regs(r1) && t.regs(REG_HOST_R1) == s.regs(r1 + 64)
      && t.regs(REG_HOST_R2) == s.regs(r2) && t.regs(REG_HOST_R3) == s.regs(r2 + 64)
  {
    hide Exec, Step, IsClear, IsMove, IsMultiply, Pair;
    assert c == [c[0], c[1], c[2]] + ([c[3], c[4], c[5]] + [c[6]]);
    ExecSplit([c[0], c[1], c[2]], [c[3], c[4], c[5]] + [c[6]], s);
    ExecThree(c[0], c[1], c[2], s);
    ClearStep(c[0], REG_MULTHI, s);
    var s1 := Step(c[0], s);
    ClearStep(c[1], HI_UPPER, s1);
    var s2 := Step(c[1], s1);
    CopyStep(c[2], REG_HOST_R0, r1, s2);
    var s3 := Step(c[2], s2);
    ExecSplit([c[3], c[4], c[5]], [c[6]], s3);
    ExecThree(c[3], c[4], c[5], s3);
    CopyStep(c[3], REG_HOST_R1, r1 + 64, s3);
    var s4 := Step(c[3], s3);
    CopyStep(c[4], REG_HOST_R2, r2, s4);
    var s5 := Step(c[4], s4);
    CopyStep(c[5], REG_HOST_R3, r2 + 64, s5);
    var s6 := Step(c[5], s5);
    ExecOne(c[6], s6);
    UmullStep(c[6], LO_UPPER, REG_MULTLO, REG_HOST_R0, REG_HOST_R2, s6);
  }

  /** DMULTU: HI:LO plus the lost carry is the 128-bit product of the operands. */
  lemma DmultuIsCorrect(x: Ins, s: State<Flags>)
    requires Decoded(x) && x.what.shift == 0 && Words(s.regs)
    ensures
      var lost := LostCarry(s.regs(Wide(x.r1)), s.regs(x.r1), s.regs(Wide(x.r2)), s.regs(x.r2));
      var t := Exec(LowerDmultu(x), s).regs;
      && Product(t) + lost * (DOUBLE * WORD)
         == Value(s.regs, x.r1) * Value(s.regs, x.r2)
      && OnlyClobbers(s.regs, t)
  {
    hide Exec, LowerDmultu, LostCarry, IsDmultuFront, IsCrossProducts, ReadyToCross, Product;
    var c := LowerDmultu(x);
    WideOfAll(x);
    DmultuCode(x);
    ExecSplit(c[..7], c[7..], s);
    DmultuFront(c[..7], x.r1, x.r2, s);
    CrossProductsAreCorrect(c[7..], Exec(c[..7], s));
  }

  /** In particular the product is exact exactly when no carry is lost, and it is exact for
      operands below 2^63. */
  lemma DmultuIsExact(x: Ins, s: State<Flags>)
    requires Decoded(x) && x.what.shift == 0 && Words(s.regs)
    ensures
      var a, b, t := Value(s.regs, x.r1), Value(s.regs, x.r2), Exec(LowerDmultu(x), s).regs;
      && (Product(t) == a * b <==>
          s.regs(x.r1) * s.regs(x.r2) / WORD + s.regs(Wide(x.r1)) * s.regs(x.r2)
            + s.regs(x.r1) * s.regs(Wide(x.r2)) < DOUBLE)
      && (a < DOUBLE / 2 && b < DOUBLE / 2 ==> Product(t) == a * b)
  {
    hide Exec, LowerDmultu, Product;
    DmultuIsCorrect(x, s);
    if Value(s.regs, x.r1) < DOUBLE / 2 && Value(s.regs, x.r2) < DOUBLE / 2 {
      NoCarryIsLost(s.regs(Wide(x.r1)), s.regs(x.r1), s.regs(Wide(x.r2)), s.regs(x.r2));
    }
  }

  // ---------------------------------------------------------------------------------------
  // DMULT: magnitudes

  /** What the code takes for the magnitude of the number with the given words. */
  function MagnitudeOf(h: nat, l: nat): int
    requires h < WORD
  {
    if h < 0x8000_0000 then Pair(h, l) else Pair(Not(h), Word(WORD - l))
  }

  /** It is the magnitude unless the number is negative with a zero low word; then it is 2^32 too
      small. It is below 2^63 in any case. */
  lemma MagnitudeIsExact(h: nat, l: nat)
    requires h < WORD && l < WORD
    ensures
      var v := Signed64(Pair(h, l));
      && (v >= 0 <==> h < 0x8000_0000)
      && MagnitudeOf(h, l) == (if v >= 0 then v else if l != 0 then -v else -v - WORD)
      && 0 <= MagnitudeOf(h, l) < DOUBLE / 2
  {
  }

  predicate IsMagnitude(c: seq<Ins>, r: Reg, lo: Reg, hi: Reg) {
    && |c| == 5 && r < 32 && REG_HOST <= lo && REG_HOST <= hi && lo != hi && lo != REG_NOT_USED && hi != REG_NOT_USED
    && c == Magnitude(c[0], r, lo, hi)
    && c[0].what.op == ArmCmp && c[0].cond == AL && c[0].what.isImm && c[0].what.imm == 0
    && c[0].rd1 == c[0].rd2 == REG_NOT_USED && c[0].r1 == r + 64
  }

  /** Comparison with zero: the N flag is the sign. */
  lemma CompareWithZero(x: Ins, r: Reg, s: State<Flags>)
    requires x.what.op == ArmCmp && x.cond == AL && x.what.isImm && x.what.imm == 0
    requires x.rd1 == x.rd2 == REG_NOT_USED && x.r1 == r && Words(s.regs)
    ensures Step(x, s).regs == s.regs && Step(x, s).world.n == (s.regs(r) >= 0x8000_0000)
  {
    hide Step;
    CompareStep(x, s);
  }

  /** An immediate reverse subtraction from zero. */
  lemma NegateStep(x: Ins, cond: Cond, rd: Reg, r: Reg, s: State<Flags>)
    requires x == NewI(ArmRsb, cond, rd, r, REG_NOT_USED, 0)
    requires rd != REG_NOT_USED && Holds(cond, s.world) && Words(s.regs)
    ensures Wrote(s.regs, Step(x, s).regs, rd, Word(WORD - s.regs(r)))
    ensures Words(Step(x, s).regs) && Step(x, s).world == s.world
  {
    hide Step;
    SingleStep(x, s);
    WordOf(s.regs(r));
  }

  lemma InvertStep(x: Ins, cond: Cond, rd: Reg, r: Reg, s: State<Flags>)
    requires x == New(ArmMvn, cond, rd, REG_NOT_USED, r)
    requires rd != REG_NOT_USED && Holds(cond, s.world) && Words(s.regs)
    ensures Wrote(s.regs, Step(x, s).regs, rd, WORD - 1 - s.regs(r))
    ensures Words(Step(x, s).regs) && Step(x, s).world == s.world
  {
    hide Step;
    LogicStep(x, s);
    PlainOperand(x, s.regs);
  }

  lemma MagnitudeRun(c: seq<Ins>, r: Reg, lo: Reg, hi: Reg, s: State<Flags>)
    requires IsMagnitude(c, r, lo, hi) && Words(s.regs)
    ensures
      var t := Exec(c, s);
      && WrotePair(s.regs, t.regs, hi, lo, MagnitudeOf(s.regs(r + 64), s.regs(r))) && Words(t.regs)
  {
    hide Exec, Step, Pair, Word, Wide;
    WideOf(r);
    assert c == [c[0]] + [c[1], c[2], c[3], c[4]];
    ExecSplit([c[0]], [c[1], c[2], c[3], c[4]], s);
    ExecOne(c[0], s);
    CompareWithZero(c[0], r + 64, s);
    var s0 := Step(c[0], s);
    ExecFour(c[1], c[2], c[3], c[4], s0);
    if s0.world.n {
      Skipped(c[1], s0);
      Skipped(c[2], s0);
      NegateStep(c[3], MI, lo, r, s0);
      InvertStep(c[4], MI, hi, r + 64, Step(c[3], s0));
    } else {
      PlainMoveStep(c[1], s0);
      var s1 := Step(c[1], s0);
      PlainMoveStep(c[2], s1);
      var s2 := Step(c[2], s1);
      Skipped(c[3], s2);
      Skipped(c[4], s2);
    }
  }

  // ---------------------------------------------------------------------------------------
  // DMULT: the sign

  lemma SignBits(a: nat, b: nat)
    requires a < WORD && b < WORD
    ensures Bitwise(Xor, 32, a, b) >= 0x8000_0000 <==> (a >= 0x8000_0000) != (b >= 0x8000_0000)
  {
    hide Bitwise, Pow2;
    var p := 0x8000_0000;
    Pow2Values();
    DivMod(a, p);
    DivMod(b, p);
    BitwiseSplit(Xor, 1, 31, a / p, a % p, b / p, b % p);
    BitwiseOfBits(Xor, a / p, b / p);
  }

  lemma BitwiseOfBits(op: BitOp, a: nat, b: nat)
    requires a < 2 && b < 2
    ensures Bitwise(op, 1, a, b) == Bit(op, a, b)
  {
    BitwiseStep(op, 1, a, b, 0, 0);
  }

  /** TEQ of the high words: the N flag tells whether the signs differ. */
  lemma TestSigns(x: Ins, r1: Reg, r2: Reg, s: State<Flags>)
    requires x == New(ArmTeq, AL, REG_NOT_USED, r1, r2) && Words(s.regs)
    ensures Step(x, s).regs == s.regs
    ensures Step(x, s).world.n <==> (s.regs(r1) >= 0x8000_0000) != (s.regs(r2) >= 0x8000_0000)
  {
    hide Bitwise;
    WordOf(s.regs(r1));
    WordOf(s.regs(r2));
    PlainOperand(x, s.regs);
    SignBits(s.regs(r1), s.regs(r2));
  }

  /** The negation the code performs: wrong by 2^32 when the low word is zero. */
  function Negated(p: int): int {
    if p % WORD == 0 then QUADRUPLE - p - WORD else QUADRUPLE - p
  }

  lemma NegatedWords(hh: nat, hl: nat, lh: nat, ll: nat)
    requires hh < WORD && hl < WORD && lh < WORD && ll < WORD
    ensures Pair(WORD - 1 - hh, WORD - 1 - hl) * DOUBLE + Pair(WORD - 1 - lh, Word(WORD - ll))
      == Negated(Pair(hh, hl) * DOUBLE + Pair(lh, ll))
  {
    Modulus(Pair(hh, hl) * DOUBLE + Pair(lh, ll), WORD, Pair(hh, hl) * WORD + lh, ll);
  }

  lemma FixSignRun(r1: Reg, r2: Reg, s: State<Flags>)
    requires r1 < 32 && r2 < 32 && Words(s.regs)
    ensures
      var t := Exec(FixSign(r1, r2), s);
      var differ := (s.regs(r1 + 64) >= 0x8000_0000) != (s.regs(r2 + 64) >= 0x8000_0000);
      && Product(t.regs) == (if differ then Negated(Product(s.regs)) else Product(s.regs))
      && OnlyClobbers(s.regs, t.regs)
  {
    hide Exec, Step, Pair, Word, Negated;
    var c := FixSign(r1, r2);
    WideOf(r1);
    WideOf(r2);
    assert c == [c[0]] + [c[1], c[2], c[3], c[4]];
    ExecSplit([c[0]], [c[1], c[2], c[3], c[4]], s);
    ExecOne(c[0], s);
    TestSigns(c[0], r1 + 64, r2 + 64, s);
    var s0 := Step(c[0], s);
    ExecFour(c[1], c[2], c[3], c[4], s0);
    if s0.world.n {
      FixSignNegates(c[1], c[2], c[3], c[4], s0);
    } else {
      Skipped(c[1], s0);
      Skipped(c[2], s0);
      Skipped(c[3], s0);
      Skipped(c[4], s0);
    }
  }

  lemma FixSignNegates(a: Ins, b: Ins, c: Ins, d: Ins, s: State<Flags>)
    requires Words(s.regs) && s.world.n
    requires a == NewI(ArmRsb, MI, REG_MULTLO, REG_MULTLO, REG_NOT_USED, 0)
    requires b == New(ArmMvn, MI, LO_UPPER, REG_NOT_USED, LO_UPPER)
    requires c == New(ArmMvn, MI, REG_MULTHI, REG_NOT_USED, REG_MULTHI)
    requires d == New(ArmMvn, MI, HI_UPPER, REG_NOT_USED, HI_UPPER)
    ensures
      var t := Step(d, Step(c, Step(b, Step(a, s))));
      Product(t.regs) == Negated(Product(s.regs)) && OnlyClobbers(s.regs, t.regs)
  {
    hide Step, Pair, Word, Negated;
    NegateStep(a, MI, REG_MULTLO, REG_MULTLO, s);
    var s1 := Step(a, s);
    InvertStep(b, MI, LO_UPPER, LO_UPPER, s1);
    var s2 := Step(b, s1);
    InvertStep(c, MI, REG_MULTHI, REG_MULTHI, s2);
    var s3 := Step(c, s2);
    InvertStep(d, MI, HI_UPPER, HI_UPPER, s3);
    NegatedWords(s.regs(HI_UPPER), s.regs(REG_MULTHI), s.regs(LO_UPPER), s.regs(REG_MULTLO));
  }

  // ---------------------------------------------------------------------------------------
  // DMULT: the whole sequence

  predicate IsDmultMiddle(c: seq<Ins>) {
    && |c| == 3
    && IsMultiply(c[0], ArmUmull, LO_UPPER, REG_MULTLO, REG_HOST_R0, REG_HOST_R2)
    && IsClear(c[1], REG_MULTHI) && IsClear(c[2], HI_UPPER)
  }

  lemma DmultCode(x: Ins)
    requires Decoded(x)
    ensures
      var c := LowerDmult(x);
      && |c| == 21 && c == c[..5] + (c[5..10] + (c[10..13] + (c[13..16] + c[16..])))
      && IsMagnitude(c[..5], x.r1, REG_HOST_R0, REG_HOST_R1) && IsMagnitude(c[5..10], x.r2, REG_HOST_R2, REG_HOST_R3)
      && IsDmultMiddle(c[10..13]) && IsCrossProducts(c[13..16]) && c[16..] == FixSign(x.r1, x.r2)
  {
    hide IsCrossProducts, CrossProducts, FixSign, Magnitude, IsMultiply;
    CrossProductsCode();
    WideOfAll(x);
    var first := InstrI(x, ArmCmp, AL, REG_NOT_USED, Wide(x.r1), REG_NOT_USED, 0);
    var second := NewI(ArmCmp, AL, REG_NOT_USED, Wide(x.r2), REG_NOT_USED, 0);
    MagnitudeCode(first, x.r1, REG_HOST_R0, REG_HOST_R1);
    MagnitudeCode(second, x.r2, REG_HOST_R2, REG_HOST_R3);
    FixSignLength(x.r1, x.r2);
    DmultMiddleCode();
    var c := LowerDmult(x);
    assert c[..5] == Magnitude(first, x.r1, REG_HOST_R0, REG_HOST_R1);
    assert c[5..10] == Magnitude(second, x.r2, REG_HOST_R2, REG_HOST_R3);
    assert c[13..16] == CrossProducts();
  }

  lemma MagnitudeCode(first: Ins, r: Reg, lo: Reg, hi: Reg)
    ensures |Magnitude(first, r, lo, hi)| == 5 && Magnitude(first, r, lo, hi)[0] == first
  {
  }

  lemma FixSignLength(r1: Reg, r2: Reg)
    ensures |FixSign(r1, r2)| == 5
  {
  }

  lemma DmultMiddleCode()
    ensures IsMultiply(Multiply(ArmUmull, Wide(REG_MULTLO), REG_MULTLO, REG_HOST_R0, REG_HOST_R2),
                       ArmUmull, LO_UPPER, REG_MULTLO, REG_HOST_R0, REG_HOST_R2)
  {
  }

  lemma DmultMiddle(c: seq<Ins>, s: State<Flags>)
    requires IsDmultMiddle(c) && Words(s.regs)
    ensures
      var t := Exec(c, s);
      && ReadyToCross(t.regs) && OnlyClobbers(s.regs, t.regs)
      && Left(t.regs) == Left(s.regs) && Right(t.regs) == Right(s.regs)
  {
    hide Exec, Step, IsClear, IsMultiply, Pair;
    assert c == [c[0], c[1], c[2]];
    ExecThree(c[0], c[1], c[2], s);
    UmullStep(c[0], LO_UPPER, REG_MULTLO, REG_HOST_R0, REG_HOST_R2, s);
    var s1 := Step(c[0], s);
    ClearStep(c[1], REG_MULTHI, s1);
    ClearStep(c[2], HI_UPPER, Step(c[1], s1));
  }

  /** The value the DMULT sequence leaves in HI:LO. */
  function DmultValue(ah: nat, al: nat, bh: nat, bl: nat): int
    requires ah < WORD && bh < WORD
  {
    var p := MagnitudeOf(ah, al) * MagnitudeOf(bh, bl);
    if (ah >= 0x8000_0000) != (bh >= 0x8000_0000) then Negated(p) else p
  }

  lemma DmultRun(x: Ins, s: State<Flags>)
    requires Decoded(x) && Words(s.regs)
    ensures
      var v := DmultValue(s.regs(Wide(x.r1)), s.regs(x.r1), s.regs(Wide(x.r2)), s.regs(x.r2));
      var t := Exec(LowerDmult(x), s).regs;
      && Product(t) == v
      && OnlyClobbers(s.regs, t)
  {
    hide Exec, LowerDmult, IsMagnitude, IsDmultMiddle, IsCrossProducts, FixSign, Pair, MagnitudeOf, Negated, Product;
    hide LostCarry;
    var (c, r1, r2) := (LowerDmult(x), x.r1, x.r2);
    WideOfAll(x);
    DmultCode(x);
    ExecSplit(c[..5], c[5..10] + (c[10..13] + (c[13..16] + c[16..])), s);
    MagnitudeRun(c[..5], r1, REG_HOST_R0, REG_HOST_R1, s);
    var s1 := Exec(c[..5], s);
    ExecSplit(c[5..10], c[10..13] + (c[13..16] + c[16..]), s1);
    MagnitudeRun(c[5..10], r2, REG_HOST_R2, REG_HOST_R3, s1);
    var s2 := Exec(c[5..10], s1);
    ExecSplit(c[10..13], c[13..16] + c[16..], s2);
    DmultMiddle(c[10..13], s2);
    var s3 := Exec(c[10..13], s2);
    ExecSplit(c[13..16], c[16..], s3);
    CrossProductsAreCorrect(c[13..16], s3);
    MagnitudeIsExact(s.regs(r1 + 64), s.regs(r1));
    MagnitudeIsExact(s.regs(r2 + 64), s.regs(r2));
    SmallMagnitudes(s3.regs);
    FixSignRun(r1, r2, Exec(c[13..16], s3));
  }

  lemma SmallMagnitudes(r: Regs)
    requires Words(r) && Left(r) < DOUBLE / 2 && Right(r) < DOUBLE / 2
    ensures LostCarry(r(REG_HOST_R1), r(REG_HOST_R0), r(REG_HOST_R3), r(REG_HOST_R2)) == 0
  {
    hide LostCarry;
    NoCarryIsLost(r(REG_HOST_R1), r(REG_HOST_R0), r(REG_HOST_R3), r(REG_HOST_R2));
  }

  // ---------------------------------------------------------------------------------------
  // DMULT: when it is exact

  /** The condition on the operands: a negative one with a zero low word, or signs that differ
      and a product with a zero low word, spoil the result, with one exception. */
  predicate DmultIsExactFor(a: nat, b: nat) {
    var (na, nb, la, lb) := (Signed64(a) < 0, Signed64(b) < 0, a % WORD, b % WORD);
    if na && nb then la != 0 && lb != 0
    else if na then la * lb % WORD != 0 || (la == 0 && b == 1)
    else if nb then la * lb % WORD != 0 || (lb == 0 && a == 1)
    else true
  }

  /** A product of nonnegative numbers is smaller when one factor is. */
  lemma SmallerProduct(m: nat, n: nat, a: nat, b: nat)
    requires m <= a && n <= b && 0 < a && 0 < b
    ensures m * n == a * b <==> m == a && n == b
  {
    if m < a {
      MulMonotone(n, b, m);
      MulMonotone(m + 1, a, b);
    } else if n < b {
      MulMonotone(n + 1, b, a);
    }
  }

  /** Both operands negative. */
  lemma BothNegative(a: nat, b: nat, da: nat, db: nat)
    requires 0 < a <= DOUBLE / 2 && 0 < b <= DOUBLE / 2 && da <= a && db <= b
    ensures (a - da) * (b - db) == a * b % QUADRUPLE <==> da == 0 && db == 0
  {
    ProductIsSmall(a, b);
    SmallerProduct(a - da, b - db, a, b);
  }

  lemma ProductIsSmall(a: nat, b: nat)
    requires a <= DOUBLE / 2 && b <= DOUBLE / 2
    ensures 0 <= a * b <= QUADRUPLE / 4 && a * b % QUADRUPLE == a * b
    ensures (-(a * b)) % QUADRUPLE == if a * b == 0 then 0 else QUADRUPLE - a * b
  {
    MulMonotone(a, DOUBLE / 2, b);
    MulMonotone(b, DOUBLE / 2, DOUBLE / 2);
    Modulus(a * b, QUADRUPLE, 0, a * b);
    if a * b == 0 {
      Modulus(0, QUADRUPLE, 0, 0);
    } else {
      Modulus(-(a * b), QUADRUPLE, -1, QUADRUPLE - a * b);
    }
  }

  /** One operand negative, of magnitude n with a non-zero low word. */
  lemma MixedSigns(n: nat, p: nat)
    requires n <= DOUBLE / 2 && p < DOUBLE / 2
    ensures Negated(n * p) == (-(n * p)) % QUADRUPLE <==> n * p % WORD != 0
  {
    ProductIsSmall(n, p);
  }

  /** One operand negative, of magnitude n with a zero low word. */
  lemma MixedSignsWhole(n: nat, p: nat)
    requires WORD <= n <= DOUBLE / 2 && p < DOUBLE / 2 && n % WORD == 0
    ensures Negated((n - WORD) * p) == (-(n * p)) % QUADRUPLE <==> p == 1
  {
    ProductIsSmall(n, p);
    var k := n / WORD - 1;
    assert (n - WORD) * p == n * p - WORD * p;
    assert (k * WORD) * p == (k * p) * WORD;
    Modulus((n - WORD) * p, WORD, k * p, 0);
    if p > 0 {
      MulMonotone(WORD, n, p);
      assert n * p > 0;
    }
  }

  /** The low word of a product depends on the low words only. */
  lemma LowProduct(n: nat, a: nat, p: nat)
    requires n + a == DOUBLE
    ensures n * p % WORD == 0 <==> a % WORD * (p % WORD) % WORD == 0
  {
    var (ah, al, ph, pl) := (a / WORD, a % WORD, p / WORD, p % WORD);
    DivMod(a, WORD);
    DivMod(p, WORD);
    Expand(ah, al, ph, pl);
    assert n * p + a * p == DOUBLE * p;
    var k := WORD * p - ah * ph * WORD - (ah * pl + al * ph);
    assert n * p + al * pl == k * WORD;
    ZeroTogether(n * p, al * pl, k);
  }

  lemma ZeroTogether(x: int, y: int, k: int)
    requires x + y == k * WORD
    ensures x % WORD == 0 <==> y % WORD == 0
  {
    DivMod(x, WORD);
    DivMod(y, WORD);
    if x % WORD == 0 {
      Modulus(y, WORD, k - x / WORD, 0);
    }
    if y % WORD == 0 {
      Modulus(x, WORD, k - y / WORD, 0);
    }
  }

  /** A negative a against a nonnegative p. */
  lemma NegativeTimesPositive(ah: nat, al: nat, p: nat)
    requires 0x8000_0000 <= ah < WORD && al < WORD && p < DOUBLE / 2
    ensures Negated(MagnitudeOf(ah, al) * p) == Signed64(Pair(ah, al)) * p % QUADRUPLE
      <==> al * (p % WORD) % WORD != 0 || (al == 0 && p == 1)
  {
    hide Negated, MagnitudeOf;
    var a := Pair(ah, al);
    var n := DOUBLE - a;
    PairParts(ah, al);
    MagnitudeIsExact(ah, al);
    assert Signed64(a) * p == -(n * p);
    if al == 0 {
      Modulus(n, WORD, WORD - ah, 0);
      MixedSignsWhole(n, p);
      assert 0 * (p % WORD) % WORD == 0;
    } else {
      MixedSigns(n, p);
      LowProduct(n, a, p);
    }
  }

  lemma NegativeTimesNegative(ah: nat, al: nat, bh: nat, bl: nat)
    requires 0x8000_0000 <= ah < WORD && al < WORD && 0x8000_0000 <= bh < WORD && bl < WORD
    ensures MagnitudeOf(ah, al) * MagnitudeOf(bh, bl) == Signed64(Pair(ah, al)) * Signed64(Pair(bh, bl)) % QUADRUPLE
      <==> al != 0 && bl != 0
  {
    hide MagnitudeOf;
    var a, b := DOUBLE - Pair(ah, al), DOUBLE - Pair(bh, bl);
    MagnitudeIsExact(ah, al);
    MagnitudeIsExact(bh, bl);
    BothNegative(a, b, if al == 0 then WORD else 0, if bl == 0 then WORD else 0);
    assert (-a) * (-b) == a * b;
  }

  lemma Commute(a: int, b: int)
    ensures a * b == b * a
  {
  }

  lemma DmultValueIsExact(ah: nat, al: nat, bh: nat, bl: nat)
    requires ah < WORD && al < WORD && bh < WORD && bl < WORD
    ensures
      var a, b := Pair(ah, al), Pair(bh, bl);
      DmultValue(ah, al, bh, bl) == Signed64(a) * Signed64(b) % QUADRUPLE <==> DmultIsExactFor(a, b)
  {
    hide Negated, MagnitudeOf;
    var (a, b, na, nb) := (Pair(ah, al), Pair(bh, bl), ah >= 0x8000_0000, bh >= 0x8000_0000);
    MagnitudeIsExact(ah, al);
    MagnitudeIsExact(bh, bl);
    PairParts(ah, al);
    PairParts(bh, bl);
    if na && nb {
      NegativeTimesNegative(ah, al, bh, bl);
    } else if na {
      NegativeTimesPositive(ah, al, b);
    } else if nb {
      NegativeTimesPositive(bh, bl, a);
      Commute(MagnitudeOf(bh, bl), a);
      Commute(Signed64(b), a);
      Commute(bl, al);
    } else {
      ProductIsSmall(a, b);
    }
  }

  /** DMULT: the two's complement 128-bit product in HI:LO, exactly under the condition. */
  lemma DmultIsCorrect(x: Ins, s: State<Flags>)
    requires Decoded(x) && Words(s.regs)
    ensures
      var a, b := Value(s.regs, x.r1), Value(s.regs, x.r2);
      var (wanted, condition) := (Signed64(a) * Signed64(b) % QUADRUPLE, DmultIsExactFor(a, b));
      var t := Exec(LowerDmult(x), s).regs;
      && (Product(t) == wanted <==> condition)
      && OnlyClobbers(s.regs, t)
  {
    hide Exec, LowerDmult, Product, DmultIsExactFor, DmultValue, Signed64, Pair;
    DmultRun(x, s);
    DmultValueIsExact(s.regs(Wide(x.r1)), s.regs(x.r1), s.regs(Wide(x.r2)), s.regs(x.r2));
  }
}
