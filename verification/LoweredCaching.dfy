/** Translate_ALU, then register caching: what the lowering leaves is code the caching passes are
    right on, and together they leave the MIPS program's registers in the register file.
 */
module LoweredCaching {
  import opened Ir
  import opened Arm
  import opened Encoding
  import opened Lowering
  import opened LoweringCorrectness
  import opened Multiplication
  import opened LoweringRuns
  import opened RegisterCaching

  /** The words of HI and LO. */
  predicate IsProductWord(r: Reg) {
    r == REG_MULTHI || r == REG_MULTLO || r == HI_UPPER || r == LO_UPPER
  }

  /** The emulated registers of lowered code: the general registers, HI and LO. */
  predicate InFileOfLowered(r: Reg) {
    r < 32 || 64 <= r < 96 || IsProductWord(r)
  }

  function FileRegisters(): set<Reg> {
    set r: Reg | r < REG_TEMP && InFileOfLowered(r)
  }

  lemma FileIsSeparate()
    ensures Separate(FileRegisters())
  {
    forall a, b | a in FileRegisters() && b in FileRegisters() && a != b
      ensures RegMemByteOffset(a) != RegMemByteOffset(b)
    {
      OffsetBits(a);
      OffsetBits(b);
    }
  }

  // ---------------------------------------------------------------------------------------
  // Lowered code is cacheable

  /** What holds of each lowered instruction on its own: its registers, and that a word of HI or
      LO that it reads is one it writes. */
  ghost predicate IsFitting(x: Ins) {
    && LeavesFileAlone(x)
    && (x.rd2 >= REG_TEMP || IsProductWord(x.rd2))
    && (forall r: Reg :: r < REG_TEMP && x.Mentions(r) ==> InFileOfLowered(r))
    && (forall r: Reg :: IsProductWord(r) && x.Reads(r) ==> x.Names(r))
  }

  /** A register the instruction may leave alone is one it reads. */
  ghost predicate WritesOrReads(x: Ins) {
    forall r: Reg :: r < REG_TEMP && MayKeep(ArmSemantics(), x, r) ==> x.Reads(r)
  }

  /** Code that is cacheable whatever fitting code follows it. */
  ghost predicate IsLocal(c: seq<Ins>, loaded: set<Reg>) {
    c != [] ==> FirstIsLocal(c, loaded) && IsLocal(c[1..], loaded + Emulated(c[0]))
  }

  ghost predicate FirstIsLocal(c: seq<Ins>, loaded: set<Reg>)
    requires c != []
  {
    && IsFitting(c[0])
    && (HasValues(c[0], loaded)
        || (|c| > 1 && IsCovered(ArmSemantics(), c[0], c[1]) && HasValues(c[0], loaded + {c[0].rd1})))
  }

  ghost predicate HasValues(x: Ins, loaded: set<Reg>) {
    forall r: Reg :: r < REG_TEMP && MayKeep(ArmSemantics(), x, r) ==> r in loaded || x.Reads(r)
  }

  lemma {:induction false} IsLocalMore(c: seq<Ins>, loaded: set<Reg>, more: set<Reg>)
    requires IsLocal(c, loaded)
    ensures IsLocal(c, loaded + more)
  {
    if c != [] {
      IsLocalMore(c[1..], loaded + Emulated(c[0]), more);
      assert loaded + Emulated(c[0]) + more == loaded + more + Emulated(c[0]);
      assert loaded + {c[0].rd1} + more == loaded + more + {c[0].rd1};
    }
  }

  lemma {:induction false} LoadedAfterGrows(c: seq<Ins>, loaded: set<Reg>)
    ensures loaded <= LoadedAfter(c, loaded)
    ensures forall i :: 0 <= i < |c| ==> Emulated(c[i]) <= LoadedAfter(c, loaded)
  {
    hide Emulated;
    if c != [] {
      LoadedAfterGrows(c[1..], loaded + Emulated(c[0]));
      forall i | 0 <= i < |c| ensures Emulated(c[i]) <= LoadedAfter(c, loaded) {
        assert i > 0 ==> c[i] == c[1..][i - 1];
      }
    }
  }

  lemma {:induction false} IsLocalAppend(c: seq<Ins>, d: seq<Ins>, loaded: set<Reg>)
    requires IsLocal(c, loaded) && IsLocal(d, LoadedAfter(c, loaded))
    ensures IsLocal(c + d, loaded)
    decreases |c|
  {
    hide *;
    if c == [] {
      NothingLoaded(loaded);
      assert c + d == d;
    } else {
      var (x, rest) := (c[0], c[1..]);
      LoadedAfterFirst(c, loaded);
      LocalFirst(c, loaded);
      IsLocalAppend(rest, d, loaded + Emulated(x));
      FirstStaysLocal(c, d, loaded);
      assert (c + d)[0] == x && (c + d)[1..] == rest + d;
      LocalFirst(c + d, loaded);
    }
  }

  lemma NothingLoaded(loaded: set<Reg>)
    ensures LoadedAfter([], loaded) == loaded
  {
  }

  lemma LoadedAfterFirst(c: seq<Ins>, loaded: set<Reg>)
    requires c != []
    ensures LoadedAfter(c, loaded) == LoadedAfter(c[1..], loaded + Emulated(c[0]))
  {
  }

  lemma LocalFirst(c: seq<Ins>, loaded: set<Reg>)
    requires c != []
    ensures IsLocal(c, loaded) <==> FirstIsLocal(c, loaded) && IsLocal(c[1..], loaded + Emulated(c[0]))
  {
    hide FirstIsLocal, Emulated;
  }

  /** Code that asks for no loaded registers may follow any other. */
  lemma IsLocalBehind(c: seq<Ins>, d: seq<Ins>, more: set<Reg>)
    requires IsLocal(c, {}) && IsLocal(d, more) && more <= LoadedAfter(c, {})
    ensures IsLocal(c + d, {})
  {
    hide IsLocal;
    IsLocalMore(d, more, LoadedAfter(c, {}));
    assert more + LoadedAfter(c, {}) == LoadedAfter(c, {});
    IsLocalAppend(c, d, {});
  }

  lemma FirstStaysLocal(c: seq<Ins>, d: seq<Ins>, loaded: set<Reg>)
    requires c != [] && FirstIsLocal(c, loaded)
    ensures FirstIsLocal(c + d, loaded)
  {
    hide IsFitting, HasValues, IsCovered;
    assert |c| > 1 ==> (c + d)[1] == c[1];
  }

  /** Instructions that write or read whatever they name. */
  lemma {:induction false} AreLocal(c: seq<Ins>, loaded: set<Reg>)
    requires forall i :: 0 <= i < |c| ==> IsFitting(c[i]) && WritesOrReads(c[i])
    ensures IsLocal(c, loaded)
  {
    if c != [] {
      hide IsFitting, Emulated;
      assert IsFitting(c[0]) && HasValues(c[0], loaded);
      AreLocal(c[1..], loaded + Emulated(c[0]));
    }
  }

  lemma {:induction false} FittingReads(c: seq<Ins>, loaded: set<Reg>, r: Reg)
    requires IsLocal(c, loaded) && IsProductWord(r) && ReadIn(c, r)
    ensures r in NamedIn(c)
  {
    if !c[0].Reads(r) {
      FittingReads(c[1..], loaded + Emulated(c[0]), r);
    }
  }

  lemma {:induction false} LocalIsCacheable(c: seq<Ins>, loaded: set<Reg>)
    requires IsLocal(c, loaded)
    ensures Cacheable(ArmSemantics(), c, loaded) && Uses(c, FileRegisters())
  {
    if c != [] {
      hide IsCovered;
      LocalIsCacheable(c[1..], loaded + Emulated(c[0]));
      if c[0].rd2 < REG_TEMP && ReadIn(c[1..], c[0].rd2) {
        FittingReads(c[1..], loaded + Emulated(c[0]), c[0].rd2);
      }
      forall i | 0 <= i < |c| ensures Emulated(c[i]) <= FileRegisters() {
        assert i > 0 ==> c[i] == c[1..][i - 1];
      }
    }
  }

  // ---------------------------------------------------------------------------------------
  // The sequences

  /** An instruction on general registers, HI, LO and registers that are not emulated. */
  predicate IsRegister(r: Reg) {
    (r < REG_TEMP ==> InFileOfLowered(r)) && r != REG_EMU_FP
  }

  predicate UsesRegisters(x: Ins) {
    IsRegister(x.rd1) && IsRegister(x.r1) && IsRegister(x.r2) && x.what.op != ArmLdr && x.what.op != ArmStr
  }

  /** One destination, which is not a word of HI or LO unless the instruction is a move of a
      constant or reads it. */
  predicate IsOrdinary(x: Ins) {
    && UsesRegisters(x) && x.rd2 == x.r3 == x.r4 == REG_NOT_USED
    && (IsProductWord(x.r1) || IsProductWord(x.r2) ==>
        (!IsProductWord(x.r1) || x.r1 == x.rd1) && (!IsProductWord(x.r2) || x.r2 == x.rd1))
  }

  lemma OrdinaryFits(x: Ins)
    requires IsOrdinary(x)
    ensures IsFitting(x)
    ensures x.rd1 >= REG_TEMP || (x.cond == AL && ArmSemantics().writes1(x.what)) || x.Reads(x.rd1) ==> WritesOrReads(x)
  {
  }

  /** An instruction whose destination has a value behind it: nothing is asked of the registers
      loaded before. */
  predicate IsPlainStep(x: Ins) {
    IsOrdinary(x) && (x.rd1 >= REG_TEMP || (x.cond == AL && ArmSemantics().writes1(x.what)) || x.Reads(x.rd1))
  }

  lemma PlainStepsAreLocal(c: seq<Ins>)
    requires forall i :: 0 <= i < |c| ==> IsPlainStep(c[i])
    ensures IsLocal(c, {})
  {
    hide IsPlainStep, IsLocal, IsFitting, WritesOrReads;
    forall i | 0 <= i < |c| ensures IsFitting(c[i]) && WritesOrReads(c[i]) {
      PlainStepFits(c[i]);
    }
    AreLocal(c, {});
  }

  lemma PlainStepFits(x: Ins)
    requires IsPlainStep(x)
    ensures IsFitting(x) && WritesOrReads(x)
  {
    OrdinaryFits(x);
  }

  lemma ArithmeticIsLocal(x: Ins)
    requires Decoded(x)
    ensures forall op | op in {ArmAnd, ArmOrr, ArmEor} :: IsLocal(LowerLogic(x, op), {})
    ensures IsLocal(LowerWrapping(x, ArmAdd, ArmAdc), {}) && IsLocal(LowerWrapping(x, ArmSub, ArmSbc), {})
  {
    hide IsLocal;
    WideOfAll(x);
    forall op | op in {ArmAnd, ArmOrr, ArmEor} ensures IsLocal(LowerLogic(x, op), {}) {
      PlainStepsAreLocal(LowerLogic(x, op));
    }
    PlainStepsAreLocal(LowerWrapping(x, ArmAdd, ArmAdc));
    PlainStepsAreLocal(LowerWrapping(x, ArmSub, ArmSbc));
  }

  lemma LeftShiftsAreLocal(x: Ins)
    requires Decoded(x) && x.what.shift <= 32
    ensures IsLocal(LowerDsll(x), {}) && IsLocal(LowerDsll32(x), {})
  {
    hide IsLocal;
    WideOfAll(x);
    PlainStepsAreLocal(LowerDsll(x));
    PlainStepsAreLocal(LowerDsll32(x));
  }

  lemma RightShiftsAreLocal(x: Ins)
    requires Decoded(x) && x.what.shift <= 32
    ensures IsLocal(LowerDsrl(x), {}) && IsLocal(LowerDsra(x), {}) && IsLocal(LowerDsrl32(x), {})
  {
    hide IsLocal;
    WideOfAll(x);
    PlainStepsAreLocal(LowerDsrl(x));
    PlainStepsAreLocal(LowerDsra(x));
    PlainStepsAreLocal(LowerDsrl32(x));
  }

  lemma AndiIsLocal(x: Ins)
    requires Decoded(x)
    ensures IsLocal(LowerAndi(x), {})
  {
    hide IsLocal, Imm8Shift;
    WideOfAll(x);
    PlainStepsAreLocal(LowerAndi(x));
  }

  lemma ImmediateIsLocal(x: Ins, op: Opcode)
    requires Decoded(x) && (op == ArmOrr || op == ArmEor)
    ensures IsLocal(LowerImmediate(x, op), {})
  {
    hide IsLocal, Imm8Shift;
    WideOfAll(x);
    PlainStepsAreLocal(LowerImmediate(x, op));
  }

  /** DSRA32 writes the high word by two instructions under opposite conditions. */
  lemma Dsra32IsLocal(x: Ins)
    requires Decoded(x)
    ensures IsLocal(LowerDsra32(x), {})
  {
    WideOfAll(x);
    var c := LowerDsra32(x);
    OrdinaryFits(c[0]);
    OrdinaryFits(c[1]);
    OrdinaryFits(c[2]);
    assert IsCovered(ArmSemantics(), c[1], c[2]);
    assert c[1..] == [c[1], c[2]] && c[2..] == [c[2]] && c[2..][1..] == [];
    var loaded := {} + Emulated(c[0]);
    assert c[1].rd1 in Emulated(c[1]);
    assert IsLocal(c[2..], loaded + Emulated(c[1]));
    assert FirstIsLocal(c[1..], loaded);
    assert FirstIsLocal(c, {});
  }

  /** A move to a register that has a value. */
  lemma MoveIsLocal(x: Ins)
    requires IsOrdinary(x)
    ensures IsLocal([x], Emulated(x))
  {
    OrdinaryFits(x);
    assert [x][1..] == [];
    assert IsLocal([], Emulated(x) + Emulated(x));
    assert HasValues(x, Emulated(x));
  }

  /** Two moves behind instructions that name their registers. */
  lemma MovesAreLocal(front: seq<Ins>, a: Ins, b: Ins)
    requires |front| >= 2 && forall i :: 0 <= i < |front| ==> IsPlainStep(front[i])
    requires IsOrdinary(a) && IsOrdinary(b) && Emulated(front[0]) == Emulated(a) && Emulated(front[1]) == Emulated(b)
    ensures IsLocal(front + [a] + [b], {})
  {
    hide IsLocal, LoadedAfter, IsPlainStep, IsOrdinary, Emulated;
    PlainStepsAreLocal(front);
    LoadedAfterGrows(front, {});
    MoveIsLocal(a);
    MoveIsLocal(b);
    IsLocalBehind(front, [a], Emulated(a));
    LoadedAfterGrows(front + [a], {});
    assert (front + [a])[1] == front[1];
    IsLocalBehind(front + [a], [b], Emulated(b));
  }

  /** An instruction that reads the register another one writes, and no other emulated one. */
  lemma NamesOne(a: Ins, b: Ins, r: Reg)
    requires a.r1 == r && a.rd1 == a.rd2 == a.r2 == a.r3 == a.r4 == REG_NOT_USED
    requires b.rd1 == r && b.rd2 == b.r1 == b.r3 == b.r4 == REG_NOT_USED && b.r2 >= REG_TEMP
    ensures Emulated(a) == Emulated(b)
  {
  }

  /** DADD and DSUB read the destination first. */
  lemma TrappingIsLocal(x: Ins, low: Opcode, high: Opcode)
    requires Decoded(x) && (low == ArmAdd || low == ArmSub) && (high == ArmAdc || high == ArmSbc)
    ensures IsLocal(LowerTrapping(x, low, high), {})
  {
    hide IsLocal, Wide, Emulated;
    WideOfAll(x);
    var c := LowerTrapping(x, low, high);
    assert c == c[..4] + [c[4]] + [c[5]];
    NamesOne(c[0], c[4], x.rd1);
    NamesOne(c[1], c[5], Wide(x.rd1));
    MovesAreLocal(c[..4], c[4], c[5]);
  }

  // ---------------------------------------------------------------------------------------
  // Multiplications

  lemma MultiplyFits(x: Ins, op: Opcode, hi: Reg, lo: Reg, r1: Reg, r2: Reg)
    requires x == Multiply(op, hi, lo, r1, r2) && (op == ArmUmull || op == ArmUmlal)
    requires IsProductWord(hi) && IsProductWord(lo) && REG_HOST <= r1 <= REG_HOST_R3 && REG_HOST <= r2 <= REG_HOST_R3
    ensures IsFitting(x) && WritesOrReads(x)
  {
  }

  lemma CrossProductsAreLocal()
    ensures IsLocal(CrossProducts(), {})
  {
    hide IsLocal, IsFitting, WritesOrReads;
    var c := CrossProducts();
    MultiplyFits(c[0], ArmUmlal, REG_MULTHI, LO_UPPER, REG_HOST_R1, REG_HOST_R2);
    MultiplyFits(c[1], ArmUmlal, REG_MULTHI, LO_UPPER, REG_HOST_R0, REG_HOST_R3);
    MultiplyFits(c[2], ArmUmlal, HI_UPPER, REG_MULTHI, REG_HOST_R1, REG_HOST_R3);
    AreLocal(c, {});
  }

  lemma LowProductIsLocal()
    ensures IsLocal([Multiply(ArmUmull, Wide(REG_MULTLO), REG_MULTLO, REG_HOST_R0, REG_HOST_R2)], {})
  {
    hide IsLocal, IsFitting, WritesOrReads;
    var x := Multiply(ArmUmull, Wide(REG_MULTLO), REG_MULTLO, REG_HOST_R0, REG_HOST_R2);
    MultiplyFits(x, ArmUmull, LO_UPPER, REG_MULTLO, REG_HOST_R0, REG_HOST_R2);
    AreLocal([x], {});
  }

  lemma LocalTogether(c: seq<Ins>, d: seq<Ins>)
    requires IsLocal(c, {}) && IsLocal(d, {})
    ensures IsLocal(c + d, {})
  {
    hide IsLocal;
    IsLocalBehind(c, d, {});
  }

  lemma DmultuIsLocal(x: Ins)
    requires Decoded(x)
    ensures IsLocal(LowerDmultu(x), {})
  {
    hide IsLocal;
    WideOfAll(x);
    var (c, n) := (LowerDmultu(x), [Multiply(ArmUmull, Wide(REG_MULTLO), REG_MULTLO, REG_HOST_R0, REG_HOST_R2)]);
    PlainStepsAreLocal(c[..6]);
    LowProductIsLocal();
    CrossProductsAreLocal();
    LocalTogether(n, CrossProducts());
    LocalTogether(c[..6], n + CrossProducts());
    assert c == c[..6] + (n + CrossProducts());
  }

  lemma MagnitudeIsLocal(first: Ins, r: Reg, lo: Reg, hi: Reg)
    requires r < 32 && REG_HOST <= lo <= REG_HOST_R3 && REG_HOST <= hi <= REG_HOST_R3
    requires IsOrdinary(first) && first.rd1 == REG_NOT_USED
    ensures IsLocal(Magnitude(first, r, lo, hi), {})
  {
    hide IsLocal;
    WideOf(r);
    PlainStepsAreLocal(Magnitude(first, r, lo, hi));
  }

  lemma FixSignIsLocal(r1: Reg, r2: Reg)
    requires r1 < 32 && r2 < 32
    ensures IsLocal(FixSign(r1, r2), {})
  {
    hide IsLocal;
    WideOf(r1);
    WideOf(r2);
    PlainStepsAreLocal(FixSign(r1, r2));
  }

  lemma MagnitudesAreLocal(x: Ins)
    requires Decoded(x)
    ensures
      var first := InstrI(x, ArmCmp, AL, REG_NOT_USED, Wide(x.r1), REG_NOT_USED, 0);
      var second := NewI(ArmCmp, AL, REG_NOT_USED, Wide(x.r2), REG_NOT_USED, 0);
      && IsLocal(Magnitude(first, x.r1, REG_HOST_R0, REG_HOST_R1), {})
      && IsLocal(Magnitude(second, x.r2, REG_HOST_R2, REG_HOST_R3), {})
  {
    hide IsLocal, Magnitude;
    WideOfAll(x);
    MagnitudeIsLocal(InstrI(x, ArmCmp, AL, REG_NOT_USED, Wide(x.r1), REG_NOT_USED, 0), x.r1, REG_HOST_R0, REG_HOST_R1);
    MagnitudeIsLocal(NewI(ArmCmp, AL, REG_NOT_USED, Wide(x.r2), REG_NOT_USED, 0), x.r2, REG_HOST_R2, REG_HOST_R3);
  }

  lemma ProductIsLocal()
    ensures IsLocal(LowProduct(), {})
  {
    hide IsLocal;
    var c := LowProduct();
    LowProductIsLocal();
    PlainStepsAreLocal(c[1..]);
    LocalTogether([c[0]], c[1..]);
    assert c == [c[0]] + c[1..];
  }

  /** The lowest partial product, and HI cleared. */
  function LowProduct(): seq<Ins> {
    [ Multiply(ArmUmull, Wide(REG_MULTLO), REG_MULTLO, REG_HOST_R0, REG_HOST_R2),
      NewI(ArmMov, AL, REG_MULTHI, REG_NOT_USED, REG_NOT_USED, 0),
      NewI(ArmMov, AL, Wide(REG_MULTHI), REG_NOT_USED, REG_NOT_USED, 0) ]
  }

  lemma DmultIsLocal(x: Ins)
    requires Decoded(x)
    ensures IsLocal(LowerDmult(x), {})
  {
    hide IsLocal, Magnitude, FixSign, CrossProducts, LowProduct, InstrI, NewI, Wide;
    var first := InstrI(x, ArmCmp, AL, REG_NOT_USED, Wide(x.r1), REG_NOT_USED, 0);
    var second := NewI(ArmCmp, AL, REG_NOT_USED, Wide(x.r2), REG_NOT_USED, 0);
    var (a, b) := (Magnitude(first, x.r1, REG_HOST_R0, REG_HOST_R1), Magnitude(second, x.r2, REG_HOST_R2, REG_HOST_R3));
    MagnitudesAreLocal(x);
    ProductIsLocal();
    CrossProductsAreLocal();
    FixSignIsLocal(x.r1, x.r2);
    LocalTogether(a, b);
    LocalTogether(a + b, LowProduct());
    LocalTogether(a + b + LowProduct(), CrossProducts());
    LocalTogether(a + b + LowProduct() + CrossProducts(), FixSign(x.r1, x.r2));
    DmultParts(x);
  }

  lemma DmultParts(x: Ins)
    ensures
      var first := InstrI(x, ArmCmp, AL, REG_NOT_USED, Wide(x.r1), REG_NOT_USED, 0);
      var second := NewI(ArmCmp, AL, REG_NOT_USED, Wide(x.r2), REG_NOT_USED, 0);
      LowerDmult(x) == Magnitude(first, x.r1, REG_HOST_R0, REG_HOST_R1)
        + Magnitude(second, x.r2, REG_HOST_R2, REG_HOST_R3)
        + LowProduct() + CrossProducts() + FixSign(x.r1, x.r2)
  {
    hide Magnitude, FixSign, CrossProducts, InstrI, NewI, Wide, Multiply;
  }

  // ---------------------------------------------------------------------------------------
  // Programs

  lemma LowerIsLocal(x: Ins)
    requires Supported(x)
    ensures Lower(x).Some? && IsLocal(Lower(x).value, {})
  {
    hide IsLocal, LowerAndi, LowerImmediate, LowerDmult, LowerDmultu, LowerLogic, LowerWrapping, LowerTrapping;
    hide LowerDsll, LowerDsrl, LowerDsra, LowerDsll32, LowerDsrl32, LowerDsra32;
    ArithmeticIsLocal(x);
    LeftShiftsAreLocal(x);
    RightShiftsAreLocal(x);
    AndiIsLocal(x);
    ImmediateIsLocal(x, ArmOrr);
    ImmediateIsLocal(x, ArmEor);
    Dsra32IsLocal(x);
    TrappingIsLocal(x, ArmAdd, ArmAdc);
    TrappingIsLocal(x, ArmSub, ArmSbc);
    DmultIsLocal(x);
    DmultuIsLocal(x);
  }

  lemma {:induction false} LowerAllIsLocal(c: seq<Ins>)
    requires forall i :: 0 <= i < |c| ==> Supported(c[i])
    ensures LowerAll(c).Some? && IsLocal(LowerAll(c).value, {})
  {
    if c != [] {
      hide IsLocal, Lower, Supported;
      LowerIsLocal(c[0]);
      LowerAllIsLocal(c[1..]);
      LocalTogether(Lower(c[0]).value, LowerAll(c[1..]).value);
    }
  }

  /** Whatever supported program is lowered, the caching passes are right on the result: it uses
      registers with words of their own, gives every conditionally written register a value, and
      its second destinations are written again wherever they are read. */
  lemma LoweredIsCacheable(c: seq<Ins>)
    requires forall i :: 0 <= i < |c| ==> Supported(c[i])
    ensures LowerAll(c).Some?
    ensures
      var d := LowerAll(c).value;
      Separate(FileRegisters()) && Uses(d, FileRegisters()) && Cacheable(ArmSemantics(), d, {})
  {
    hide IsLocal, LowerAll, Supported;
    FileIsSeparate();
    LowerAllIsLocal(c);
    LocalIsCacheable(LowerAll(c).value, {});
  }
}
