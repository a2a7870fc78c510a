/** Translate_InterCode_Branch: branches between instructions of one segment become displacements
    counted in instructions, and the return address becomes a distance from the program counter.
 */
module InterCode {
  import opened Ir
  import opened Bits
  import opened Arm
  import opened Machine
  import opened CleanUp
  import opened Encoding
  import opened LoweringSteps

  /** FindInstructionIndex of the target; without a target the search runs to the end. */
  ghost function TargetIndex<T>(c: seq<Item<T>>, i: nat): (p: nat)
    requires i < |c|
    ensures p <= |c|
  {
    if c[i].target.Some? then IndexOf(c, c[i].target.value) else |c|
  }

  /** The instruction at position i once its target is known to be at position p. */
  function Resolved(x: Ins, i: nat, p: nat, hasTarget: bool): Ins {
    if x.what.op.IntBranch? then x.(what := x.what.(op := ArmB, imm := p - i))
    else if x.what.op.IntBranchLink? then x.(what := x.what.(op := ArmBl, imm := p - i))
    else if (x.what.op.ArmLdrLit? || x.what.op.ArmMov?) && x.rd1 == REG_HOST_LR && hasTarget then
      var offset := (p - i) * 4 - 8;
      if offset >= 0 then InstrI(x, ArmAdd, x.cond, REG_HOST_LR, REG_HOST_PC, REG_NOT_USED, offset)
      else InstrI(x, ArmSub, x.cond, REG_HOST_LR, REG_HOST_PC, REG_NOT_USED, -offset)
    else x
  }

  ghost function Resolve<T>(c: seq<Item<T>>): (d: seq<Ins>)
    ensures |d| == |c|
  {
    seq(|c|, i requires 0 <= i < |c| => Resolved(c[i].ins, i, TargetIndex(c, i), c[i].target.Some?))
  }

  /** Only branches inside the segment and the instructions that set the link register change, and these
      keep their condition and their destinations. */
  lemma OthersAreNotResolved<T>(c: seq<Item<T>>, i: nat)
    requires i < |c|
    ensures
      var (x, y) := (c[i].ins, Resolve(c)[i]);
      && (x.what.op != IntBranch && x.what.op != IntBranchLink && x.what.op != ArmLdrLit && x.what.op != ArmMov ==>
          y == x)
      && (x.what.op != IntBranch && x.what.op != IntBranchLink && !(x.rd1 == REG_HOST_LR && c[i].target.Some?) ==>
          y == x)
      && y.cond == x.cond && y.rd1 == x.rd1 && y.rd2 == x.rd2
  {
    assert Resolve(c)[i] == Resolved(c[i].ins, i, TargetIndex(c, i), c[i].target.Some?);
  }

  /** The address of instruction i of a segment emitted at base. */
  function AddressOf(base: nat, i: nat): (a: nat)
    ensures a < WORD
  {
    (base + 4 * i) % WORD
  }

  lemma AddressDistance(base: nat, i: nat, p: nat)
    ensures Word(AddressOf(base, i) + 4 * (p - i)) == (AddressOf(base, i) + 4 * (p - i)) % WORD == AddressOf(base, p)
  {
    DivMod(base + 4 * i, WORD);
    DivMod(base + 4 * p, WORD);
    var k := (base + 4 * p) / WORD - (base + 4 * i) / WORD;
    Quotient(AddressOf(base, i) + 4 * (p - i), WORD, k, AddressOf(base, p));
  }

  /** A resolved branch, emitted wherever the segment starts, is decoded as a branch to the
      address of its target, exactly as long as the displacement fits 24 bits. */
  lemma BranchReachesTarget<T>(c: seq<Item<T>>, i: nat, base: nat)
    requires i < |c| < 0x1000_0000 && (c[i].ins.what.op.IntBranch? || c[i].ins.what.op.IntBranchLink?)
    ensures
      var p, x := TargetIndex(c, i), Resolve(c)[i];
      && x.what.op == (if c[i].ins.what.op.IntBranch? then ArmB else ArmBl)
      && (DecodeBranch(AddressOf(base, i), EncodeRelative(x.what.imm)) == AddressOf(base, p)
          <==> -0x80_0000 + 2 <= p - i <= 0x80_0000 + 1)
  {
    hide EncodeRelative, DecodeBranch, AddressOf;
    var p := TargetIndex(c, i);
    RelativeRoundTrip(AddressOf(base, i), p - i);
    AddressDistance(base, i, p);
  }

  /** The instruction that sets the link register leaves the address of its target there; the
      program counter reads as the address of the instruction plus 8. */
  lemma LinkHoldsTarget<T>(c: seq<Item<T>>, i: nat, base: nat, s: State<Flags>)
    requires i < |c| && (c[i].ins.what.op.ArmLdrLit? || c[i].ins.what.op.ArmMov?)
    requires c[i].ins.rd1 == REG_HOST_LR && c[i].ins.rd2 == REG_NOT_USED && c[i].target.Some? && c[i].ins.cond == AL
    requires Words(s.regs) && s.regs(REG_HOST_PC) == Word(AddressOf(base, i) + 8)
    ensures Step(Resolve(c)[i], s).regs(REG_HOST_LR) == AddressOf(base, TargetIndex(c, i))
  {
    hide AddressOf, Word, TargetIndex, Step;
    var (x, p) := (c[i].ins, TargetIndex(c, i));
    var offset := (p - i) * 4 - 8;
    AddressDistance(base, i, p);
    LinkStep(x, AddressOf(base, i) + 8, offset, s);
  }

  /** The program counter plus a signed distance. */
  lemma LinkStep(x: Ins, pc: nat, offset: int, s: State<Flags>)
    requires Words(s.regs) && s.regs(REG_HOST_PC) == Word(pc) && x.cond == AL && x.rd2 == REG_NOT_USED
    ensures
      var add := InstrI(x, ArmAdd, x.cond, REG_HOST_LR, REG_HOST_PC, REG_NOT_USED, offset);
      offset >= 0 ==> Step(add, s).regs(REG_HOST_LR) == Word(pc + offset)
    ensures
      var sub := InstrI(x, ArmSub, x.cond, REG_HOST_LR, REG_HOST_PC, REG_NOT_USED, -offset);
      offset < 0 ==> Step(sub, s).regs(REG_HOST_LR) == Word(pc + offset)
  {
    hide Sum, Word, Not, Step, SumFlags, LogicResult;
    WordOf(s.regs(REG_HOST_PC));
    if offset >= 0 {
      SingleStep(InstrI(x, ArmAdd, x.cond, REG_HOST_LR, REG_HOST_PC, REG_NOT_USED, offset), s);
      AddedAddress(pc, offset);
    } else {
      SingleStep(InstrI(x, ArmSub, x.cond, REG_HOST_LR, REG_HOST_PC, REG_NOT_USED, -offset), s);
      SubtractedAddress(pc, -offset);
    }
  }

  lemma WordAddition(a: int, b: int)
    ensures Word(Word(a) + b) == Word(a + b) && Word(a + Word(b)) == Word(a + b)
  {
    DivMod(a, WORD);
    DivMod(b, WORD);
    DivMod(a + b, WORD);
    Quotient(Word(a) + b, WORD, (a + b) / WORD - a / WORD, Word(a + b));
    Quotient(a + Word(b), WORD, (a + b) / WORD - b / WORD, Word(a + b));
  }

  lemma AddedAddress(a: nat, d: nat)
    ensures Sum(Word(a), Word(d), false) == Word(a + d)
  {
    hide Word;
    WordAddition(a, d);
    WordAddition(Word(a), d);
  }

  lemma SubtractedAddress(a: nat, d: nat)
    ensures Sum(Word(a), Not(Word(d)), true) == Word(a - d)
  {
    DivMod(a, WORD);
    DivMod(d, WORD);
    DivMod(a - d, WORD);
    var v := Word(a) + Not(Word(d)) + 1;
    Quotient(v, WORD, (a - d) / WORD - a / WORD + d / WORD + 1, Word(a - d));
  }

  /** Clean up, resolve, emit: every branch that stays leads to where the first instruction
      that stays at or behind its old target has been put. */
  lemma CleanedBranchReachesTarget<T>(c: seq<Item<T>>, i: nat, base: nat)
    requires Distinct(c) && Closed(c) && HeadSafe(c) && Clean(c).Some?
    requires i < |c| && c[i].ins.what.op.IntBranch? && c[i].target.Some?
    requires |Clean(c).value| < 0x80_0000
    ensures
      var d, k := Clean(c).value, Before(c, i);
      && k < |d| && d[k].self == c[i].self
      && DecodeBranch(AddressOf(base, k), EncodeRelative(Resolve(d)[k].what.imm)) ==
         AddressOf(base, Before(c, IndexOf(c, c[i].target.value)))
  {
    hide EncodeRelative, DecodeBranch, AddressOf, IndexOf, Before, Resolve, Distinct, HeadSafe;
    var d := Clean(c).value;
    CleanUpErases(c);
    assert Kept(c, d, i);
    BranchReachesTarget(d, Before(c, i), base);
  }
}
