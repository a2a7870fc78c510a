/** Whole runs: lowering a straight-line program and running the ARM code gives the state the
    MIPS program gives. Also the pass itself, on the linked list of a segment.
 */
module LoweringRuns {
  import opened Ir
  import opened Bits
  import opened Machine
  import opened Arm
  import opened DoubleWords
  import opened Lowering
  import opened LoweringSteps
  import opened LoweringCorrectness
  import opened LoweringRefinement
  import opened Multiplication

  /** Every instruction lowered; nothing when one of them makes the pass abort. */
  function LowerAll(c: seq<Ins>): Option<seq<Ins>> {
    if c == [] then Some([])
    else if Lower(c[0]).Some? && LowerAll(c[1..]).Some? then Some(Lower(c[0]).value + LowerAll(c[1..]).value)
    else None
  }

  // ---------------------------------------------------------------------------------------
  // The MIPS side

  /** The 64-bit general registers and the 128 bits of HI:LO. */
  datatype Mips = Mips(gpr: Reg -> int, hilo: int)

  ghost predicate DoubleWordValues(m: Mips) {
    && (forall r: Reg :: 0 <= m.gpr(r) < DOUBLE)
    && 0 <= m.hilo < QUADRUPLE
  }

  function Result(x: Ins, m: Mips): int
    requires 0 <= m.gpr(x.r1) && 0 <= m.gpr(x.r2)
  {
    MipsResult(x, m.gpr(x.r1), m.gpr(x.r2), m.gpr(x.rd1))
  }

  ghost function MipsStep(x: Ins, m: Mips): Mips
    requires DoubleWordValues(m)
  {
    var a, b := m.gpr(x.r1), m.gpr(x.r2);
    if x.what.op.MipsDmult? then m.(hilo := Signed64(a) * Signed64(b) % QUADRUPLE)
    else if x.what.op.MipsDmultu? then m.(hilo := a * b % QUADRUPLE)
    else m.(gpr := Set(m.gpr, x.rd1, Result(x, m) % DOUBLE))
  }

  lemma MipsStepKeepsRange(x: Ins, m: Mips)
    requires DoubleWordValues(m)
    ensures DoubleWordValues(MipsStep(x, m))
  {
    hide MipsResult, Signed64;
  }

  ghost function MipsRun(c: seq<Ins>, m: Mips): Mips
    requires DoubleWordValues(m)
  {
    if c == [] then m
    else
      MipsStepKeepsRange(c[0], m);
      MipsRun(c[1..], MipsStep(c[0], m))
  }

  // ---------------------------------------------------------------------------------------
  // The instructions the result is about

  /** A decoded instruction of the modelled kind whose shifts fit their field. */
  predicate Supported(x: Ins) {
    && Decoded(x) && x.what.shift < 32 && Lower(x).Some?
    && (if x.what.op.MipsDmult? || x.what.op.MipsDmultu? then x.what.shift == 0
        else IsModelled(x.what.op) && (IsShift(x.what.op) || x.what.shift == 0) && Emittable(Lower(x).value))
  }

  /** The operands are among those for which the sequence is exact. */
  predicate IsExactOn(x: Ins, a: nat, b: nat)
    requires a < DOUBLE && b < DOUBLE && x.what.shift < 32
  {
    if x.what.op.MipsDmult? then DmultIsExactFor(a, b)
    else if x.what.op.MipsDmultu? then LostCarry(a / WORD, a % WORD, b / WORD, b % WORD) == 0
    else IsExact(x, a / WORD)
  }

  ghost predicate ExactRun(c: seq<Ins>, m: Mips)
    requires DoubleWordValues(m) && forall i :: 0 <= i < |c| ==> Supported(c[i])
  {
    c == [] ||
    (MipsStepKeepsRange(c[0], m);
     assert Supported(c[0]);
     IsExactOn(c[0], m.gpr(c[0].r1), m.gpr(c[0].r2)) && ExactRun(c[1..], MipsStep(c[0], m)))
  }

  /** The register pairs hold the general registers, and HI:LO the product registers. */
  ghost predicate Matches(regs: Regs, m: Mips) {
    && (forall r: Reg :: r < 32 ==> Value(regs, r) == m.gpr(r))
    && Product(regs) == m.hilo
  }

  // ---------------------------------------------------------------------------------------
  // The simulation

  lemma StepKeepsWords(x: Ins, s: State<Flags>)
    requires Words(s.regs)
    ensures Words(Step(x, s).regs)
  {
    hide Word, Operand2, AdderInputs, SumFlags, LogicFlags, Sum, Bitwise, Pow2;
    Pow2Values();
  }

  lemma {:induction false} ExecKeepsWords(c: seq<Ins>, s: State<Flags>)
    requires Words(s.regs)
    ensures Words(Exec(c, s).regs)
  {
    if c != [] {
      StepKeepsWords(c[0], s);
      ExecKeepsWords(c[1..], Step(c[0], s));
    }
  }

  /** The upper half of a pair. */
  lemma UpperHalf(regs: Regs, r: Reg)
    requires Words(regs) && r < 32
    ensures Value(regs, r) / WORD == regs(Wide(r)) && Value(regs, r) % WORD == regs(r)
    ensures 0 <= Value(regs, r) < DOUBLE
  {
    PairParts(regs(Wide(r)), regs(r));
  }

  lemma ProductRange(regs: Regs)
    requires Words(regs)
    ensures 0 <= Product(regs) < QUADRUPLE
  {
  }

  /** An ordinary instruction: the destination pair changes, the others and HI:LO do not. */
  lemma OrdinaryStep(x: Ins, s: State<Flags>, m: Mips)
    requires Supported(x) && !x.what.op.MipsDmult? && !x.what.op.MipsDmultu?
    requires Words(s.regs) && DoubleWordValues(m) && Matches(s.regs, m)
    requires IsExactOn(x, m.gpr(x.r1), m.gpr(x.r2))
    ensures Matches(Exec(Lower(x).value, s).regs, MipsStep(x, m))
  {
    hide Exec, Lower, Supported, MipsResult, IsExact, Words, Product, Value, IsModelled, Emittable;
    SupportedParts(x);
    var t := Exec(Lower(x).value, s).regs;
    UpperHalf(s.regs, x.r1);
    LoweringRefinesMips(x, s);
    var v := Result(x, m);
    assert Computes(x, s.regs, t, v);
    ExecKeepsWords(Lower(x).value, s);
    UpperHalf(t, x.rd1);
    SmallModulus(v);
    OthersMatch(x, s.regs, t, v);
  }

  lemma SupportedParts(x: Ins)
    requires Supported(x) && !x.what.op.MipsDmult? && !x.what.op.MipsDmultu?
    ensures Decoded(x) && IsModelled(x.what.op) && x.what.shift < 32 && Lower(x).Some?
    ensures (IsShift(x.what.op) || x.what.shift == 0) && Emittable(Lower(x).value)
  {
  }

  lemma SmallModulus(v: int)
    ensures 0 <= v < DOUBLE ==> v % DOUBLE == v
  {
  }

  lemma OthersMatch(x: Ins, s: Regs, t: Regs, v: int)
    requires Decoded(x) && Computes(x, s, t, v)
    ensures Value(t, x.rd1) == v
    ensures forall r: Reg {:trigger Value(t, r)} :: r < 32 && r != x.rd1 ==> Value(t, r) == Value(s, r)
    ensures Product(t) == Product(s)
  {
    hide Pair;
    WideOf(x.rd1);
    forall r: Reg | r < 32 && r != x.rd1 ensures Value(t, r) == Value(s, r) {
      WideOf(r);
    }
  }

  /** A multiplication: HI:LO changes and the general registers do not. */
  lemma MultiplyKeepsRegisters(s: Regs, t: Regs)
    requires OnlyClobbers(s, t)
    ensures forall r: Reg {:trigger Value(t, r)} :: r < 32 ==> Value(t, r) == Value(s, r)
  {
    hide Pair;
    forall r: Reg | r < 32 ensures Value(t, r) == Value(s, r) {
      WideOf(r);
    }
  }

  lemma MultiplyStep(x: Ins, s: State<Flags>, m: Mips)
    requires Supported(x) && (x.what.op.MipsDmult? || x.what.op.MipsDmultu?)
    requires Words(s.regs) && DoubleWordValues(m) && Matches(s.regs, m)
    requires IsExactOn(x, m.gpr(x.r1), m.gpr(x.r2))
    ensures Matches(Exec(Lower(x).value, s).regs, MipsStep(x, m))
  {
    hide Exec, Product, Value, Signed64, DmultIsExactFor, LostCarry, LowerDmult, LowerDmultu, OnlyClobbers, Words;
    var t := Exec(Lower(x).value, s).regs;
    UpperHalf(s.regs, x.r1);
    UpperHalf(s.regs, x.r2);
    if x.what.op.MipsDmult? {
      DmultIsCorrect(x, s);
    } else {
      DmultuIsCorrect(x, s);
      ExecKeepsWords(Lower(x).value, s);
      ProductRange(t);
      Modulus(Product(t), QUADRUPLE, 0, Product(t));
    }
    MultiplyKeepsRegisters(s.regs, t);
  }

  /** The main result: the lowered program simulates the MIPS program over the whole run. */
  lemma {:induction false} LoweredRunRefinesMips(c: seq<Ins>, s: State<Flags>, m: Mips)
    requires forall i :: 0 <= i < |c| ==> Supported(c[i])
    requires Words(s.regs) && DoubleWordValues(m) && Matches(s.regs, m) && ExactRun(c, m)
    ensures LowerAll(c).Some?
    ensures Matches(Exec(LowerAll(c).value, s).regs, MipsRun(c, m))
  {
    hide Lower, Matches, IsExactOn, Words, DoubleWordValues, MipsStep;
    if c != [] {
      var x := c[0];
      assert Supported(x);
      if x.what.op.MipsDmult? || x.what.op.MipsDmultu? {
        MultiplyStep(x, s, m);
      } else {
        OrdinaryStep(x, s, m);
      }
      var s1 := Exec(Lower(x).value, s);
      ExecKeepsWords(Lower(x).value, s);
      MipsStepKeepsRange(x, m);
      LoweredRunRefinesMips(c[1..], s1, MipsStep(x, m));
      ExecSplit(Lower(x).value, LowerAll(c[1..]).value, s);
    }
  }

  // ---------------------------------------------------------------------------------------
  // The pass on the list

  /** Overwrite ins, node k, by the first instruction of its lowering and insert the others. */
  method LowerStep(list: InstrList, ins: Instruction, ghost k: nat, code: seq<Ins>)
    returns (next: Instruction?, ghost j: nat)
    requires list.Valid() && k < |list.nodes| && ins == list.nodes[k] && |code| > 0
    modifies list`nodes, ins
    ensures list.Valid() && j <= |list.nodes| && next == list.NodeAt(j)
    ensures forall n :: n in list.nodes ==> n in old(list.nodes) || fresh(n)
    ensures list.Code()[..j] == old(list.Code())[..k] + code
    ensures list.Code()[j..] == old(list.Code())[k + 1..]
  {
    ghost var was := list.Code();
    ins.ins := code[0];
    assert list.Code()[..k + 1] == was[..k] + [code[0]];
    assert list.Code()[k + 1..] == was[k + 1..];
    assert [code[0]] + code[1..] == code;
    var last;
    last, j := list.InsertAllAfter(ins, k, code[1..]);
    next := last.next;
    j := j + 1;
  }

  lemma LowerAllStep(c: seq<Ins>, k: nat)
    requires k < |c|
    ensures LowerAll(c[k..]) ==
      if Lower(c[k]).Some? && LowerAll(c[k + 1..]).Some? then Some(Lower(c[k]).value + LowerAll(c[k + 1..]).value)
      else None
  {
    assert c[k..][1..] == c[k + 1..];
  }

  lemma LowerNothing()
    ensures LowerAll([]) == Some([])
  {
  }

  /** Operations of the host, branches inside the segment and no-ops. */
  predicate IsHostOperation(op: Opcode) {
    || op.NoOp? || op.IntBranch? || op.IntBranchLink?
    || IsAdder(op) || IsLogic(op) || op.ArmUmlal? || op.ArmUmull? || op.ArmBic? || op.ArmTst?
    || op.ArmLdr? || op.ArmLdrLit? || op.ArmStr? || op.ArmStrLit? || op.ArmStm? || op.ArmLdm?
    || op.ArmB? || op.ArmBl? || op.ArmBx?
  }

  /** Translate_ALU leaves what earlier passes have put in for the host as it is. */
  lemma {:induction false} HostCodeStays(c: seq<Ins>)
    requires forall i :: 0 <= i < |c| ==> IsHostOperation(c[i].what.op)
    ensures LowerAll(c) == Some(c)
  {
    hide IsHostOperation, Lower;
    if c != [] {
      HostStays(c[0]);
      HostCodeStays(c[1..]);
      assert [c[0]] + c[1..] == c;
    }
  }

  lemma HostStays(x: Ins)
    requires IsHostOperation(x.what.op)
    ensures Lower(x) == Some([x])
  {
    hide LowerDmult, LowerDmultu, LowerLogic, LowerTrapping, LowerWrapping, LowerDsll, LowerDsrl, LowerDsra;
    hide LowerDsll32, LowerDsrl32, LowerDsra32, LowerAndi, LowerImmediate;
  }

  /** The opcodes Lower is the source's switch for: the modelled ones, and those it has no case for, whose
      instructions stay. */
  predicate IsSwitched(op: Opcode) {
    !op.MipsSll? && !op.Other?
  }

  /** Translate_ALU on a list of instructions with such opcodes; false when the original would abort. */
  method TranslateAlu(list: InstrList) returns (ok: bool)
    requires list.Valid() && forall i :: 0 <= i < |list.Code()| ==> IsSwitched(list.Code()[i].what.op)
    modifies list`nodes, list.nodes
    ensures list.Valid()
    ensures ok <==> LowerAll(old(list.Code())).Some?
    ensures ok ==> list.Code() == LowerAll(old(list.Code())).value
  {
    hide Lower, LowerAll;
    var ins := list.head;
    ghost var k: nat, i: nat := 0, 0;
    ghost var was := list.Code();
    assert was[0..] == was && list.Code()[..0] == [];
    while ins != null
      invariant k <= |list.nodes| && ins == list.NodeAt(k) && list.Valid()
      invariant i <= |was| && list.Code()[k..] == was[i..]
      invariant forall n :: n in list.nodes ==> n in old(list.nodes) || fresh(n)
      invariant LowerAll(was).Some? <==> LowerAll(was[i..]).Some?
      invariant LowerAll(was).Some? ==> LowerAll(was).value == list.Code()[..k] + LowerAll(was[i..]).value
      decreases |was| - i
    {
      LowerAllStep(was, i);
      assert ins.ins == list.Code()[k..][0] == was[i];
      var q := Lower(ins.ins);
      if q.None? {
        return false;
      }
      assert ins in list.nodes;
      ghost var done := list.Code()[..k];
      ins, k := LowerStep(list, ins, k, q.value);
      if LowerAll(was).Some? {
        Associate(done, q.value, LowerAll(was[i + 1..]).value);
      }
      i := i + 1;
    }
    LowerNothing();
    assert was[i..] == [];
    ok := true;
  }
}
