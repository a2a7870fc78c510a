/** Translate_ALU and the two caching passes together: a lowered program, run on cached registers,
    leaves in the register file in memory what the MIPS program leaves in its registers.
 */
module LoweredCachingRuns {
  import opened Ir
  import opened Machine
  import opened Arm
  import opened DoubleWords
  import opened LoweringSteps
  import opened LoweringCorrectness
  import opened Multiplication
  import opened LoweringRuns
  import opened RegisterCaching
  import opened LoweredCaching

  /** The registers as an instruction sees them that works directly on the register file. */
  function FileView(s: Cpu<Flags>): Regs {
    (r: Reg) => if r < REG_TEMP && !InFileOfLowered(r) then 0 else s.Get(r)
  }

  /** t holds in registers what s holds in the register file. */
  ghost predicate Views(s: Cpu<Flags>, t: State<Flags>) {
    && s.world == t.world
    && (forall r: Reg :: r >= REG_TEMP ==> s.regs(r) == t.regs(r))
    && (forall r: Reg :: r < REG_TEMP && InFileOfLowered(r) ==> s.mem(Address(s.Base(), r)) == t.regs(r))
  }

  lemma ViewOfFile(s: Cpu<Flags>)
    ensures Views(s, State(FileView(s), s.world))
  {
  }

  /** Writing a register of the file leaves the other words alone. */
  lemma PutIsSet(s: Cpu<Flags>, t: State<Flags>, rd: Reg, v: int)
    requires Views(s, t) && (rd < REG_TEMP ==> InFileOfLowered(rd)) && rd != REG_EMU_FP
    ensures Views(s.Put(rd, v), State(Set(t.regs, rd, v), t.world))
  {
    FileIsSeparate();
    forall r: Reg | r < REG_TEMP && InFileOfLowered(r) && rd < REG_TEMP && r != rd
      ensures Address(s.Base(), r) != Address(s.Base(), rd)
    {
      assert r in FileRegisters() && rd in FileRegisters();
    }
  }

  lemma WorldIsSet(s: Cpu<Flags>, t: State<Flags>, w: Flags)
    requires Views(s, t)
    ensures Views(s.(world := w), State(t.regs, w))
  {
  }

  /** One instruction run directly on the register file. */
  lemma DirectIsExecute(x: Ins, s: Cpu<Flags>, t: State<Flags>)
    requires Views(s, t) && IsFitting(x)
    ensures Views(ExecuteDirect(ArmSemantics(), x, s), Execute(ArmSemantics(), x, t))
  {
    hide Effect, Holds;
    var m := ArmSemantics();
    assert x.Reads(x.r1) && x.Reads(x.r2) && x.Reads(x.r3) && x.Reads(x.r4);
    assert s.Get(x.r1) == t.regs(x.r1) && s.Get(x.r2) == t.regs(x.r2);
    assert s.Get(x.r3) == t.regs(x.r3) && s.Get(x.r4) == t.regs(x.r4);
    if x.cond == AL || m.test(x.cond, s.world) {
      var (v1, v2, w) := m.effect(x.what, s.Get(x.r1), s.Get(x.r2), s.Get(x.r3), s.Get(x.r4), s.world);
      var s1 := if Writes1(m, x) then s.Put(x.rd1, v1) else s;
      var t1 := if Writes1(m, x) then State(Set(t.regs, x.rd1, v1), t.world) else t;
      if Writes1(m, x) {
        PutIsSet(s, t, x.rd1, v1);
      }
      var s2 := if Writes2(m, x) then s1.Put(x.rd2, v2) else s1;
      var t2 := if Writes2(m, x) then State(Set(t1.regs, x.rd2, v2), t1.world) else t1;
      if Writes2(m, x) {
        PutIsSet(s1, t1, x.rd2, v2);
      }
      WorldIsSet(s2, t2, w);
    }
  }

  lemma {:induction false} DirectIsExec(c: seq<Ins>, loaded: set<Reg>, s: Cpu<Flags>, t: State<Flags>)
    requires Views(s, t) && IsLocal(c, loaded)
    ensures Views(RunDirect(ArmSemantics(), c, s), Exec(c, t))
    decreases |c|
  {
    hide Views, IsFitting, ExecuteDirect, Execute;
    if c != [] {
      DirectIsExecute(c[0], s, t);
      DirectIsExec(c[1..], loaded + Emulated(c[0]), ExecuteDirect(ArmSemantics(), c[0], s),
                   Execute(ArmSemantics(), c[0], t));
    }
  }

  /** The register file holds the general registers, HI and LO of the MIPS machine. */
  ghost predicate FileMatches(s: Cpu<Flags>, m: Mips) {
    Matches(FileView(s), m)
  }

  lemma ViewsMatch(s: Cpu<Flags>, t: State<Flags>, m: Mips)
    requires Views(s, t)
    ensures FileMatches(s, m) <==> Matches(t.regs, m)
  {
    hide Pair;
    var f := FileView(s);
    assert Product(f) == Product(t.regs);
    forall r: Reg | r < 32 ensures Value(f, r) == Value(t.regs, r) {
      WideOf(r);
      assert f(r) == t.regs(r) && f(r + 64) == t.regs(r + 64);
    }
  }

  lemma SameOutcomeViews(s: Cpu<Flags>, u: Cpu<Flags>, t: State<Flags>)
    requires SameOutcome(s, u) && Views(s, t)
    ensures Views(u, t)
  {
    assert s.Base() == u.Base();
  }

  /** Lowered, cached and run, a program of supported instructions does to the register file what
      the MIPS program does to its registers. */
  lemma CachedRunRefinesMips(c: seq<Ins>, s: Cpu<Flags>, m: Mips)
    requires forall i :: 0 <= i < |c| ==> Supported(c[i])
    requires Words(FileView(s)) && DoubleWordValues(m) && FileMatches(s, m) && ExactRun(c, m)
    ensures LowerAll(c).Some?
    ensures FileMatches(RunCached(ArmSemantics(), StoreCached(LoadCached(LowerAll(c).value, {})), s), MipsRun(c, m))
  {
    hide Supported, LowerAll, Views, Matches, Cacheable, IsLocal, StoreCached, LoadCached, RunCached, Exec, Words;
    var t := State(FileView(s), s.world);
    LowerAllIsLocal(c);
    var d := LowerAll(c).value;
    ViewOfFile(s);
    LoweredRunRefinesMips(c, t, m);
    DirectIsExec(d, {}, s, t);
    LoweredIsCacheable(c);
    CachingRefinesMemory(ArmSemantics(), FileRegisters(), d, s);
    var (v, u) := (RunDirect(ArmSemantics(), d, s), RunCached(ArmSemantics(), StoreCached(LoadCached(d, {})), s));
    SameOutcomeViews(v, u, Exec(d, t));
    ViewsMatch(u, Exec(d, t), MipsRun(c, m));
  }
}
