/** The flag register R5 is in the pool. The code in front of an internal loop does not mention it
    behind its test of the flag, and Translate_Registers gives it away.
 */
module AllocationFlag {
  import opened Ir
  import opened Machine
  import opened RegisterAllocation
  import opened AllocationCorrectness
  import opened AllocationLimits

  const TEST_FLAG := Blank(ArmTst, AL).(r1 := REG_EMU_FLAGS)
  const SKIP := Blank(IntBranch, NE)

  /** The code in front of an internal loop: the test of the flag, the branch over the first
      instruction, and two registers in use at the same time. */
  function PreLoop(): seq<Ins> {
    [TEST_FLAG, SKIP] + Stretch(1, 2)
  }

  function Stretch(a: Reg, b: Reg): seq<Ins> {
    [Move(a, REG_HOST_R0), Move(b, REG_HOST_R1), Store(a, b)]
  }

  lemma FirstCandidates(h: Reg)
    requires h == POOL_FIRST
    ensures Probe(PreLoop(), 0, 0, 0) == Some(0)
    ensures Probe([TEST_FLAG, SKIP] + Stretch(h, 2), 2, 0, 0) == Some(1)
  {
    var (c, d) := (PreLoop(), [TEST_FLAG, SKIP] + Stretch(h, 2));
    assert NextUse(c, 1, h, 0) == -2;
    assert NextUse(d, 3, h, 0) >= 0 by {
      assert NextUse(d, 4, h, 1) >= 0;
    }
    assert NextUse(d, 3, REG_EMU_FLAGS, 0) < 0 by {
      assert NextUse(d, 4, REG_EMU_FLAGS, 1) < 0;
    }
    assert Candidate(1) == REG_EMU_FLAGS;
  }

  lemma LastCandidate(h: Reg)
    requires h == POOL_FIRST
    ensures Probe([TEST_FLAG, SKIP] + Stretch(h, REG_EMU_FLAGS), 3, 1, 0) == Some(2)
  {
    var d := [TEST_FLAG, SKIP] + Stretch(h, REG_EMU_FLAGS);
    assert NextUse(d, 4, REG_EMU_FLAGS, 0) >= 0;
    assert NextUse(d, 4, Candidate(2), 0) < 0;
  }

  lemma VisitFront(p: Progress)
    requires |p.code| == 5 && p.code[..2] == [TEST_FLAG, SKIP] && p.idx < |AVAILABLE|
    ensures VisitFrom(p, 0) == VisitFrom(p, 2)
  {
    hide VisitIns;
    assert p.code[0] == TEST_FLAG && p.code[1] == SKIP;
    VisitHosts(p, 0, 0);
    VisitHosts(p, 1, 0);
    assert VisitFrom(p, 1) == VisitFrom(p, 2);
  }

  lemma FlagIsGivenAway()
    ensures Allocate(PreLoop()) == Some([TEST_FLAG, SKIP] + Stretch(POOL_FIRST, REG_EMU_FLAGS))
  {
    hide Probe, VisitIns, NextUse;
    var (c, h) := (PreLoop(), POOL_FIRST);
    FirstCandidates(h);
    VisitFront(Progress(c, 0));
    var d := Renamed(c, 2, 1, h);
    assert d == [TEST_FLAG, SKIP] + Stretch(h, 2);
    VisitMove(Progress(c, 0), 2, 1);
    var e := Renamed(d, 3, 2, REG_EMU_FLAGS);
    assert e == [TEST_FLAG, SKIP] + Stretch(h, REG_EMU_FLAGS);
    LastCandidate(h);
    VisitMove(Progress(d, 1), 3, 2);
    VisitHosts(Progress(e, 2), 4, 0);
    assert VisitFrom(Progress(e, 2), 5) == Some(e);
    assert VisitFrom(Progress(e, 2), 4) == Some(e);
    assert VisitFrom(Progress(d, 1), 3) == Some(e);
    assert VisitFrom(Progress(c, 0), 2) == Some(e);
  }

  lemma StretchRun(a: Reg, b: Reg, s: State<(int, int)>)
    requires a != b && a != REG_HOST_R1
    ensures Run(Observe(), Stretch(a, b), s).regs(REG_EMU_FLAGS) ==
      if b == REG_EMU_FLAGS then s.regs(REG_HOST_R1) else if a == REG_EMU_FLAGS then s.regs(REG_HOST_R0)
        else s.regs(REG_EMU_FLAGS)
  {
    RunThree(Observe(), Move(a, REG_HOST_R0), Move(b, REG_HOST_R1), Store(a, b), s);
  }

  lemma FrontRun(c: seq<Ins>, s: State<(int, int)>)
    ensures Run(Observe(), [TEST_FLAG, SKIP] + c, s) == Run(Observe(), c, s)
  {
    RunSplit(Observe(), [TEST_FLAG, SKIP], c, s);
    RunTwo(Observe(), TEST_FLAG, SKIP, s);
  }

  /** The flag the code in front of a loop should hand on is overwritten by an emulated register. The
      flag register is not kept: a register is mentioned for the first time behind its last mention. */
  lemma FlagIsLost(s: State<(int, int)>)
    ensures !IsKept(PreLoop(), REG_EMU_FLAGS) && Allocate(PreLoop()).Some?
    ensures Run(Observe(), PreLoop(), s).regs(REG_EMU_FLAGS) == s.regs(REG_EMU_FLAGS)
    ensures Run(Observe(), Allocate(PreLoop()).value, s).regs(REG_EMU_FLAGS) == s.regs(REG_HOST_R1)
  {
    hide Run, Allocate;
    FlagIsGivenAway();
    var c := PreLoop();
    forall i: nat ensures !IsLastMention(c, i, REG_EMU_FLAGS) {
      assert c[2].Mentions(1) && IsAllocatable(1);
      assert i == 0 ==> MentionedFrom(c, 0, 1) && !MentionedBefore(c, 0, 1);
    }
    FrontRun(Stretch(1, 2), s);
    FrontRun(Stretch(POOL_FIRST, REG_EMU_FLAGS), s);
    StretchRun(1, 2, s);
    StretchRun(POOL_FIRST, REG_EMU_FLAGS, s);
  }
}
