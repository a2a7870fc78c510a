/** Where Translate_Registers goes wrong: two lists outside its domain that it accepts and
    changes the meaning of. Each breaks one clause of WellFormed and no other.
 */
module AllocationLimits {
  import opened Ir
  import opened Machine
  import opened RegisterAllocation

  /** MOV copies its second source; STR puts its first two sources into the world. */
  function Observe(): Semantics<(int, int)> {
    Semantics(
      (c, w) => true,
      (what: Operation, a, b, c, d, w) => if what.op == ArmStr then (0, 0, (a, b)) else (b, 0, w),
      (what: Operation) => what.op == ArmMov,
      (what: Operation) => false)
  }

  function Move(rd: Reg, r: Reg): Ins {
    Blank(ArmMov, AL).(rd1 := rd, r2 := r)
  }

  function Store(a: Reg, b: Reg): Ins {
    Blank(ArmStr, AL).(r1 := a, r2 := b)
  }

  /** Two moves, a third instruction, and a store of what the moves left. */
  function Program(third: Ins): seq<Ins> {
    [Move(1, REG_HOST_R0), Move(2, REG_HOST_R1), third, Store(1, 2)]
  }

  /** Register 1 is written again without being read in between, so its host register looks
      free in the gap and goes to register 2, which is live across the second write. */
  const OVERWRITE := Move(1, REG_HOST_R2)

  /** A branch inside the segment ends the scan, so register 1 looks free while it is live. */
  const BRANCH := Blank(IntBranch, NE)

  const POOL_FIRST: Reg := 0x204

  /** Visiting an instruction that names no emulated register changes nothing. */
  lemma VisitHosts(p: Progress, k: nat, f: nat)
    requires k < |p.code| && p.idx < |AVAILABLE| && f <= 6
    requires forall g | f <= g < 6 :: Field(p.code[k], g) >= REG_HOST
    ensures VisitIns(p, k, f) == Some(p)
    decreases 6 - f
  {
    if f < 6 {
      assert Field(p.code[k], f) >= REG_HOST;
      VisitHosts(p, k, f + 1);
    }
  }

  /** Visiting an instruction whose first destination is its only emulated register. */
  lemma VisitMove(p: Progress, k: nat, idx: nat)
    requires k < |p.code| && p.idx < |AVAILABLE| && idx < |AVAILABLE|
    requires IsAllocatable(p.code[k].rd1)
    requires var ins := p.code[k];
      ins.rd2 >= REG_HOST && ins.r1 >= REG_HOST && ins.r2 >= REG_HOST && ins.r3 >= REG_HOST && ins.r4 >= REG_HOST
    requires Probe(Renamed(p.code, k, p.code[k].rd1, Candidate(p.idx)), k, p.idx, 0) == Some(idx)
    ensures VisitIns(p, k, 0) == Some(Progress(Renamed(p.code, k, p.code[k].rd1, Candidate(p.idx)), idx))
  {
    var q := Progress(Renamed(p.code, k, p.code[k].rd1, Candidate(p.idx)), idx);
    assert VisitField(p, k, 0) == Some(q);
    VisitHosts(q, k, 1);
  }

  lemma FirstIsFree(third: Ins)
    requires third == OVERWRITE || third == BRANCH
    ensures Probe(Program(third), 0, 0, 0) == Some(0)
  {
    var c, h := Program(third), POOL_FIRST;
    assert NextUse(c, 4, h, 3) < 0;
    assert NextUse(c, 3, h, 2) < 0;
    assert NextUse(c, 2, h, 1) < 0;
  }

  /** The third instruction with register 1 renamed. */
  function Third(third: Ins): Ins {
    RenamedIns(third, 1, POOL_FIRST)
  }

  lemma RenamedOnce(third: Ins)
    requires third == OVERWRITE || third == BRANCH
    ensures var h := POOL_FIRST;
      Renamed(Program(third), 0, 1, h) == [Move(h, REG_HOST_R0), Move(2, REG_HOST_R1), Third(third), Store(h, 2)]
    ensures Third(third) == if third == BRANCH then BRANCH else Move(POOL_FIRST, REG_HOST_R2)
  {
  }

  lemma RenamedTwice(third: Ins)
    requires third == OVERWRITE || third == BRANCH
    ensures var h := POOL_FIRST;
      Renamed([Move(h, REG_HOST_R0), Move(2, REG_HOST_R1), Third(third), Store(h, 2)], 1, 2, h) ==
        [Move(h, REG_HOST_R0), Move(h, REG_HOST_R1), Third(third), Store(h, h)]
  {
  }

  lemma ProbeFirst(c: seq<Ins>)
    requires |c| > 2 && c[1] == Move(2, REG_HOST_R1) && (c[2] == Move(POOL_FIRST, REG_HOST_R2) || c[2] == BRANCH)
    ensures Probe(c, 0, 0, 0) == Some(0)
  {
    assert NextUse(c, 2, POOL_FIRST, 1) < 0;
  }

  lemma VisitRest(c: seq<Ins>, c1: seq<Ins>)
    requires |c| > 0 && |c1| == |c| && Probe(c, 0, 0, 0) == Some(0) &&
      VisitIns(Progress(c, 0), 0, 0) == Some(Progress(c1, 0))
    ensures Allocate(c) == VisitFrom(Progress(c1, 0), 1)
  {
    hide VisitIns;
  }

  /** In both programs registers 1 and 2 end up in the same host register. */
  lemma SharesOneRegister(third: Ins)
    requires third == OVERWRITE || third == BRANCH
    ensures var h := POOL_FIRST;
      Allocate(Program(third)) ==
        Some([Move(h, REG_HOST_R0), Move(h, REG_HOST_R1), Third(third), Store(h, h)])
  {
    hide Probe, NextUse, VisitIns, VisitFrom, Renamed, RenamedIns, Third;
    var c, h := Program(third), POOL_FIRST;
    var c1 := [Move(h, REG_HOST_R0), Move(2, REG_HOST_R1), Third(third), Store(h, 2)];
    FirstIsFree(third);
    RenamedOnce(third);
    ProbeFirst(c1);
    VisitMove(Progress(c, 0), 0, 0);
    RenamedTwice(third);
    FinishVisit(c1, [Move(h, REG_HOST_R0), Move(h, REG_HOST_R1), Third(third), Store(h, h)]);
    VisitRest(c, c1);
  }

  lemma FinishVisit(c1: seq<Ins>, c2: seq<Ins>)
    requires |c1| == 4 && c1[1] == Move(2, REG_HOST_R1) && c2 == Renamed(c1, 1, 2, POOL_FIRST)
    requires c2[3] == Store(POOL_FIRST, POOL_FIRST)
    requires c2[2] == Move(POOL_FIRST, REG_HOST_R2) || c2[2] == BRANCH
    ensures VisitFrom(Progress(c1, 0), 1) == Some(c2)
  {
    hide Probe, VisitIns;
    var idx: nat := if c2[2] == BRANCH then 0 else 1;
    ProbeSecond(c2);
    VisitMove(Progress(c1, 0), 1, idx);
    VisitHosts(Progress(c2, idx), 2, 0);
    VisitHosts(Progress(c2, idx), 3, 0);
    assert VisitFrom(Progress(c2, idx), 4) == Some(c2);
    assert VisitFrom(Progress(c2, idx), 3) == Some(c2);
  }

  lemma ProbeSecond(c: seq<Ins>)
    requires |c| == 4 && c[3] == Store(POOL_FIRST, POOL_FIRST) &&
      (c[2] == Move(POOL_FIRST, REG_HOST_R2) || c[2] == BRANCH)
    ensures Probe(c, 1, 0, 0) == Some(if c[2] == BRANCH then 0 else 1)
  {
    assert NextUse(c, 4, Candidate(1), 2) < 0;
    assert NextUse(c, 3, Candidate(1), 1) < 0;
    assert NextUse(c, 3, POOL_FIRST, 1) >= 0;
    if c[2] != BRANCH {
      assert Probe(c, 1, 0, 1) == Some(1);
    }
  }

  lemma OriginalStores(third: Ins, s: State<(int, int)>)
    requires third == OVERWRITE || third == BRANCH
    ensures Run(Observe(), Program(third), s).world ==
      (s.regs(if third == OVERWRITE then REG_HOST_R2 else REG_HOST_R0), s.regs(REG_HOST_R1))
  {
    hide Run;
    RunFour(Observe(), Move(1, REG_HOST_R0), Move(2, REG_HOST_R1), third, Store(1, 2), s);
  }

  lemma StoresOneValue(h: Reg, a: Ins, b: Ins, third: Ins, s: State<(int, int)>)
    ensures var w := Run(Observe(), [a, b, third, Store(h, h)], s).world; w.0 == w.1
  {
    hide Run;
    RunFour(Observe(), a, b, third, Store(h, h), s);
  }

  /** A run that falls through the branch, or writes register 1 again, stores two equal values
      where the original stores what it moved. */
  lemma MeaningIsLost(third: Ins, s: State<(int, int)>)
    requires third == OVERWRITE || third == BRANCH
    requires s.regs(REG_HOST_R0) != s.regs(REG_HOST_R1) && s.regs(REG_HOST_R1) != s.regs(REG_HOST_R2)
    ensures Allocate(Program(third)).Some?
    ensures var m := Observe();
      Run(m, Allocate(Program(third)).value, s).world != Run(m, Program(third), s).world
  {
    var h := POOL_FIRST;
    SharesOneRegister(third);
    OriginalStores(third, s);
    StoresOneValue(h, Move(h, REG_HOST_R0), Move(h, REG_HOST_R1), Third(third), s);
  }
}
