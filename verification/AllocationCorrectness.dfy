/** Register allocation preserves meaning. The allocator's result is the input renamed by one
    finite map; registers that share a host register never overlap; and a renaming without
    overlaps leaves every run of the list as it was.
 */
module AllocationCorrectness {
  import opened Ir
  import opened Machine
  import opened RegisterAllocation

  // ---------------------------------------------------------------------------------------
  // What the pass asks of its input

  ghost predicate MentionedBefore(c: seq<Ins>, i: nat, r: Reg) {
    exists j :: 0 <= j < i && j < |c| && c[j].Mentions(r)
  }

  ghost predicate MentionedFrom(c: seq<Ins>, i: nat, r: Reg) {
    exists j :: i <= j < |c| && c[j].Mentions(r)
  }

  ghost predicate ReadFrom(c: seq<Ins>, i: nat, r: Reg) {
    exists j :: i <= j < |c| && c[j].Reads(r)
  }

  ghost predicate Mentioned(c: seq<Ins>, r: Reg) {
    MentionedFrom(c, 0, r)
  }

  /** The register's first instruction defines it and does not read it. */
  predicate Defines<W>(m: Semantics<W>, ins: Ins, r: Reg) {
    && ins.cond == AL && !ins.Reads(r)
    && ((ins.rd1 == r && Writes1(m, ins)) || (ins.rd2 == r && Writes2(m, ins)))
  }

  /** An occurrence of r in instruction i of c is in order: the first one defines r, a later
      unconditional write also reads r, and the last one is a read. */
  ghost predicate InOrder<W>(m: Semantics<W>, c: seq<Ins>, i: nat, r: Reg)
    requires i < |c|
  {
    && (!MentionedBefore(c, i, r) ==> Defines(m, c[i], r))
    && (MentionedBefore(c, i, r) && c[i].Overwrites(r) ==> c[i].Reads(r))
    && ReadFrom(c, i, r)
  }

  /** Where a register that is not in the pool ends up. */
  function Home(r: Reg): Reg {
    if IsScratch(r) then REG_HOST + r - REG_TEMP else r
  }

  /** The input the allocator is right on: straight-line code whose allocatable registers are
      in order, in which an instruction naming an available host register reads it (as the
      flag register's TST, BIC and ORR do; the first instruction must not write one), and
      which does not mix a scratch register with the host register it becomes. */
  ghost predicate WellFormed<W>(m: Semantics<W>, c: seq<Ins>) {
    && (forall i :: 0 <= i < |c| ==> c[i].what.op != IntBranch)
    && (forall i, r: Reg {:trigger InOrder(m, c, i, r)} ::
          0 <= i < |c| && IsAllocatable(r) && c[i].Mentions(r) ==> InOrder(m, c, i, r))
    && (forall i, r: Reg {:trigger c[i].Mentions(r)} :: 0 <= i < |c| && IsAvailable(r) && c[i].Mentions(r) ==>
        c[i].Reads(r))
    && (|c| > 0 ==> !IsAvailable(c[0].rd1) && !IsAvailable(c[0].rd2))
    && Unmixed(c)
  }

  ghost predicate Unmixed(c: seq<Ins>) {
    forall r: Reg | IsScratch(r) && Mentioned(c, r) :: !Mentioned(c, Home(r))
  }

  // ---------------------------------------------------------------------------------------
  // The renaming

  type Renaming = map<Reg, Reg>

  function Look(sigma: Renaming, r: Reg): Reg {
    if r in sigma then sigma[r] else r
  }

  function MapIns(sigma: Renaming, ins: Ins): Ins {
    ins.(rd1 := Look(sigma, ins.rd1), rd2 := Look(sigma, ins.rd2),
         r1 := Look(sigma, ins.r1), r2 := Look(sigma, ins.r2),
         r3 := Look(sigma, ins.r3), r4 := Look(sigma, ins.r4))
  }

  function MapCode(sigma: Renaming, c: seq<Ins>): (d: seq<Ins>)
    ensures |d| == |c| && forall i :: 0 <= i < |c| ==> d[i] == MapIns(sigma, c[i])
  {
    seq(|c|, i requires 0 <= i < |c| => MapIns(sigma, c[i]))
  }

  /** One of the first f fields of the instruction is r. */
  predicate FieldBefore(ins: Ins, f: nat, r: Reg) {
    || (f > 0 && ins.rd1 == r) || (f > 1 && ins.rd2 == r) || (f > 2 && ins.r1 == r)
    || (f > 3 && ins.r2 == r) || (f > 4 && ins.r3 == r) || (f > 5 && ins.r4 == r)
  }

  /** Instructions before k, or fields before f of instruction k, mention r. */
  ghost predicate Visited(c: seq<Ins>, k: nat, f: nat, r: Reg)
    requires f <= 6
  {
    MentionedBefore(c, k, r) || (k < |c| && FieldBefore(c[k], f, r))
  }

  /** sigma renames exactly the emulated registers visited so far: scratch registers to their
      host registers, the others into the pool. */
  ghost predicate Assigns(sigma: Renaming, c: seq<Ins>, k: nat, f: nat)
    requires f <= 6
  {
    && (forall r: Reg :: r in sigma <==> r < REG_HOST && Visited(c, k, f, r))
    && (forall r: Reg :: r in sigma ==>
          if IsScratch(r) then sigma[r] == REG_HOST + r - REG_TEMP else IsAvailable(sigma[r]))
  }

  /** r carries a value into instruction i that some instruction from i on still mentions. */
  ghost predicate Live(c: seq<Ins>, r: Reg, i: nat) {
    (r >= REG_HOST || MentionedBefore(c, i, r)) && MentionedFrom(c, i, r)
  }

  /** Instruction i, which names b, would destroy a, held in the same host register. */
  ghost predicate Clobbers(sigma: Renaming, c: seq<Ins>, i: nat, a: Reg, b: Reg)
    requires i < |c|
  {
    a != b && c[i].Names(b) && Look(sigma, a) == Look(sigma, b) && Live(c, a, i + 1)
  }

  /** No two registers held in the same pool register overlap. */
  ghost predicate Disjoint(sigma: Renaming, c: seq<Ins>) {
    forall i, a: Reg, b: Reg :: 0 <= i < |c| && IsAvailable(Look(sigma, b)) ==> !Clobbers(sigma, c, i, a, b)
  }

  // ---------------------------------------------------------------------------------------
  // A renaming without overlaps preserves every run

  /** From its last mention on, in instruction i, no register is mentioned for the first time that
      could be given this pool register. */
  ghost predicate IsLastMention(c: seq<Ins>, i: nat, h: Reg) {
    && i < |c| && c[i].Mentions(h) && !MentionedFrom(c, i + 1, h)
    && (forall r: Reg :: IsAllocatable(r) && MentionedFrom(c, i, r) ==> MentionedBefore(c, i, r))
  }

  /** A register of the pool that the code names itself, as the flag register, and that is not given
      away behind its last mention. */
  ghost predicate IsKept(c: seq<Ins>, h: Reg) {
    IsAvailable(h) && exists i: nat :: IsLastMention(c, i, h)
  }

  /** The registers whose value outlives the segment: host registers outside the pool, unless
      a scratch register moved in, the scratch registers mentioned, and kept registers. */
  ghost predicate Lasting(c: seq<Ins>, r: Reg) {
    || (IsScratch(r) && Mentioned(c, r))
    || (r >= REG_HOST && !IsAvailable(r)
        && !(exists t: Reg | IsScratch(t) :: Mentioned(c, t) && Home(t) == r))
    || IsKept(c, r)
  }

  ghost predicate Agree(sigma: Renaming, c: seq<Ins>, i: nat, regs: Regs, regs': Regs) {
    forall r: Reg :: Lasting(c, r) || Live(c, r, i) ==> regs'(Look(sigma, r)) == regs(r)
  }

  /** Outside the pool, registers that are mentioned or last have homes of their own. */
  lemma HomesApart(sigma: Renaming, c: seq<Ins>, r: Reg, b: Reg)
    requires Unmixed(c) && Assigns(sigma, c, |c|, 0)
    requires Lasting(c, r) || Mentioned(c, r)
    requires r != b && Mentioned(c, b) && Look(sigma, r) == Look(sigma, b)
    ensures IsAvailable(Look(sigma, b))
  {
  }

  lemma {:induction false} FirstMention(c: seq<Ins>, n: nat, r: Reg) returns (k: nat)
    requires MentionedBefore(c, n, r) && n <= |c|
    ensures k < n && c[k].Mentions(r) && !MentionedBefore(c, k, r)
  {
    if MentionedBefore(c, n - 1, r) {
      k := FirstMention(c, n - 1, r);
    } else {
      k := n - 1;
    }
  }

  /** No register is given a kept one: it would be defined where the kept one is still mentioned
      later, or mentioned first behind the last mention. */
  lemma KeptIsNotGiven<W>(m: Semantics<W>, sigma: Renaming, c: seq<Ins>, h: Reg, b: Reg)
    requires WellFormed(m, c) && Assigns(sigma, c, |c|, 0) && Disjoint(sigma, c) && IsKept(c, h)
    requires b != h && Mentioned(c, b)
    ensures Look(sigma, b) != h
  {
    if b in sigma && sigma[b] == h {
      var i: nat :| IsLastMention(c, i, h);
      var k := FirstMention(c, |c|, b);
      assert InOrder(m, c, k, b);
      assert !Clobbers(sigma, c, k, h, b);
      assert c[i].Mentions(h) && Look(sigma, h) == h;
      assert k >= i;
      assert MentionedFrom(c, i, b);
    }
  }

  /** Registers needed after instruction i stay apart from the registers it names. */
  lemma ApartFromNamed<W>(m: Semantics<W>, sigma: Renaming, c: seq<Ins>, i: nat, r: Reg, b: Reg)
    requires WellFormed(m, c) && Assigns(sigma, c, |c|, 0) && Disjoint(sigma, c)
    requires i < |c| && c[i].Names(b) && r != b
    requires Lasting(c, r) || Live(c, r, i + 1)
    ensures Look(sigma, r) != Look(sigma, b)
  {
    hide IsKept;
    assert IsAvailable(Look(sigma, b)) ==> !Clobbers(sigma, c, i, r, b);
    assert Mentioned(c, b) by { assert c[i].Mentions(b); }
    if IsKept(c, r) {
      KeptIsNotGiven(m, sigma, c, r, b);
      KeptIsAvailable(c, r);
    } else if Look(sigma, r) == Look(sigma, b) {
      assert Lasting(c, r) || Mentioned(c, r);
      HomesApart(sigma, c, r, b);
    }
  }

  lemma KeptIsAvailable(c: seq<Ins>, h: Reg)
    requires IsKept(c, h)
    ensures IsAvailable(h) && Mentioned(c, h)
  {
    var i: nat :| IsLastMention(c, i, h);
    assert c[i].Mentions(h);
  }

  /** The registers an instruction reads hold the same values in both lists. */
  lemma ReadsAgree<W>(m: Semantics<W>, sigma: Renaming, c: seq<Ins>, i: nat, regs: Regs, regs': Regs, r: Reg)
    requires WellFormed(m, c) && Agree(sigma, c, i, regs, regs')
    requires i < |c| && c[i].Reads(r)
    ensures regs'(Look(sigma, r)) == regs(r)
  {
    assert MentionedFrom(c, i, r);
    if IsAllocatable(r) {
      assert InOrder(m, c, i, r);
    }
    assert IsScratch(r) ==> Mentioned(c, r);
    assert Lasting(c, r) || Live(c, r, i);
  }

  /** One instruction and its renamed form, started on equal operands, leave equal values in
      a register whose home no other destination shares. */
  lemma ExecuteAgrees<W>(m: Semantics<W>, sigma: Renaming, ins: Ins, s: State<W>, s': State<W>, r: Reg)
    requires forall a: Reg :: ins.Reads(a) ==> s'.regs(Look(sigma, a)) == s.regs(a)
    requires s.world == s'.world
    requires REG_NOT_USED !in sigma && REG_NOT_USED !in sigma.Values
    requires forall b: Reg :: ins.Names(b) && r != b ==> Look(sigma, r) != Look(sigma, b)
    requires s'.regs(Look(sigma, r)) == s.regs(r) || Defines(m, ins, r)
    ensures var t := Execute(m, ins, s); var t' := Execute(m, MapIns(sigma, ins), s');
      t.world == t'.world && t'.regs(Look(sigma, r)) == t.regs(r)
  {
    assert ins.Reads(ins.r1) && ins.Reads(ins.r2) && ins.Reads(ins.r3) && ins.Reads(ins.r4);
    assert ins.Names(ins.rd1) && ins.Names(ins.rd2);
  }

  lemma StepAgrees<W>(m: Semantics<W>, sigma: Renaming, c: seq<Ins>, i: nat, s: State<W>, s': State<W>)
    requires WellFormed(m, c) && Assigns(sigma, c, |c|, 0) && Disjoint(sigma, c)
    requires i < |c| && Agree(sigma, c, i, s.regs, s'.regs) && s.world == s'.world
    ensures var t := Execute(m, c[i], s); var t' := Execute(m, MapIns(sigma, c[i]), s');
      t.world == t'.world && Agree(sigma, c, i + 1, t.regs, t'.regs)
  {
    var ins := c[i];
    var t, t' := Execute(m, ins, s), Execute(m, MapIns(sigma, ins), s');
    forall a: Reg | ins.Reads(a) ensures s'.regs(Look(sigma, a)) == s.regs(a) {
      ReadsAgree(m, sigma, c, i, s.regs, s'.regs, a);
    }
    assert REG_NOT_USED !in sigma.Values;
    forall r: Reg | Lasting(c, r) || Live(c, r, i + 1)
      ensures t.world == t'.world && t'.regs(Look(sigma, r)) == t.regs(r)
    {
      forall b: Reg | ins.Names(b) && r != b ensures Look(sigma, r) != Look(sigma, b) {
        ApartFromNamed(m, sigma, c, i, r, b);
      }
      if !Lasting(c, r) && !Live(c, r, i) {
        assert !MentionedBefore(c, i, r) && ins.Mentions(r);
        assert InOrder(m, c, i, r);
      }
      ExecuteAgrees(m, sigma, ins, s, s', r);
    }
    assert Lasting(c, REG_NOT_USED);
  }

  /** The instructions from i up to n, in both lists. */
  lemma {:induction false} StretchAgrees<W>(m: Semantics<W>, sigma: Renaming, c: seq<Ins>, d: seq<Ins>, i: nat, n: nat,
                                            s: State<W>, s': State<W>)
    requires WellFormed(m, c) && Allocates(sigma, c, d)
    requires i <= n <= |c| && Agree(sigma, c, i, s.regs, s'.regs) && s.world == s'.world
    ensures var t := Run(m, c[i..n], s); var t' := Run(m, d[i..n], s');
      t.world == t'.world && Agree(sigma, c, n, t.regs, t'.regs)
    decreases n - i
  {
    if i < n {
      StepAgrees(m, sigma, c, i, s, s');
      StretchAgrees(m, sigma, c, d, i + 1, n, Execute(m, c[i], s), Execute(m, d[i], s'));
      assert c[i..n][1..] == c[i + 1..n] && d[i..n][1..] == d[i + 1..n];
    }
  }

  // ---------------------------------------------------------------------------------------
  // The allocator keeps registers that share a host register apart

  /** From k on, an instruction that overwrites r also reads it, and the last mention of r is a
      read. */
  ghost predicate ReadLast(c: seq<Ins>, k: nat, r: Reg) {
    && (forall i :: k <= i < |c| ==> c[i].what.op != IntBranch)
    && (forall i {:trigger c[i].Overwrites(r)} :: k <= i < |c| && c[i].Overwrites(r) ==> c[i].Reads(r))
    && (forall i {:trigger c[i].Mentions(r)} :: k <= i < |c| && c[i].Mentions(r) ==> ReadFrom(c, i, r))
  }

  lemma {:induction false} UnusedIsUnread(c: seq<Ins>, i: nat, r: Reg, x: nat)
    requires i <= |c| && ReadLast(c, i, r) && NextUse(c, i, r, x) < 0
    ensures forall j :: i <= j < |c| ==> !c[j].Mentions(r)
    decreases |c| - i
  {
    if i < |c| {
      assert ReadLast(c, i + 1, r);
      UnusedIsUnread(c, i + 1, r, x + 1);
    }
  }

  /** The register getNextRegister picks is not mentioned after the instruction it looks
      behind. */
  lemma {:induction false} ProbeIsUnused(c: seq<Ins>, k: nat, start: nat, tried: nat)
    requires k < |c| && start < |AVAILABLE| && tried < |AVAILABLE|
    requires forall h: Reg :: IsAvailable(h) ==> ReadLast(c, k + 1, h)
    requires Probe(c, k, start, tried).Some?
    ensures var idx := Probe(c, k, start, tried).value;
      idx < |AVAILABLE| && forall j :: k < j < |c| ==> !c[j].Mentions(Candidate(idx))
    decreases |AVAILABLE| - tried
  {
    var idx := Round(start, tried);
    if NextUse(c, k + 1, Candidate(idx), 0) < 0 {
      UnusedIsUnread(c, k + 1, Candidate(idx), 0);
    } else {
      ProbeIsUnused(c, k, start, tried + 1);
    }
  }

  /** The candidate host register is not mentioned after instruction k, and the destination
      fields of k still to be visited cannot clash with one that already holds it. */
  ghost predicate CandidateFree(c: seq<Ins>, k: nat, f: nat, h: Reg) {
    && (forall i :: k < i < |c| ==> !c[i].Mentions(h))
    && (k < |c| && f == 0 ==> c[k].rd2 != h)
    && (k < |c| && f <= 1 ==> c[k].rd1 != h)
  }

  /** The state of the pass when field f of instruction k is next. */
  ghost predicate Invariant(sigma: Renaming, c: seq<Ins>, p: Progress, k: nat, f: nat)
    requires f <= 6
  {
    && p.code == MapCode(sigma, c)
    && Assigns(sigma, c, k, f)
    && Disjoint(sigma, c)
    && p.idx < |AVAILABLE|
    && CandidateFree(p.code, k, f, Candidate(p.idx))
  }

  lemma RenamesOne(sigma: Renaming, ins: Ins, r: Reg, to: Reg)
    requires r !in sigma && r !in sigma.Values
    ensures RenamedIns(MapIns(sigma, ins), r, to) == MapIns(sigma[r := to], ins)
    ensures !ins.Mentions(r) ==> MapIns(sigma, ins) == MapIns(sigma[r := to], ins)
  {
    assert forall a: Reg :: Look(sigma, a) == r <==> a == r;
  }

  /** A register below REG_HOST in the field being visited is new, and renaming it from here
      on renames it everywhere. */
  lemma RenamesEverywhere(sigma: Renaming, c: seq<Ins>, k: nat, f: nat, to: Reg)
    requires k < |c| && f < 6 && Assigns(sigma, c, k, f)
    requires Field(MapIns(sigma, c[k]), f) < REG_HOST
    ensures var r := Field(MapIns(sigma, c[k]), f);
      && r == Field(c[k], f) && r !in sigma && !MentionedBefore(c, k, r) && c[k].Mentions(r)
      && Renamed(MapCode(sigma, c), k, r, to) == MapCode(sigma[r := to], c)
  {
    var r := Field(MapIns(sigma, c[k]), f);
    assert r == Field(c[k], f) && r !in sigma;
    assert !Visited(c, k, f, r);
    var d, e := Renamed(MapCode(sigma, c), k, r, to), MapCode(sigma[r := to], c);
    forall i | 0 <= i < |c| ensures d[i] == e[i] {
      assert i < k ==> !c[i].Mentions(r);
      RenamesOne(sigma, c[i], r, to);
    }
  }

  lemma AssignsNext(sigma: Renaming, c: seq<Ins>, k: nat, f: nat, to: Reg)
    requires k < |c| && f < 6 && Assigns(sigma, c, k, f)
    ensures var r := Field(c[k], f);
      && (r >= REG_HOST || r in sigma ==> Assigns(sigma, c, k, f + 1))
      && (r < REG_HOST && (if IsScratch(r) then to == REG_HOST + r - REG_TEMP else IsAvailable(to))
          ==> Assigns(sigma[r := to], c, k, f + 1))
  {
    forall a: Reg ensures Visited(c, k, f + 1, a) <==> Visited(c, k, f, a) || a == Field(c[k], f) {
      assert FieldBefore(c[k], f + 1, a) <==> FieldBefore(c[k], f, a) || a == Field(c[k], f);
    }
  }

  /** An allocatable register is first met in a destination field and needed later. */
  lemma FirstIsDestination<W>(m: Semantics<W>, c: seq<Ins>, k: nat, f: nat)
    requires WellFormed(m, c) && k < |c| && f < 6
    requires IsAllocatable(Field(c[k], f)) && !MentionedBefore(c, k, Field(c[k], f))
    ensures f <= 1 && MentionedFrom(c, k + 1, Field(c[k], f)) && !c[k].Reads(Field(c[k], f))
  {
    var r := Field(c[k], f);
    assert c[k].Mentions(r);
    assert InOrder(m, c, k, r);
  }

  /** Giving a new register the free candidate keeps sharers apart. */
  lemma AssignKeepsDisjoint(sigma: Renaming, c: seq<Ins>, k: nat, f: nat, h: Reg)
    requires k < |c| && f <= 1 && Disjoint(sigma, c) && IsAvailable(h)
    requires Field(c[k], f) < REG_HOST && Field(c[k], f) !in sigma
    requires !MentionedBefore(c, k, Field(c[k], f))
    requires CandidateFree(MapCode(sigma, c), k, f, h)
    ensures Disjoint(sigma[Field(c[k], f) := h], c)
  {
    var r := Field(c[k], f);
    var sigma' := sigma[r := h];
    var d := MapCode(sigma, c);
    forall i, a: Reg, b: Reg | 0 <= i < |c| && IsAvailable(Look(sigma', b))
      ensures !Clobbers(sigma', c, i, a, b)
    {
      assert IsAvailable(Look(sigma, b)) ==> !Clobbers(sigma, c, i, a, b);
      assert b == r && c[i].Names(b) ==> c[i].Mentions(r);
      assert a == r && c[i].Names(b) && Look(sigma, b) == h ==> d[i].Names(h);
      assert forall j :: i < j < |c| && c[j].Mentions(a) && Look(sigma, a) == h ==> d[j].Mentions(h);
    }
  }

  lemma ScratchKeepsDisjoint(sigma: Renaming, c: seq<Ins>, r: Reg)
    requires Disjoint(sigma, c) && IsScratch(r) && r !in sigma
    ensures Disjoint(sigma[r := REG_HOST + r - REG_TEMP], c)
  {
    var sigma' := sigma[r := REG_HOST + r - REG_TEMP];
    forall i, a: Reg, b: Reg | 0 <= i < |c| && IsAvailable(Look(sigma', b))
      ensures !Clobbers(sigma', c, i, a, b)
    {
      assert IsAvailable(Look(sigma, b)) ==> !Clobbers(sigma, c, i, a, b);
    }
  }

  /** A mention of r that is not the first: overwriting r also reads it, and r is read now or
      later. */
  ghost predicate LaterInOrder(c: seq<Ins>, i: nat, r: Reg)
    requires i < |c|
  {
    && (c[i].Overwrites(r) ==> c[i].Reads(r))
    && ReadFrom(c, i, r)
  }

  lemma PoolUseInOrder<W>(m: Semantics<W>, sigma: Renaming, c: seq<Ins>, k: nat, f: nat, i: nat, a: Reg)
    requires WellFormed(m, c) && f <= 6 && Assigns(sigma, c, k, f)
    requires k < i < |c| && c[i].Mentions(a) && IsAvailable(Look(sigma, a))
    ensures LaterInOrder(c, i, a)
  {
    if a in sigma {
      assert InOrder(m, c, i, a);
      assert Visited(c, k, f, a);
    } else {
      assert c[i].Reads(a);
    }
  }

  lemma MappedInOrder(sigma: Renaming, c: seq<Ins>, i: nat, a: Reg)
    requires i < |c| && c[i].Names(a) && LaterInOrder(c, i, a)
    ensures var d := MapCode(sigma, c); var h := Look(sigma, a);
      && (c[i].cond == AL ==> d[i].Reads(h))
      && ReadFrom(d, i, h)
  {
    var j :| i <= j < |c| && c[j].Reads(a);
    assert MapCode(sigma, c)[j].Reads(Look(sigma, a));
  }

  /** In renamed well-formed code, after the instruction being visited, every pool register is
      read where it is overwritten and read after its last mention. */
  lemma RenamedReadLast<W>(m: Semantics<W>, sigma: Renaming, c: seq<Ins>, k: nat, f: nat, h: Reg)
    requires WellFormed(m, c) && f <= 6 && k < |c| && Assigns(sigma, c, k, f) && IsAvailable(h)
    ensures ReadLast(MapCode(sigma, c), k + 1, h)
  {
    var d := MapCode(sigma, c);
    forall i | k < i < |c| && d[i].Names(h)
      ensures d[i].Overwrites(h) ==> d[i].Reads(h)
      ensures ReadFrom(d, i, h)
    {
      var a := if d[i].rd1 == h then c[i].rd1 else c[i].rd2;
      PoolUseInOrder(m, sigma, c, k, f, i, a);
      MappedInOrder(sigma, c, i, a);
    }
    assert forall i :: k < i < |c| ==> d[i].what.op != IntBranch;
  }

  /** A register mentioned later is not held in a host register that is not. */
  lemma HeldElsewhere(sigma: Renaming, c: seq<Ins>, k: nat, r: Reg, h: Reg)
    requires MentionedFrom(c, k, r)
    requires forall j :: k <= j < |c| ==> !MapCode(sigma, c)[j].Mentions(h)
    ensures Look(sigma, r) != h
  {
    var j :| k <= j < |c| && c[j].Mentions(r);
    assert MapCode(sigma, c)[j].Mentions(Look(sigma, r));
  }

  lemma RenamedReadLastAll<W>(m: Semantics<W>, sigma: Renaming, c: seq<Ins>, k: nat, f: nat)
    requires WellFormed(m, c) && f <= 6 && k < |c| && Assigns(sigma, c, k, f)
    ensures forall h: Reg :: IsAvailable(h) ==> ReadLast(MapCode(sigma, c), k + 1, h)
  {
    forall h: Reg | IsAvailable(h) ensures ReadLast(MapCode(sigma, c), k + 1, h) {
      RenamedReadLast(m, sigma, c, k, f, h);
    }
  }

  /** Giving a new register the candidate and looking for the next one keeps the invariant. */
  lemma AssignKeeps<W>(m: Semantics<W>, sigma: Renaming, c: seq<Ins>, k: nat, f: nat, h: Reg, start: nat, idx: nat)
    requires WellFormed(m, c) && k < |c| && f <= 1 && Assigns(sigma, c, k, f) && IsAvailable(h)
    requires IsAllocatable(Field(c[k], f)) && MentionedFrom(c, k + 1, Field(c[k], f))
    requires var d := MapCode(sigma[Field(c[k], f) := h], c);
      start < |AVAILABLE| && Probe(d, k, start, 0) == Some(idx)
    ensures var sigma' := sigma[Field(c[k], f) := h];
      && Assigns(sigma', c, k, f + 1)
      && idx < |AVAILABLE| && CandidateFree(MapCode(sigma', c), k, f + 1, Candidate(idx))
  {
    var sigma' := sigma[Field(c[k], f) := h];
    AssignsNext(sigma, c, k, f, h);
    RenamedReadLastAll(m, sigma', c, k, f + 1);
    ProbeIsUnused(MapCode(sigma', c), k, start, 0);
    HeldElsewhere(sigma', c, k + 1, Field(c[k], f), Candidate(idx));
  }

  lemma RenamingKeepsFree(c: seq<Ins>, k: nat, f: nat, r: Reg, to: Reg, h: Reg)
    requires k < |c| && CandidateFree(c, k, f, h) && h != to
    ensures CandidateFree(Renamed(c, k, r, to), k, f + 1, h)
  {
    forall i | k < i < |c| ensures !Renamed(c, k, r, to)[i].Mentions(h) {
      assert !c[i].Mentions(h);
    }
  }

  lemma ScratchKeeps(sigma: Renaming, c: seq<Ins>, p: Progress, k: nat, f: nat)
    requires k < |c| && f < 6 && Invariant(sigma, c, p, k, f) && IsScratch(Field(p.code[k], f))
    ensures var r := Field(p.code[k], f);
      Invariant(sigma[r := Home(r)], c, VisitField(p, k, f).value, k, f + 1)
  {
    var r := Field(p.code[k], f);
    RenamesEverywhere(sigma, c, k, f, Home(r));
    AssignsNext(sigma, c, k, f, Home(r));
    ScratchKeepsDisjoint(sigma, c, r);
    assert !IsAvailable(Home(r));
    RenamingKeepsFree(p.code, k, f, r, Home(r), Candidate(p.idx));
  }

  lemma VisitFieldKeeps<W>(m: Semantics<W>, sigma: Renaming, c: seq<Ins>, p: Progress, k: nat, f: nat)
    returns (sigma': Renaming)
    requires WellFormed(m, c) && k < |c| && f < 6 && Invariant(sigma, c, p, k, f)
    requires VisitField(p, k, f).Some?
    ensures Invariant(sigma', c, VisitField(p, k, f).value, k, f + 1)
  {
    var r := Field(p.code[k], f);
    if r >= REG_HOST {
      AssignsNext(sigma, c, k, f, 0);
      sigma' := sigma;
    } else if IsScratch(r) {
      ScratchKeeps(sigma, c, p, k, f);
      sigma' := sigma[r := Home(r)];
    } else {
      var h := Candidate(p.idx);
      RenamesEverywhere(sigma, c, k, f, h);
      FirstIsDestination(m, c, k, f);
      AssignKeepsDisjoint(sigma, c, k, f, h);
      AssignKeeps(m, sigma, c, k, f, h, p.idx, VisitField(p, k, f).value.idx);
      sigma' := sigma[r := h];
    }
  }

  lemma {:induction false} VisitInsKeeps<W>(m: Semantics<W>, sigma: Renaming, c: seq<Ins>, p: Progress, k: nat, f: nat)
    returns (sigma': Renaming)
    requires WellFormed(m, c) && k < |c| && f <= 6 && Invariant(sigma, c, p, k, f)
    requires VisitIns(p, k, f).Some?
    ensures Invariant(sigma', c, VisitIns(p, k, f).value, k, 6)
    decreases 6 - f
  {
    if f == 6 {
      sigma' := sigma;
    } else {
      sigma' := VisitFieldKeeps(m, sigma, c, p, k, f);
      sigma' := VisitInsKeeps(m, sigma', c, VisitField(p, k, f).value, k, f + 1);
    }
  }

  lemma VisitedNext(c: seq<Ins>, k: nat, r: Reg)
    requires k < |c|
    ensures Visited(c, k + 1, 0, r) <==> Visited(c, k, 6, r)
  {
    assert c[k].Mentions(r) <==> FieldBefore(c[k], 6, r);
  }

  /** Done with instruction k, the pass is at the start of instruction k + 1. */
  lemma NextInstruction(sigma: Renaming, c: seq<Ins>, p: Progress, k: nat)
    requires k < |c| && Invariant(sigma, c, p, k, 6)
    ensures Invariant(sigma, c, p, k + 1, 0)
  {
    forall r: Reg ensures Visited(c, k + 1, 0, r) <==> Visited(c, k, 6, r) {
      VisitedNext(c, k, r);
    }
    assert k + 1 < |c| ==> !p.code[k + 1].Mentions(Candidate(p.idx));
  }

  /** d is c renamed by sigma throughout, and sharers of a pool register are apart. */
  ghost predicate Allocates(sigma: Renaming, c: seq<Ins>, d: seq<Ins>) {
    d == MapCode(sigma, c) && Assigns(sigma, c, |c|, 0) && Disjoint(sigma, c)
  }

  lemma AtTheEnd(sigma: Renaming, c: seq<Ins>, p: Progress)
    requires Invariant(sigma, c, p, |c|, 0)
    ensures Allocates(sigma, c, p.code)
  {
  }

  lemma StepKeeps<W>(m: Semantics<W>, sigma: Renaming, c: seq<Ins>, p: Progress, k: nat)
    returns (sigma': Renaming, q: Progress)
    requires WellFormed(m, c) && k < |c| && Invariant(sigma, c, p, k, 0)
    requires VisitFrom(p, k).Some?
    ensures Invariant(sigma', c, q, k + 1, 0) && VisitFrom(q, k + 1) == VisitFrom(p, k)
  {
    q := VisitIns(p, k, 0).value;
    sigma' := VisitInsKeeps(m, sigma, c, p, k, 0);
    NextInstruction(sigma', c, q, k);
  }

  lemma {:induction false} VisitFromKeeps<W>(m: Semantics<W>, sigma: Renaming, c: seq<Ins>, p: Progress, k: nat)
    returns (sigma': Renaming)
    requires WellFormed(m, c) && k <= |c| && Invariant(sigma, c, p, k, 0)
    requires VisitFrom(p, k).Some?
    ensures Allocates(sigma', c, VisitFrom(p, k).value)
    decreases |c| - k
  {
    if k == |c| {
      AtTheEnd(sigma, c, p);
      sigma' := sigma;
    } else {
      var next, q := StepKeeps(m, sigma, c, p, k);
      sigma' := VisitFromKeeps(m, next, c, q, k + 1);
    }
  }

  /** Before the pass, the pool registers the code names itself are read where they occur. */
  lemma InitiallyReadLast<W>(m: Semantics<W>, c: seq<Ins>, h: Reg)
    requires WellFormed(m, c) && IsAvailable(h)
    ensures ReadLast(c, 1, h)
  {
    forall i | 1 <= i < |c| && c[i].Overwrites(h) ensures c[i].Reads(h) {
      assert c[i].Mentions(h);
    }
  }

  lemma InitialInvariant<W>(m: Semantics<W>, c: seq<Ins>, idx: nat)
    requires |c| > 0 && WellFormed(m, c) && Probe(c, 0, 0, 0) == Some(idx)
    ensures Invariant(map[], c, Progress(c, idx), 0, 0)
  {
    forall h: Reg | IsAvailable(h) ensures ReadLast(c, 1, h) {
      InitiallyReadLast(m, c, h);
    }
    ProbeIsUnused(c, 0, 0, 0);
    assert MapCode(map[], c) == c;
  }

  /** The allocator renames the whole list by one map, under which no two registers that share
      a pool register overlap. */
  lemma AllocationIsDisjoint<W>(m: Semantics<W>, c: seq<Ins>) returns (sigma: Renaming)
    requires |c| > 0 && WellFormed(m, c) && Allocate(c).Some?
    ensures Allocates(sigma, c, Allocate(c).value)
  {
    var idx := Probe(c, 0, 0, 0).value;
    InitialInvariant(m, c, idx);
    sigma := VisitFromKeeps(m, map[], c, Progress(c, idx), 0);
  }

  /** Two register files agree before the segment: the second holds each lasting register, and
      each pool register the code names itself, in its home. */
  ghost predicate SameStart(c: seq<Ins>, regs: Regs, regs': Regs) {
    forall r: Reg :: Lasting(c, r) || (IsAvailable(r) && Mentioned(c, r)) ==> regs'(Home(r)) == regs(r)
  }

  lemma LastingAtHome(sigma: Renaming, c: seq<Ins>, r: Reg)
    requires Assigns(sigma, c, |c|, 0)
    requires Lasting(c, r) || r >= REG_HOST
    ensures Look(sigma, r) == Home(r)
  {
    if IsScratch(r) {
      assert MentionedBefore(c, |c|, r);
    }
  }

  /** A register live at the start lasts, or is a pool register. */
  lemma LiveAtStart(c: seq<Ins>, r: Reg)
    requires Unmixed(c) && Live(c, r, 0)
    ensures r >= REG_HOST && Mentioned(c, r) && (Lasting(c, r) || IsAvailable(r))
  {
  }

  lemma AgreeAtStart(sigma: Renaming, c: seq<Ins>, regs: Regs, regs': Regs)
    requires Unmixed(c) && Assigns(sigma, c, |c|, 0) && SameStart(c, regs, regs')
    ensures Agree(sigma, c, 0, regs, regs')
  {
    forall r: Reg | Lasting(c, r) || Live(c, r, 0) ensures regs'(Look(sigma, r)) == regs(r) {
      if Live(c, r, 0) { LiveAtStart(c, r); }
      LastingAtHome(sigma, c, r);
    }
  }

  /** Register allocation preserves meaning: whatever the instructions mean, if the pass does
      not abort, the renamed list and the original are in the same world after any number of
      instructions, with every lasting register in its home, and every pool register the code
      names itself as it should be while it is mentioned further on. So they are wherever a
      branch out of the segment is taken. */
  lemma AllocationPreservesRuns<W>(m: Semantics<W>, c: seq<Ins>, n: nat, s: State<W>, s': State<W>)
    requires |c| > 0 && WellFormed(m, c) && Allocate(c).Some? && n <= |c|
    requires s.world == s'.world && SameStart(c, s.regs, s'.regs)
    ensures var t := Run(m, c[..n], s); var t' := Run(m, Allocate(c).value[..n], s');
      && t'.world == t.world
      && (forall r: Reg :: Lasting(c, r) ==> t'.regs(Home(r)) == t.regs(r))
      && (forall h: Reg :: IsAvailable(h) && MentionedFrom(c, n, h) ==> t'.regs(h) == t.regs(h))
  {
    var sigma := AllocationIsDisjoint(m, c);
    var d := Allocate(c).value;
    AgreeAtStart(sigma, c, s.regs, s'.regs);
    StretchAgrees(m, sigma, c, d, 0, n, s, s');
    assert c[0..n] == c[..n] && d[0..n] == d[..n];
    forall r: Reg | Lasting(c, r) || IsAvailable(r) ensures Look(sigma, r) == Home(r) {
      LastingAtHome(sigma, c, r);
    }
    assert forall h: Reg :: IsAvailable(h) && MentionedFrom(c, n, h) ==> Live(c, h, n);
  }
}
