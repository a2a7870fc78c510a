/** When Translate_Registers finishes: what the scan for the next use and the round through the pool
    find, and that the pass aborts exactly where seven registers are in use behind an instruction.
 */
module AllocationSuccess {
  import opened Ir
  import opened Machine
  import opened RegisterAllocation
  import opened AllocationCorrectness

  // ---------------------------------------------------------------------------------------
  // The scan for the next use

  /** Instruction j is the next to read r from i on, x instructions having been passed: up to it there is
      no branch inside the segment, and no unconditional write apart from one in the first. */
  ghost predicate IsNextRead(c: seq<Ins>, i: nat, r: Reg, x: nat, j: nat) {
    && i <= j < |c| && c[j].Reads(r)
    && (forall t :: i <= t < j ==> !c[t].Reads(r) && c[t].what.op != IntBranch)
    && c[j].what.op != IntBranch
    && (forall t :: i <= t < j && (t > i || x > 0) ==> !c[t].Overwrites(r))
  }

  /** The scan gives the distance to the next read if there is one, and something negative if not. */
  lemma {:induction false} NextUseExactly(c: seq<Ins>, i: nat, r: Reg, x: nat)
    requires i <= |c|
    ensures forall j :: IsNextRead(c, i, r, x, j) ==> NextUse(c, i, r, x) == x + j - i
    ensures NextUse(c, i, r, x) >= 0 ==> exists j :: IsNextRead(c, i, r, x, j)
    decreases |c| - i
  {
    if i < |c| && c[i].what.op != IntBranch {
      if c[i].Reads(r) {
        assert IsNextRead(c, i, r, x, i);
      } else if !(x > 0 && c[i].Overwrites(r)) {
        NextUseExactly(c, i + 1, r, x + 1);
        forall j: nat ensures IsNextRead(c, i, r, x, j) <==> IsNextRead(c, i + 1, r, x + 1, j) {
        }
        if NextUse(c, i, r, x) >= 0 {
          var j :| IsNextRead(c, i + 1, r, x + 1, j);
          assert IsNextRead(c, i, r, x, j);
        }
      }
    }
  }

  /** From instruction i on, register r is read before it is overwritten. */
  ghost predicate UsedFrom(c: seq<Ins>, i: nat, r: Reg) {
    exists j :: IsNextRead(c, i, r, 0, j)
  }

  lemma UsedFromExactly(c: seq<Ins>, i: nat, r: Reg)
    requires i <= |c|
    ensures NextUse(c, i, r, 0) >= 0 <==> UsedFrom(c, i, r)
  {
    NextUseExactly(c, i, r, 0);
  }

  // ---------------------------------------------------------------------------------------
  // The round through the pool

  /** The host register of the pool at position n from start on, counted round the table. */
  function PoolAt(start: nat, n: nat): (h: Reg)
    ensures IsAvailable(h)
  {
    REG_HOST + AVAILABLE[(start + n) % |AVAILABLE|]
  }

  lemma RoundIsPoolAt(start: nat, n: nat)
    requires start < |AVAILABLE| && n < |AVAILABLE|
    ensures Round(start, n) == (start + n) % |AVAILABLE| && Candidate(Round(start, n)) == PoolAt(start, n)
  {
  }

  lemma {:induction false} ProbeFrom(c: seq<Ins>, k: nat, start: nat, tried: nat) returns (n: nat)
    requires k < |c| && start < |AVAILABLE| && tried < |AVAILABLE|
    ensures tried <= n <= |AVAILABLE|
    ensures forall t :: tried <= t < n ==> UsedFrom(c, k + 1, PoolAt(start, t))
    ensures n == |AVAILABLE| ==> Probe(c, k, start, tried) == None
    ensures n < |AVAILABLE| ==>
      Probe(c, k, start, tried) == Some((start + n) % |AVAILABLE|) && !UsedFrom(c, k + 1, PoolAt(start, n))
    decreases |AVAILABLE| - tried
  {
    hide UsedFrom, NextUse, PoolAt, Round, Candidate;
    var h := PoolAt(start, tried);
    RoundIsPoolAt(start, tried);
    UsedFromExactly(c, k + 1, h);
    if !UsedFrom(c, k + 1, h) {
      n := tried;
    } else if tried + 1 == |AVAILABLE| {
      n := |AVAILABLE|;
    } else {
      n := ProbeFrom(c, k, start, tried + 1);
    }
  }

  /** Every register of the pool is on the way round. */
  lemma PoolIsCovered(start: nat, h: Reg) returns (n: nat)
    requires start < |AVAILABLE| && IsAvailable(h)
    ensures n < |AVAILABLE| && PoolAt(start, n) == h
  {
    var idx := if h == REG_HOST + 12 then 6 else h - (REG_HOST + 4);
    n := if idx >= start then idx - start else idx + |AVAILABLE| - start;
  }

  /** getNextRegister fails exactly when all registers of the pool are used again. */
  lemma ProbeFails(c: seq<Ins>, k: nat, start: nat)
    requires k < |c| && start < |AVAILABLE|
    ensures Probe(c, k, start, 0).None? <==> forall h: Reg :: IsAvailable(h) ==> UsedFrom(c, k + 1, h)
  {
    hide UsedFrom, PoolAt, Probe;
    var m := ProbeFrom(c, k, start, 0);
    if m == |AVAILABLE| {
      forall h: Reg | IsAvailable(h) ensures UsedFrom(c, k + 1, h) {
        var n := PoolIsCovered(start, h);
      }
    }
  }

  /** Otherwise it takes the first one, from the given one on and round the table, that is not. */
  lemma ProbeIsFirst(c: seq<Ins>, k: nat, start: nat, n: nat)
    requires k < |c| && start < |AVAILABLE| && n < |AVAILABLE|
    requires !UsedFrom(c, k + 1, PoolAt(start, n))
    requires forall t :: 0 <= t < n ==> UsedFrom(c, k + 1, PoolAt(start, t))
    ensures Probe(c, k, start, 0) == Some((start + n) % |AVAILABLE|)
  {
    hide UsedFrom, PoolAt, Probe;
    var m := ProbeFrom(c, k, start, 0);
  }

  // ---------------------------------------------------------------------------------------
  // Registers in use

  /** The registers in use behind instruction k once fields before f of it have been visited: the pool
      registers the code names itself, and the allocatable ones met so far, that are mentioned later. */
  ghost function InUse(c: seq<Ins>, k: nat, f: nat): set<Reg>
    requires f <= 6
  {
    set r: Reg | 0 <= r < REG_HOST + 16 && (IsAvailable(r) || (IsAllocatable(r) && Visited(c, k, f, r)))
                 && MentionedFrom(c, k + 1, r)
  }

  /** The host registers of the pool that are mentioned behind instruction k. */
  ghost function Taken(d: seq<Ins>, k: nat): set<Reg> {
    set h: Reg | 0 <= h < REG_HOST + 16 && IsAvailable(h) && MentionedFrom(d, k + 1, h)
  }

  ghost function Images(sigma: Renaming, s: set<Reg>): set<Reg> {
    set r | r in s :: Look(sigma, r)
  }

  lemma {:induction false} InjectiveImages(sigma: Renaming, s: set<Reg>)
    requires forall a, b :: a in s && b in s && Look(sigma, a) == Look(sigma, b) ==> a == b
    ensures |Images(sigma, s)| == |s|
    decreases |s|
  {
    if s != {} {
      var r :| r in s;
      InjectiveImages(sigma, s - {r});
      assert Images(sigma, s) == Images(sigma, s - {r}) + {Look(sigma, r)};
      assert Look(sigma, r) !in Images(sigma, s - {r});
    }
  }

  /** Where a visited register was defined. */
  lemma DefinedAt<W>(m: Semantics<W>, c: seq<Ins>, k: nat, f: nat, a: Reg) returns (i: nat)
    requires WellFormed(m, c) && k < |c| && f <= 6 && IsAllocatable(a) && Visited(c, k, f, a)
    ensures i <= k && c[i].Names(a)
  {
    assert MentionedBefore(c, k + 1, a) by {
      assert FieldBefore(c[k], f, a) ==> c[k].Mentions(a);
    }
    i := FirstMention(c, k + 1, a);
    assert InOrder(m, c, i, a);
  }

  /** A register in use behind instruction k, that is defined by then or held by the host, does not share
      its register with one defined later. */
  lemma LaterIsApart(sigma: Renaming, c: seq<Ins>, k: nat, i: nat, a: Reg, b: Reg)
    requires Disjoint(sigma, c) && i <= k < |c| && MentionedFrom(c, k + 1, a) && c[i].Names(b)
    requires IsAvailable(Look(sigma, b))
    requires a >= REG_HOST || MentionedBefore(c, i + 1, a)
    ensures a == b || Look(sigma, a) != Look(sigma, b)
  {
    assert !Clobbers(sigma, c, i, a, b);
  }

  /** Registers in use that are held in the same pool register are the same. */
  lemma UsersAreApart<W>(m: Semantics<W>, sigma: Renaming, c: seq<Ins>, k: nat, f: nat, a: Reg, b: Reg)
    requires WellFormed(m, c) && k < |c| && f <= 6 && Assigns(sigma, c, k, f) && Disjoint(sigma, c)
    requires a in InUse(c, k, f) && b in InUse(c, k, f) && Look(sigma, a) == Look(sigma, b)
    ensures a == b
  {
    if IsAllocatable(a) && IsAllocatable(b) {
      var i := DefinedAt(m, c, k, f, a);
      var j := DefinedAt(m, c, k, f, b);
      assert c[i].Mentions(a) && c[j].Mentions(b);
      if i <= j {
        LaterIsApart(sigma, c, k, j, a, b);
      } else {
        LaterIsApart(sigma, c, k, i, b, a);
      }
    } else if IsAllocatable(a) {
      var i := DefinedAt(m, c, k, f, a);
      LaterIsApart(sigma, c, k, i, b, a);
    } else if IsAllocatable(b) {
      var j := DefinedAt(m, c, k, f, b);
      LaterIsApart(sigma, c, k, j, a, b);
    }
  }

  lemma MentionedAs(sigma: Renaming, x: Ins, h: Reg) returns (a: Reg)
    requires MapIns(sigma, x).Mentions(h)
    ensures x.Mentions(a) && Look(sigma, a) == h
  {
    a := if Look(sigma, x.rd1) == h then x.rd1 else if Look(sigma, x.rd2) == h then x.rd2
         else if Look(sigma, x.r1) == h then x.r1 else if Look(sigma, x.r2) == h then x.r2
         else if Look(sigma, x.r3) == h then x.r3 else x.r4;
  }

  lemma TakenHasUser(sigma: Renaming, c: seq<Ins>, k: nat, f: nat, h: Reg) returns (a: Reg)
    requires k < |c| && f <= 6 && Assigns(sigma, c, k, f) && h in Taken(MapCode(sigma, c), k)
    ensures a in InUse(c, k, f) && Look(sigma, a) == h
  {
    hide Visited, MapIns;
    var d := MapCode(sigma, c);
    var j :| k + 1 <= j < |d| && d[j].Mentions(h);
    a := MentionedAs(sigma, c[j], h);
  }

  lemma UserIsTaken(sigma: Renaming, c: seq<Ins>, k: nat, f: nat, a: Reg)
    requires k < |c| && f <= 6 && Assigns(sigma, c, k, f) && a in InUse(c, k, f)
    ensures Look(sigma, a) in Taken(MapCode(sigma, c), k)
  {
    hide Visited;
    var j :| k + 1 <= j < |c| && c[j].Mentions(a);
    assert MapCode(sigma, c)[j].Mentions(Look(sigma, a));
  }

  /** The pool registers mentioned later in the renamed list are those that hold the registers in use. */
  lemma TakenAreImages(sigma: Renaming, c: seq<Ins>, k: nat, f: nat)
    requires k < |c| && f <= 6 && Assigns(sigma, c, k, f)
    ensures Taken(MapCode(sigma, c), k) == Images(sigma, InUse(c, k, f))
  {
    hide Taken, InUse, Assigns;
    forall h | h in Taken(MapCode(sigma, c), k) ensures h in Images(sigma, InUse(c, k, f)) {
      var a := TakenHasUser(sigma, c, k, f, h);
    }
    forall a | a in InUse(c, k, f) ensures Look(sigma, a) in Taken(MapCode(sigma, c), k) {
      UserIsTaken(sigma, c, k, f, a);
    }
  }

  lemma TakenCounted<W>(m: Semantics<W>, sigma: Renaming, c: seq<Ins>, k: nat, f: nat)
    requires WellFormed(m, c) && k < |c| && f <= 6 && Assigns(sigma, c, k, f) && Disjoint(sigma, c)
    ensures |Taken(MapCode(sigma, c), k)| == |InUse(c, k, f)|
  {
    hide InUse, Taken, WellFormed, Assigns, Disjoint;
    TakenAreImages(sigma, c, k, f);
    forall a, b | a in InUse(c, k, f) && b in InUse(c, k, f) && Look(sigma, a) == Look(sigma, b) ensures a == b {
      UsersAreApart(m, sigma, c, k, f, a, b);
    }
    InjectiveImages(sigma, InUse(c, k, f));
  }

  // ---------------------------------------------------------------------------------------
  // The pass

  ghost function Pool(): (s: set<Reg>)
    ensures |s| == |AVAILABLE| && forall h: Reg :: h in s <==> IsAvailable(h)
  {
    {REG_HOST + 4, REG_HOST + 5, REG_HOST + 6, REG_HOST + 7, REG_HOST + 8, REG_HOST + 9, REG_HOST + 12}
  }

  lemma AllOfThePool(s: set<Reg>)
    requires s <= Pool()
    ensures |s| == |AVAILABLE| <==> s == Pool()
    ensures |s| <= |AVAILABLE|
  {
    var rest := Pool() - s;
    assert Pool() == s + rest && s !! rest;
    assert |Pool()| == |s| + |rest|;
  }

  /** In renamed code a pool register is used again exactly if it is mentioned again. */
  lemma UsedIfMentioned(d: seq<Ins>, k: nat, h: Reg)
    requires k < |d| && ReadLast(d, k + 1, h)
    ensures UsedFrom(d, k + 1, h) <==> MentionedFrom(d, k + 1, h)
  {
    UsedFromExactly(d, k + 1, h);
    if NextUse(d, k + 1, h, 0) < 0 {
      UnusedIsUnread(d, k + 1, h, 0);
    } else {
      var j: nat :| IsNextRead(d, k + 1, h, 0, j);
      assert d[j].Mentions(h);
    }
  }

  lemma ProbeCounts(d: seq<Ins>, k: nat, start: nat)
    requires k < |d| && start < |AVAILABLE|
    requires forall h: Reg :: IsAvailable(h) ==> ReadLast(d, k + 1, h)
    ensures Probe(d, k, start, 0).None? <==> |Taken(d, k)| == |AVAILABLE|
    ensures |Taken(d, k)| <= |AVAILABLE|
  {
    hide UsedFrom, ReadLast, MentionedFrom, Probe;
    ProbeFails(d, k, start);
    AllOfThePool(Taken(d, k));
    forall h: Reg | IsAvailable(h) ensures UsedFrom(d, k + 1, h) <==> h in Taken(d, k) {
      UsedIfMentioned(d, k, h);
    }
    if Probe(d, k, start, 0).None? {
      assert Taken(d, k) == Pool();
    }
  }

  /** The round through the pool behind a visited field. */
  lemma ProbeInUse<W>(m: Semantics<W>, sigma: Renaming, c: seq<Ins>, k: nat, f: nat, start: nat)
    requires WellFormed(m, c) && k < |c| && f <= 6 && Assigns(sigma, c, k, f) && Disjoint(sigma, c)
    requires start < |AVAILABLE|
    ensures Probe(MapCode(sigma, c), k, start, 0).None? <==> |InUse(c, k, f)| == |AVAILABLE|
    ensures |InUse(c, k, f)| <= |AVAILABLE|
  {
    hide InUse, Taken, Assigns, Disjoint, WellFormed, Probe, ReadLast;
    RenamedReadLastAll(m, sigma, c, k, f);
    TakenCounted(m, sigma, c, k, f);
    ProbeCounts(MapCode(sigma, c), k, start);
  }

  /** In use once field f of instruction k is visited: at most one register more. */
  lemma InUseStep(c: seq<Ins>, k: nat, f: nat)
    requires k < |c| && f < 6
    ensures InUse(c, k, f) <= InUse(c, k, f + 1)
    ensures !IsAllocatable(Field(c[k], f)) || Visited(c, k, f, Field(c[k], f)) ==> InUse(c, k, f + 1) == InUse(c, k, f)
  {
    hide MentionedFrom;
    forall r: Reg ensures Visited(c, k, f + 1, r) <==> Visited(c, k, f, r) || r == Field(c[k], f) {
      assert FieldBefore(c[k], f + 1, r) <==> FieldBefore(c[k], f, r) || r == Field(c[k], f);
    }
  }

  lemma MoreInUse(s: set<Reg>, t: set<Reg>)
    requires s <= t
    ensures |s| <= |t|
  {
    assert t == s + (t - s);
  }

  lemma RenamedIsVisited(sigma: Renaming, c: seq<Ins>, k: nat, f: nat)
    requires k < |c| && f < 6 && Assigns(sigma, c, k, f) && Field(MapIns(sigma, c[k]), f) >= REG_HOST
    ensures !IsAllocatable(Field(c[k], f)) || Visited(c, k, f, Field(c[k], f))
  {
    hide Visited;
  }

  lemma VisitFieldSucceeds<W>(m: Semantics<W>, sigma: Renaming, c: seq<Ins>, p: Progress, k: nat, f: nat)
    requires WellFormed(m, c) && k < |c| && f < 6 && Invariant(sigma, c, p, k, f)
    requires |InUse(c, k, f)| < |AVAILABLE|
    ensures VisitField(p, k, f).Some? <==> |InUse(c, k, f + 1)| < |AVAILABLE|
  {
    hide InUse, Visited, WellFormed, Disjoint, Probe, Renamed, Assigns, CandidateFree;
    InUseStep(c, k, f);
    var r := Field(p.code[k], f);
    if r < REG_HOST {
      RenamesEverywhere(sigma, c, k, f, Candidate(p.idx));
    } else {
      RenamedIsVisited(sigma, c, k, f);
    }
    if IsAllocatable(r) {
      var h := Candidate(p.idx);
      FirstIsDestination(m, c, k, f);
      AssignKeepsDisjoint(sigma, c, k, f, h);
      AssignsNext(sigma, c, k, f, h);
      ProbeInUse(m, sigma[r := h], c, k, f + 1, p.idx);
    }
  }

  lemma InvariantSize(sigma: Renaming, c: seq<Ins>, p: Progress, k: nat, f: nat)
    requires f <= 6 && Invariant(sigma, c, p, k, f)
    ensures |p.code| == |c| && p.idx < |AVAILABLE|
  {
  }

  lemma {:induction false} VisitInsSucceeds<W>(m: Semantics<W>, sigma: Renaming, c: seq<Ins>, p: Progress, k: nat,
                                               f: nat)
    requires WellFormed(m, c) && k < |c| && f <= 6 && Invariant(sigma, c, p, k, f)
    requires |InUse(c, k, f)| < |AVAILABLE|
    ensures VisitIns(p, k, f).Some? <==> |InUse(c, k, 6)| < |AVAILABLE|
    decreases 6 - f
  {
    hide InUse, Visited, WellFormed, Invariant, VisitField;
    InvariantSize(sigma, c, p, k, f);
    if f < 6 {
      VisitFieldSucceeds(m, sigma, c, p, k, f);
      if VisitField(p, k, f).Some? {
        var sigma' := VisitFieldKeeps(m, sigma, c, p, k, f);
        VisitInsSucceeds(m, sigma', c, VisitField(p, k, f).value, k, f + 1);
      } else {
        InUseGrows(c, k, f + 1);
        MoreInUse(InUse(c, k, f + 1), InUse(c, k, 6));
      }
    }
  }

  lemma {:induction false} InUseGrows(c: seq<Ins>, k: nat, f: nat)
    requires k < |c| && f <= 6
    ensures InUse(c, k, f) <= InUse(c, k, 6)
    decreases 6 - f
  {
    hide InUse;
    if f < 6 {
      InUseStep(c, k, f);
      InUseGrows(c, k, f + 1);
    }
  }

  /** The registers in use behind instruction k: pool registers the code names itself, and allocatable ones
      mentioned up to k, that are mentioned later. */
  ghost function InUseBehind(c: seq<Ins>, k: nat): set<Reg> {
    set r: Reg | 0 <= r < REG_HOST + 16 && (IsAvailable(r) || (IsAllocatable(r) && MentionedBefore(c, k + 1, r)))
                 && MentionedFrom(c, k + 1, r)
  }

  lemma BehindInstruction(c: seq<Ins>, k: nat)
    requires k < |c|
    ensures InUse(c, k, 6) == InUseBehind(c, k)
    ensures k + 1 < |c| ==> InUse(c, k + 1, 0) <= InUseBehind(c, k)
  {
    forall r: Reg ensures Visited(c, k, 6, r) <==> MentionedBefore(c, k + 1, r) {
      VisitedNext(c, k, r);
    }
  }

  lemma {:induction false} VisitFromSucceeds<W>(m: Semantics<W>, sigma: Renaming, c: seq<Ins>, p: Progress, k: nat)
    requires WellFormed(m, c) && k <= |c| && Invariant(sigma, c, p, k, 0)
    requires k < |c| ==> |InUse(c, k, 0)| < |AVAILABLE|
    ensures VisitFrom(p, k).Some? <==> forall i :: k <= i < |c| ==> |InUseBehind(c, i)| < |AVAILABLE|
    decreases |c| - k
  {
    hide InUse, InUseBehind, WellFormed, Invariant, VisitIns;
    InvariantSize(sigma, c, p, k, 0);
    if k < |c| {
      VisitInsSucceeds(m, sigma, c, p, k, 0);
      BehindInstruction(c, k);
      if VisitIns(p, k, 0).Some? {
        var q := VisitIns(p, k, 0).value;
        var sigma' := VisitInsKeeps(m, sigma, c, p, k, 0);
        NextInstruction(sigma', c, q, k);
        if k + 1 < |c| {
          MoreInUse(InUse(c, k + 1, 0), InUseBehind(c, k));
        }
        VisitFromSucceeds(m, sigma', c, q, k + 1);
      }
    }
  }

  /** Translate_Registers finishes on a list exactly if fewer registers than the pool has are in use behind
      each instruction. */
  lemma AllocationSucceeds<W>(m: Semantics<W>, c: seq<Ins>)
    requires |c| > 0 && WellFormed(m, c)
    ensures Allocate(c).Some? <==> forall i :: 0 <= i < |c| ==> |InUseBehind(c, i)| < |AVAILABLE|
  {
    hide InUse, InUseBehind, WellFormed, Invariant, Probe, VisitFrom;
    StartsEmpty(c);
    ProbeInUse(m, map[], c, 0, 0, 0);
    if Probe(c, 0, 0, 0).Some? {
      var idx := Probe(c, 0, 0, 0).value;
      InitialInvariant(m, c, idx);
      VisitFromSucceeds(m, map[], c, Progress(c, idx), 0);
    } else {
      InUseGrows(c, 0, 0);
      MoreInUse(InUse(c, 0, 0), InUse(c, 0, 6));
      BehindInstruction(c, 0);
    }
  }

  lemma StartsEmpty(c: seq<Ins>)
    requires |c| > 0
    ensures MapCode(map[], c) == c && Assigns(map[], c, 0, 0)
    ensures Disjoint(map[], c)
  {
  }
}
