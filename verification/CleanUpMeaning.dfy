/** What Translate_CleanUp deletes does nothing when it is run, and what it leaves does all that the list
    did: for lists with branches inside the segment, and for lowered and cached programs.
 */
module CleanUpMeaning {
  import opened Ir
  import opened Machine
  import opened Arm
  import LoweringSteps
  import opened LoweringRuns
  import opened RegisterCaching
  import opened LoweredCachingRuns
  import opened CleanUp

  /** Instructions the host has something to do for: all but no-ops, the MIPS no-op, which shifts into the
      register that is always zero, and operations nothing is emitted for. */
  predicate HasEffect(x: Ins) {
    match x.what.op
    case NoOp => false
    case MipsSll => x.rd1 != 0
    case MipsLui => false
    case MipsCache => false
    case MipsSyscall => false
    case MipsBreak => false
    case MipsSync => false
    case _ => true
  }

  /** A meaning of the operations under which the others do nothing. */
  ghost predicate IsHostMeaning<W(!new)>(m: Semantics<W>) {
    forall x: Ins, s: State<W> {:trigger Execute(m, x, s)} :: !HasEffect(x) ==> Execute(m, x, s) == s
  }

  lemma ArmIsHostMeaning()
    ensures IsHostMeaning(ArmSemantics())
  {
    hide Execute;
    forall x: Ins, s: State<Flags> | !HasEffect(x) ensures Execute(ArmSemantics(), x, s) == s {
      IdleStep(x, s);
    }
  }

  lemma IdleStep(x: Ins, s: State<Flags>)
    requires !HasEffect(x)
    ensures Execute(ArmSemantics(), x, s) == s
  {
    hide Sum, SumFlags, Operand2, LogicResult, LogicFlags, AdderInputs, Word, Holds;
    assert !IsAdder(x.what.op) && !IsLogic(x.what.op);
  }

  lemma RemovedDoesNothing<W(!new)>(m: Semantics<W>, x: Ins, s: Cpu<W>)
    requires IsHostMeaning(m) && Removable(x)
    ensures ExecuteCached(m, x, s) == s
  {
    assert Execute(m, x, State(s.regs, s.world)) == State(s.regs, s.world);
  }

  // ---------------------------------------------------------------------------------------
  // What is left

  /** No instruction is left that does nothing. */
  lemma {:induction false} NothingIdleFrom<T>(c: seq<Item<T>>, k: nat)
    requires k <= |c| && CleanFrom(c, k).Some?
    requires forall i :: 0 <= i < k ==> HasEffect(c[i].ins)
    ensures forall i :: 0 <= i < |CleanFrom(c, k).value| ==> HasEffect(CleanFrom(c, k).value[i].ins)
    decreases |c| - k
  {
    if k < |c| {
      if Removable(c[k].ins) {
        var d := Free(c, k).value;
        FreeDeletes(c, k);
        forall i | 0 <= i < k ensures HasEffect(d[i].ins) {
          assert d[Shift(k, i)].ins == c[i].ins;
        }
        NothingIdleFrom(d, k);
      } else {
        NothingIdleFrom(c, k + 1);
      }
    }
  }

  lemma NothingIdleIsLeft<T>(c: seq<Item<T>>)
    requires Clean(c).Some?
    ensures forall i :: 0 <= i < |Clean(c).value| ==> HasEffect(Clean(c).value[i].ins)
  {
    NothingIdleFrom(c, 0);
  }

  // ---------------------------------------------------------------------------------------
  // Lists with branches

  /** Only branches, and the instructions that put a return address into the link register, have targets. */
  ghost predicate HasBranchTargets<T>(c: seq<Item<T>>) {
    forall i :: 0 <= i < |c| && c[i].target.Some? ==>
        var op := c[i].ins.what.op;
      op.IntBranch? || op.IntBranchLink? || op.ArmMov? || op.ArmLdrLit?
  }

  /** The host: an instruction works on registers and register file, and a branch is taken under its
      condition. */
  ghost function Host<W>(m: Semantics<W>): Control<Cpu<W>> {
    Control(
      (x: Ins, s: Cpu<W>) => ExecuteCached(m, x, s),
      (x: Ins, s: Cpu<W>) =>
        (x.what.op.IntBranch? || x.what.op.IntBranchLink?) && (x.cond == AL || m.test(x.cond, s.world)))
  }

  lemma RemovedHasNoEffect<W(!new)>(m: Semantics<W>)
    requires IsHostMeaning(m)
    ensures NoEffect(Host(m))
  {
    hide Removable, IsHostMeaning, ExecuteCached;
    forall x: Ins, s: Cpu<W> | Removable(x) ensures Host(m).effect(x, s) == s {
      RemovedDoesNothing(m, x, s);
    }
  }

  /** The run gets to the end of the list in state t. */
  ghost predicate EndsIn<T, W>(m: Semantics<W>, c: seq<Item<T>>, s: Cpu<W>, t: Cpu<W>) {
    exists n :: CleanUp.Run(Host(m), c, 0, s, n) == (|c|, t)
  }

  /** Behind the last kept instruction the old list gets to its end. */
  lemma ReachesEnd<T, W(!new)>(m: Control<W>, c: seq<Item<T>>, j: nat, w: W) returns (n: nat)
    requires Plain(c) && NoEffect(m) && j <= |c| && Before(c, j) == Before(c, |c|)
    ensures CleanUp.Run(m, c, j, w, n) == (|c|, w)
  {
    hide Removable, IndexOf, NoEffect, Plain;
    n := ReachesKept(m, c, j, w);
    var (i, _) := CleanUp.Run(m, c, j, w, n);
    if i < |c| {
      BeforeStep(c, i);
      BeforeMonotone(c, i + 1, |c|);
    }
  }

  lemma EndIsKept<T, W(!new)>(m: Semantics<W>, c: seq<Item<T>>, d: seq<Item<T>>, s: Cpu<W>, t: Cpu<W>)
    requires Closed(c) && Cleaned(c, d) && Plain(c) && NoEffect(Host(m)) && EndsIn(m, c, s, t)
    ensures EndsIn(m, d, s, t)
  {
    hide Closed, Cleaned, Plain, NoEffect, Host, Removable, CleanUp.Run;
    var n :| CleanUp.Run(Host(m), c, 0, s, n) == (|c|, t);
    RunsAreErased(Host(m), c, d, 0, s, n);
    NewPosition(c, d, |c|);
  }

  lemma EndWasThere<T, W(!new)>(m: Semantics<W>, c: seq<Item<T>>, d: seq<Item<T>>, s: Cpu<W>, t: Cpu<W>)
    requires Closed(c) && Cleaned(c, d) && Plain(c) && NoEffect(Host(m)) && EndsIn(m, d, s, t)
    ensures EndsIn(m, c, s, t)
  {
    hide Closed, Cleaned, Plain, NoEffect, Host, Removable, CleanUp.Run;
    var k: nat :| CleanUp.Run(Host(m), d, 0, s, k) == (|d|, t);
    var n := NoOtherRuns(Host(m), c, d, 0, s, k);
    var (j, _) := CleanUp.Run(Host(m), c, 0, s, n);
    NewPosition(c, d, |c|);
    var n' := ReachesEnd(Host(m), c, j, t);
    RunsCompose(Host(m), c, 0, s, n, n');
  }

  lemma TargetsArePlain<T>(c: seq<Item<T>>)
    requires HasBranchTargets(c)
    ensures Plain(c)
  {
  }

  /** The cleaned list runs to its end in some state exactly if the list does. */
  lemma CleanedEndsAlike<T, W(!new)>(m: Semantics<W>, c: seq<Item<T>>, s: Cpu<W>, t: Cpu<W>)
    requires IsHostMeaning(m) && Distinct(c) && Closed(c) && HeadSafe(c) && HasBranchTargets(c) && Clean(c).Some?
    ensures EndsIn(m, Clean(c).value, s, t) <==> EndsIn(m, c, s, t)
  {
    hide Closed, Cleaned, Plain, NoEffect, EndsIn, IsHostMeaning, Clean, HeadSafe;
    var d := Clean(c).value;
    TargetsArePlain(c);
    RemovedHasNoEffect(m);
    CleanUpErases(c);
    if EndsIn(m, c, s, t) {
      EndIsKept(m, c, d, s, t);
    }
    if EndsIn(m, d, s, t) {
      EndWasThere(m, c, d, s, t);
    }
  }

  // ---------------------------------------------------------------------------------------
  // Straight-line code

  ghost function Code<T>(c: seq<Item<T>>): (d: seq<Ins>)
    ensures |d| == |c| && forall i :: 0 <= i < |c| ==> d[i] == c[i].ins
  {
    seq(|c|, i requires 0 <= i < |c| => c[i].ins)
  }

  ghost predicate HasNoTargets<T>(c: seq<Item<T>>) {
    forall i :: 0 <= i < |c| ==> c[i].target == None
  }

  lemma {:induction false} CleansWithoutTargets<T>(c: seq<Item<T>>, k: nat)
    requires k <= |c| && HasNoTargets(c)
    ensures CleanFrom(c, k).Some?
    decreases |c| - k
  {
    hide Removable;
    if k < |c| {
      if Removable(c[k].ins) {
        CleansWithoutTargets(Free(c, k).value, k);
      } else {
        CleansWithoutTargets(c, k + 1);
      }
    }
  }

  /** One deletion. */
  lemma FreeRunsAlike<T, W(!new)>(m: Semantics<W>, c: seq<Item<T>>, k: nat, s: Cpu<W>)
    requires IsHostMeaning(m) && k < |c| && Removable(c[k].ins) && Free(c, k).Some?
    ensures RunCached(m, Code(Free(c, k).value), s) == RunCached(m, Code(c), s)
  {
    hide Free, Removable, IsHostMeaning, ExecuteCached;
    var (x, front, rest) := (c[k].ins, Code(c)[..k], Code(c)[k + 1..]);
    var d := Free(c, k).value;
    FreeDeletes(c, k);
    forall j | 0 <= j < |d| ensures Code(d)[j] == (front + rest)[j] {
      var i := if j < k then j else j + 1;
      assert d[Shift(k, i)].ins == c[i].ins;
    }
    assert Code(d) == front + rest && Code(c) == front + ([x] + rest);
    RunCachedSplit(m, front, rest, s);
    RunCachedSplit(m, front, [x] + rest, s);
    var u := RunCached(m, front, s);
    RemovedDoesNothing(m, x, u);
    assert ([x] + rest)[1..] == rest;
  }

  lemma {:induction false} CleanFromRunsAlike<T, W(!new)>(m: Semantics<W>, c: seq<Item<T>>, k: nat, s: Cpu<W>)
    requires IsHostMeaning(m) && k <= |c| && CleanFrom(c, k).Some?
    ensures RunCached(m, Code(CleanFrom(c, k).value), s) == RunCached(m, Code(c), s)
    decreases |c| - k
  {
    hide Removable, IsHostMeaning, Free, RunCached, Code;
    if k < |c| {
      if Removable(c[k].ins) {
        FreeRunsAlike(m, c, k, s);
        FreeDeletes(c, k);
        CleanFromRunsAlike(m, Free(c, k).value, k, s);
      } else {
        CleanFromRunsAlike(m, c, k + 1, s);
      }
    }
  }

  /** Lowered, cached, cleaned up and run, a program of supported instructions does to the register file
      what the MIPS program does to its registers. */
  lemma CleanedRunRefinesMips<T>(p: seq<Ins>, c: seq<Item<T>>, s: Cpu<Flags>, m: Mips)
    requires forall i :: 0 <= i < |p| ==> Supported(p[i])
    requires LoweringSteps.Words(FileView(s)) && DoubleWordValues(m) && FileMatches(s, m) && ExactRun(p, m)
    requires LowerAll(p).Some? && Code(c) == StoreCached(LoadCached(LowerAll(p).value, {})) && HasNoTargets(c)
    ensures Clean(c).Some? && FileMatches(RunCached(ArmSemantics(), Code(Clean(c).value), s), MipsRun(p, m))
  {
    hide Supported, LowerAll, FileMatches, ExactRun, RunCached, Code, StoreCached, LoadCached, CleanFrom;
    hide LoweringSteps.Words;
    ArmIsHostMeaning();
    CleansWithoutTargets(c, 0);
    CleanFromRunsAlike(ArmSemantics(), c, 0, s);
    CachedRunRefinesMips(p, s, m);
  }
}
