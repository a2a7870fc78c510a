/** What Translate_Registers computes: the scan for the next use of a register, the search for
    a free host register, and the renaming of emulated registers field by field.
 */
module RegisterAllocation {
  import opened Ir

  /** RegsAvailable, with the frame pointers r10 and r11 left out by the preprocessor. */
  const AVAILABLE: seq<Reg> := [4, 5, 6, 7, 8, 9, 12]

  /** The host registers of the pool. */
  predicate IsAvailable(r: Reg) {
    REG_HOST + 4 <= r <= REG_HOST + 9 || r == REG_HOST + 12
  }

  function Candidate(idx: nat): (r: Reg)
    requires idx < |AVAILABLE|
    ensures IsAvailable(r)
  {
    REG_HOST + AVAILABLE[idx]
  }

  predicate IsScratch(r: Reg) {
    REG_TEMP_SCRATCH0 <= r <= REG_TEMP_SCRATCH3
  }

  /** The registers that get a host register from the pool. */
  predicate IsAllocatable(r: Reg) {
    r < REG_HOST && !IsScratch(r)
  }

  /** FindRegNextUsedAgain from instruction i on, x instructions after the one it started
      behind: the distance to the next read, -1 if an unconditional write comes first (unless
      it is the very next instruction), -2 at the end or at a branch inside the segment. */
  function NextUse(c: seq<Ins>, i: nat, r: Reg, x: nat): int
    requires i <= |c|
    decreases |c| - i
  {
    if i == |c| || c[i].what.op == IntBranch then -2
    else if c[i].Reads(r) then x
    else if x > 0 && c[i].Overwrites(r) then -1
    else NextUse(c, i + 1, r, x + 1)
  }

  /** The index reached from start after tried steps round the table. */
  function Round(start: nat, tried: nat): (idx: nat)
    requires start < |AVAILABLE| && tried < |AVAILABLE|
    ensures idx < |AVAILABLE|
  {
    if start + tried < |AVAILABLE| then start + tried else start + tried - |AVAILABLE|
  }

  /** getNextRegister: the first index, from start on and round the table, whose host register
      is not used again after instruction k; None when all are in use and the pass aborts. */
  function Probe(c: seq<Ins>, k: nat, start: nat, tried: nat): Option<nat>
    requires k < |c| && start < |AVAILABLE| && tried < |AVAILABLE|
    decreases |AVAILABLE| - tried
  {
    var idx := Round(start, tried);
    if NextUse(c, k + 1, Candidate(idx), 0) < 0 then Some(idx)
    else if tried + 1 == |AVAILABLE| then None
    else Probe(c, k, start, tried + 1)
  }

  function RenamedReg(r: Reg, from: Reg, to: Reg): Reg {
    if r == from then to else r
  }

  function RenamedIns(ins: Ins, from: Reg, to: Reg): Ins {
    ins.(rd1 := RenamedReg(ins.rd1, from, to), rd2 := RenamedReg(ins.rd2, from, to),
         r1 := RenamedReg(ins.r1, from, to), r2 := RenamedReg(ins.r2, from, to),
         r3 := RenamedReg(ins.r3, from, to), r4 := RenamedReg(ins.r4, from, to))
  }

  /** UpdateRegWithReg from instruction k to the end of the list. */
  function Renamed(c: seq<Ins>, k: nat, from: Reg, to: Reg): (r: seq<Ins>)
    ensures |r| == |c|
    ensures forall i :: 0 <= i < |c| ==> r[i] == if i < k then c[i] else RenamedIns(c[i], from, to)
  {
    seq(|c|, i requires 0 <= i < |c| => if i < k then c[i] else RenamedIns(c[i], from, to))
  }

  /** The register fields in the order the pass visits them. */
  function Field(ins: Ins, f: nat): Reg
    requires f < 6
  {
    match f
    case 0 => ins.rd1
    case 1 => ins.rd2
    case 2 => ins.r1
    case 3 => ins.r2
    case 4 => ins.r3
    case 5 => ins.r4
  }

  /** The pass part way: the list so far and the index of the candidate host register. */
  datatype Progress = Progress(code: seq<Ins>, idx: nat)

  /** Visit field f of instruction k. */
  function VisitField(p: Progress, k: nat, f: nat): (q: Option<Progress>)
    requires k < |p.code| && f < 6 && p.idx < |AVAILABLE|
    ensures q.Some? ==> |q.value.code| == |p.code| && q.value.idx < |AVAILABLE|
  {
    var r := Field(p.code[k], f);
    if r >= REG_HOST then
      Some(p)
    else if IsScratch(r) then
      Some(p.(code := Renamed(p.code, k, r, REG_HOST + r - REG_TEMP)))
    else
      var code := Renamed(p.code, k, r, Candidate(p.idx));
      var idx := Probe(code, k, p.idx, 0);
      if idx.None? then None else Some(Progress(code, idx.value))
  }

  /** Visit the fields of instruction k from f on. */
  function VisitIns(p: Progress, k: nat, f: nat): (q: Option<Progress>)
    requires k < |p.code| && f <= 6 && p.idx < |AVAILABLE|
    ensures q.Some? ==> |q.value.code| == |p.code| && q.value.idx < |AVAILABLE|
    decreases 6 - f
  {
    if f == 6 then Some(p)
    else
      var q := VisitField(p, k, f);
      if q.None? then None else VisitIns(q.value, k, f + 1)
  }

  /** Visit the instructions from k on. */
  function VisitFrom(p: Progress, k: nat): (q: Option<seq<Ins>>)
    requires k <= |p.code| && p.idx < |AVAILABLE|
    ensures q.Some? ==> |q.value| == |p.code|
    decreases |p.code| - k
  {
    if k == |p.code| then Some(p.code)
    else
      var q := VisitIns(p, k, 0);
      if q.None? then None else VisitFrom(q.value, k + 1)
  }

  /** Translate_Registers on a non-empty list; None when the pass aborts. */
  function Allocate(c: seq<Ins>): (q: Option<seq<Ins>>)
    requires |c| > 0
    ensures q.Some? ==> |q.value| == |c|
  {
    var idx := Probe(c, 0, 0, 0);
    if idx.None? then None else VisitFrom(Progress(c, idx.value), 0)
  }
}
