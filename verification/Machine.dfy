/** A straight-line interpreter for the intermediate code, for every possible meaning of the
    opcodes. What an operation computes from its four source values and from the rest of the
    world (memory, condition flags, ...) is a parameter, so what is proved about a pass here
    holds whatever the instructions mean.
 */
module Machine {
  import opened Ir

  datatype Semantics<!W> = Semantics(
    /** Does the condition hold in this world? (AL always does.) */
    test: (Cond, W) -> bool,
    /** The values for the two destinations, and the world afterwards. */
    effect: (Operation, int, int, int, int, W) -> (int, int, W),
    /** Does the operation really write its first, its second destination? */
    writes1: Operation -> bool,
    writes2: Operation -> bool)

  type Regs = Reg -> int

  function Set(regs: Regs, r: Reg, v: int): Regs {
    (x: Reg) => if x == r then v else regs(x)
  }

  datatype State<W> = State(regs: Regs, world: W)

  predicate Writes1<W>(m: Semantics<W>, ins: Ins) {
    ins.rd1 != REG_NOT_USED && m.writes1(ins.what)
  }

  predicate Writes2<W>(m: Semantics<W>, ins: Ins) {
    ins.rd2 != REG_NOT_USED && m.writes2(ins.what)
  }

  function Execute<W>(m: Semantics<W>, ins: Ins, s: State<W>): State<W> {
    if ins.cond == AL || m.test(ins.cond, s.world) then
      var (v1, v2, w) := m.effect(ins.what, s.regs(ins.r1), s.regs(ins.r2), s.regs(ins.r3), s.regs(ins.r4), s.world);
      var regs1 := if Writes1(m, ins) then Set(s.regs, ins.rd1, v1) else s.regs;
      var regs2 := if Writes2(m, ins) then Set(regs1, ins.rd2, v2) else regs1;
      State(regs2, w)
    else
      s
  }

  /** Run the instructions of c one after the other. */
  function Run<W>(m: Semantics<W>, c: seq<Ins>, s: State<W>): State<W> {
    if c == [] then s else Run(m, c[1..], Execute(m, c[0], s))
  }

  lemma {:induction false} RunSplit<W>(m: Semantics<W>, c: seq<Ins>, d: seq<Ins>, s: State<W>)
    ensures Run(m, c + d, s) == Run(m, d, Run(m, c, s))
  {
    if c == [] {
      assert c + d == d;
    } else {
      assert (c + d)[0] == c[0] && (c + d)[1..] == c[1..] + d;
      RunSplit(m, c[1..], d, Execute(m, c[0], s));
    }
  }

  lemma RunOne<W>(m: Semantics<W>, a: Ins, s: State<W>)
    ensures Run(m, [a], s) == Execute(m, a, s)
  {
    assert [a][1..] == [];
  }

  lemma RunTwo<W>(m: Semantics<W>, a: Ins, b: Ins, s: State<W>)
    ensures Run(m, [a, b], s) == Execute(m, b, Execute(m, a, s))
  {
    assert [a, b][1..] == [b];
    RunOne(m, b, Execute(m, a, s));
  }

  lemma RunThree<W>(m: Semantics<W>, a: Ins, b: Ins, c: Ins, s: State<W>)
    ensures Run(m, [a, b, c], s) == Execute(m, c, Execute(m, b, Execute(m, a, s)))
  {
    assert [a, b, c][1..] == [b, c];
    RunTwo(m, b, c, Execute(m, a, s));
  }

  lemma RunFour<W>(m: Semantics<W>, a: Ins, b: Ins, c: Ins, d: Ins, s: State<W>)
    ensures Run(m, [a, b, c, d], s) == Execute(m, d, Execute(m, c, Execute(m, b, Execute(m, a, s))))
  {
    assert [a, b, c, d][1..] == [b, c, d];
    RunThree(m, b, c, d, Execute(m, a, s));
  }
}
