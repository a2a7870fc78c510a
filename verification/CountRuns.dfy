/** What the COUNT update does when it is run: it advances COUNT by the number of instructions and calls
    the interrupt handler, with the link register saved, if the new COUNT is not negative.
 */
module CountRuns {
  import opened Ir
  import opened Bits
  import opened Machine
  import opened Arm
  import opened LoweringSteps
  import opened LoweringRuns
  import opened CountRegister
  import InterCode

  /** The host with its stack, and the addresses it has called. */
  datatype Host = Host(state: State<Flags>, stack: seq<int>, calls: seq<int>)

  type Value = v: int | 0 <= v < WORD

  /** The literals, and what a call leaves in the link register. */
  datatype Setting = Setting(literal: (Reg, int) -> Value, link: Value)

  function WithReg(h: Host, r: Reg, v: int): Host {
    h.(state := h.state.(regs := Set(h.state.regs, r, v)))
  }

  predicate MovesLink(x: Ins) {
    x.r1 == REG_HOST_SP && x.what.imm == STM_LR
  }

  /** One instruction; none for a transfer of other registers than the link register, or from an empty
      stack. */
  function HostStep(g: Setting, x: Ins, h: Host): Option<Host> {
    if x.cond != AL && !Holds(x.cond, h.state.world) then Some(h)
    else
      match x.what.op
      case ArmLdrLit => Some(WithReg(h, x.rd1, g.literal(x.r2, Displacement(x))))
      case ArmStm =>
        if MovesLink(x) && !x.what.up then Some(h.(stack := [h.state.regs(REG_HOST_LR)] + h.stack)) else None
      case ArmLdm =>
        if MovesLink(x) && x.what.up && h.stack != [] then
          Some(WithReg(h, REG_HOST_LR, h.stack[0]).(stack := h.stack[1..]))
        else None
      case ArmBx => Some(WithReg(h, REG_HOST_LR, g.link).(calls := h.calls + [h.state.regs(x.r1)]))
      case _ => Some(h.(state := Step(x, h.state)))
  }

  function HostRun(g: Setting, c: seq<Ins>, h: Host): Option<Host> {
    if c == [] then Some(h)
    else
      var t := HostStep(g, c[0], h);
      if t.Some? then HostRun(g, c[1..], t.value) else None
  }

  lemma {:induction false} HostRunSplit(g: Setting, c: seq<Ins>, d: seq<Ins>, h: Host)
    ensures HostRun(g, c + d, h) ==
      if HostRun(g, c, h).Some? then HostRun(g, d, HostRun(g, c, h).value) else None
  {
    hide HostStep;
    if c == [] {
      assert c + d == d;
    } else {
      assert (c + d)[0] == c[0] && (c + d)[1..] == c[1..] + d;
      if HostStep(g, c[0], h).Some? {
        HostRunSplit(g, c[1..], d, HostStep(g, c[0], h).value);
      }
    }
  }

  /** t is s with COUNT advanced by n. */
  ghost predicate Advances(s: Host, t: Host, n: nat) {
    && Wrote(s.state.regs, t.state.regs, REG_COUNT, Word(s.state.regs(REG_COUNT) + n))
    && t.stack == s.stack && t.calls == s.calls
  }

  /** x adds n to COUNT. */
  predicate AddsToCount(x: Ins, n: nat) {
    && x.what.op == ArmAdd && x.cond == AL && x.what.isImm && x.what.imm == n
    && Single(x) && x.rd1 == REG_COUNT && x.r1 == REG_COUNT
  }

  lemma AddEffect(what: Operation, n: nat, a: nat, b: int, f: Flags)
    requires what.op == ArmAdd && what.isImm && what.imm == n < WORD && a < WORD
    ensures
      var (v, _, f') := Effect(what, a, b, 0, 0, f);
      v == Word(a + n) && (what.setFlags ==> f'.n == (v >= 0x8000_0000))
  {
    WordOf(n);
    WordOf(a);
  }

  lemma EffectIgnores(what: Operation, a: int, b: int, c: int, d: int, f: Flags)
    requires what.op == ArmAdd
    ensures Effect(what, a, b, c, d, f) == Effect(what, a, b, 0, 0, f)
  {
  }

  lemma AddStep(g: Setting, x: Ins, n: nat, h: Host)
    requires Words(h.state.regs) && n < WORD && AddsToCount(x, n)
    ensures HostStep(g, x, h).Some?
    ensures
      var t := HostStep(g, x, h).value;
      && Advances(h, t, n) && Words(t.state.regs)
      && (x.what.setFlags ==> t.state.world.n == (t.state.regs(REG_COUNT) >= 0x8000_0000))
  {
    hide Wrote, Effect, Step, Word;
    var s := h.state;
    SingleStep(x, s);
    EffectIgnores(x.what, s.regs(x.r1), s.regs(x.r2), s.regs(x.r3), s.regs(x.r4), s.world);
    AddEffect(x.what, n, s.regs(REG_COUNT), s.regs(x.r2), s.world);
    WroteWord(s.regs, Step(x, s).regs, REG_COUNT, Word(s.regs(REG_COUNT) + n));
  }

  lemma WroteWord(s: Regs, t: Regs, rd: Reg, v: nat)
    requires Words(s) && Wrote(s, t, rd, v) && v < WORD
    ensures Words(t) && t(rd) == v
  {
  }

  lemma LiteralStep(g: Setting, base: Reg, offset: int, h: Host)
    ensures HostStep(g, CallInterrupt(base, offset)[0], h)
      == Some(WithReg(h, REG_TEMP_CALL2C, g.literal(base, offset)))
  {
    hide Step;
  }

  lemma SaveStep(g: Setting, base: Reg, offset: int, h: Host)
    ensures HostStep(g, CallInterrupt(base, offset)[1], h)
      == Some(h.(stack := [h.state.regs(REG_HOST_LR)] + h.stack))
  {
    hide Step;
  }

  lemma CallStep(g: Setting, base: Reg, offset: int, h: Host)
    ensures
      var called := WithReg(h, REG_HOST_LR, g.link).(calls := h.calls + [h.state.regs(REG_TEMP_CALL2C)]);
      HostStep(g, CallInterrupt(base, offset)[2], h) == Some(if h.state.world.n then h else called)
  {
    hide Step;
  }

  lemma RestoreStep(g: Setting, base: Reg, offset: int, h: Host)
    requires h.stack != []
    ensures HostStep(g, CallInterrupt(base, offset)[3], h)
      == Some(WithReg(h, REG_HOST_LR, h.stack[0]).(stack := h.stack[1..]))
  {
    hide Step;
  }

  /** The call: the literal goes to the call's register, and the handler is called under PL with the link
      register saved, which comes back as it was. */
  lemma CallRuns(g: Setting, base: Reg, offset: int, h: Host)
    ensures HostRun(g, CallInterrupt(base, offset), h).Some?
    ensures
      var t := HostRun(g, CallInterrupt(base, offset), h).value;
      && (Words(h.state.regs) ==> Words(t.state.regs))
      && (forall r: Reg :: r != REG_TEMP_CALL2C ==> t.state.regs(r) == h.state.regs(r))
      && t.state.world == h.state.world && t.stack == h.stack
      && t.calls == h.calls + if h.state.world.n then [] else [g.literal(base, offset)]
  {
    hide HostStep, CallInterrupt, HostRun;
    var a := WithReg(h, REG_TEMP_CALL2C, g.literal(base, offset));
    LiteralStep(g, base, offset, h);
    var b := a.(stack := [a.state.regs(REG_HOST_LR)] + a.stack);
    SaveStep(g, base, offset, a);
    var c := if b.state.world.n then b
             else WithReg(b, REG_HOST_LR, g.link).(calls := b.calls + [b.state.regs(REG_TEMP_CALL2C)]);
    CallStep(g, base, offset, b);
    assert c.stack == [h.state.regs(REG_HOST_LR)] + h.stack;
    RestoreStep(g, base, offset, c);
    assert c.stack[1..] == h.stack;
    CallIsFour(base, offset);
    RunFourSteps(g, CallInterrupt(base, offset), h, a, b, c, WithReg(c, REG_HOST_LR, c.stack[0]).(stack := h.stack));
  }

  lemma CallIsFour(base: Reg, offset: int)
    ensures |CallInterrupt(base, offset)| == 4
  {
  }

  lemma RunFourSteps(g: Setting, x: seq<Ins>, h: Host, a: Host, b: Host, c: Host, d: Host)
    requires |x| == 4 && HostStep(g, x[0], h) == Some(a) && HostStep(g, x[1], a) == Some(b)
    requires HostStep(g, x[2], b) == Some(c) && HostStep(g, x[3], c) == Some(d)
    ensures HostRun(g, x, h) == Some(d)
  {
    hide HostStep;
    assert x[1..][0] == x[1] && x[1..][1..][0] == x[2] && x[1..][1..][1..][0] == x[3] && x[1..][1..][1..][1..] == [];
    assert HostRun(g, x[1..][1..][1..], c) == Some(d);
    assert HostRun(g, x[1..][1..], b) == Some(d);
  }

  /** What the additions of an update leave. */
  lemma AdditionsRun(g: Setting, n: nat, h: Host)
    requires Words(h.state.regs)
    ensures HostRun(g, Additions(n), h).Some?
    ensures
      var t := HostRun(g, Additions(n), h).value;
      && Advances(h, t, n % 0x1_0000) && Words(t.state.regs)
      && t.state.world.n == (t.state.regs(REG_COUNT) >= 0x8000_0000)
  {
    hide HostStep, Advances, AddCount, HostRun;
    var (high, low) := (n / 0x100 % 0x100 * 0x100, n % 0x100);
    var last := AddCount(low).(what := AddCount(low).what.(setFlags := true));
    LowBytes(n);
    Adds(high);
    Adds(low);
    if n > 0xff {
      AddStep(g, AddCount(high), high, h);
      var u := HostStep(g, AddCount(high), h).value;
      AddStep(g, last, low, u);
      AdvancesAdd(h, u, HostStep(g, last, u).value, high, low);
      HostRunSplit(g, [AddCount(high)], [last], h);
      RunOneStep(g, AddCount(high), h);
      RunOneStep(g, last, u);
    } else {
      AddStep(g, last, low, h);
      RunOneStep(g, last, h);
      assert [] + [last] == [last];
    }
  }

  lemma Adds(n: nat)
    ensures AddsToCount(AddCount(n), n)
  {
  }

  lemma RunOneStep(g: Setting, x: Ins, h: Host)
    ensures HostRun(g, [x], h) == HostStep(g, x, h)
  {
    hide HostStep;
    assert [x][1..] == [];
  }

  lemma LowBytes(n: nat)
    ensures n / 0x100 % 0x100 * 0x100 + n % 0x100 == n % 0x1_0000 < WORD
    ensures n <= 0xff ==> n % 0x100 == n % 0x1_0000
  {
  }

  lemma AdvancesAdd(s: Host, t: Host, u: Host, a: nat, b: nat)
    requires Advances(s, t, a) && Advances(t, u, b)
    ensures Advances(s, u, a + b)
  {
    InterCode.WordAddition(s.state.regs(REG_COUNT) + a, b);
  }

  /** Running the update of n instructions advances COUNT by n, for n below 2^16, and calls the interrupt
      handler exactly if the new COUNT is not negative. No other register of the program changes, and
      neither do the link register and the stack. */
  lemma UpdateRuns(g: Setting, n: nat, base: Reg, offset: int, h: Host)
    requires Words(h.state.regs)
    ensures HostRun(g, Update(n, base, offset), h).Some?
    ensures
      var t := HostRun(g, Update(n, base, offset), h).value;
      && Words(t.state.regs)
      && t.state.regs(REG_COUNT) == (h.state.regs(REG_COUNT) + n % 0x1_0000) % WORD
      && (forall r: Reg :: r != REG_COUNT && r != REG_TEMP_CALL2C ==> t.state.regs(r) == h.state.regs(r))
      && t.stack == h.stack
      && t.calls == h.calls + if t.state.regs(REG_COUNT) < 0x8000_0000 then [g.literal(base, offset)] else []
  {
    hide HostStep, HostRun, AddCount, CallInterrupt;
    AdditionsRun(g, n, h);
    var t := HostRun(g, Additions(n), h).value;
    assert Update(n, base, offset) == Additions(n) + CallInterrupt(base, offset);
    HostRunSplit(g, Additions(n), CallInterrupt(base, offset), h);
    CallRuns(g, base, offset, t);
  }

  // ---------------------------------------------------------------------------------------
  // The whole pass

  /** An instruction that is still a MIPS one, for which this host has nothing to do. */
  predicate IsMipsWord(x: Ins) {
    var op := x.what.op;
    && !IsAdder(op) && !IsLogic(op) && !op.ArmUmull? && !op.ArmUmlal?
    && !op.ArmLdrLit? && !op.ArmStm? && !op.ArmLdm? && !op.ArmBx?
  }

  /** MIPS words and additions to COUNT. */
  ghost predicate IsCountedCode(c: seq<Ins>) {
    forall i :: 0 <= i < |c| ==> IsMipsWord(c[i]) || (0 <= c[i].what.imm < WORD && AddsToCount(c[i], c[i].what.imm))
  }

  lemma WordStep(g: Setting, x: Ins, h: Host)
    requires IsMipsWord(x)
    ensures HostStep(g, x, h) == Some(h)
  {
  }

  /** Such code advances COUNT by what its additions come to. */
  lemma {:induction false} CountedCodeRuns(g: Setting, c: seq<Ins>, h: Host)
    requires Words(h.state.regs) && IsCountedCode(c)
    ensures HostRun(g, c, h).Some? && Total(c) >= 0
    ensures var t := HostRun(g, c, h).value; Advances(h, t, Total(c)) && Words(t.state.regs)
  {
    hide HostStep, Advances, AddsToCount;
    if c == [] {
      AdvancesByNone(h);
    } else {
      var n := if IsMipsWord(c[0]) then 0 else c[0].what.imm;
      if IsMipsWord(c[0]) {
        WordStep(g, c[0], h);
        AdvancesByNone(h);
      } else {
        AddStep(g, c[0], n, h);
        AddsIsAdd(c[0], n);
      }
      var u := HostStep(g, c[0], h).value;
      CountedCodeRuns(g, c[1..], u);
      AdvancesAdd(h, u, HostRun(g, c, h).value, n, Total(c[1..]));
    }
  }

  lemma AddsIsAdd(x: Ins, n: nat)
    requires AddsToCount(x, n)
    ensures x.what.op == ArmAdd
  {
  }

  lemma AdvancesByNone(h: Host)
    requires Words(h.state.regs)
    ensures Advances(h, h, 0)
  {
    WordOf(h.state.regs(REG_COUNT));
  }

  /** What the first loop adds: behind each read the number of instructions up to it. */
  function ReadTotal(c: seq<Ins>, i: nat): nat {
    if c == [] then 0 else (if ReadsCount(c[0]) then i + 1 else 0) + ReadTotal(c[1..], i + 1)
  }

  lemma {:induction false} ReadsAreCounted(c: seq<Ins>, i: nat)
    requires (forall j :: 0 <= j < |c| ==> IsMipsWord(c[j])) && i + |c| < WORD
    ensures IsCountedCode(WithReads(c, i)) && Total(WithReads(c, i)) == ReadTotal(c, i)
  {
    hide IsMipsWord, IsCountedCode, AddCount, Total, ReadsCount;
    if c == [] {
      NothingLeft(i, 0);
      NothingCounted();
    } else {
      ReadsAreCounted(c[1..], i + 1);
      WordIsCounted(c[0]);
      AddIsCounted(i + 1);
      NothingCounted();
      CountedTogether([c[0]], Behind(c[0], i));
      CountedTogether([c[0]] + Behind(c[0], i), WithReads(c[1..], i + 1));
    }
  }

  lemma CountedTogether(c: seq<Ins>, d: seq<Ins>)
    requires IsCountedCode(c) && IsCountedCode(d)
    ensures IsCountedCode(c + d) && Total(c + d) == Total(c) + Total(d)
  {
    hide IsMipsWord, AddsToCount;
    TotalSplit(c, d);
  }

  lemma NothingCounted()
    ensures IsCountedCode([]) && Total([]) == 0
  {
  }

  lemma WordIsCounted(x: Ins)
    requires IsMipsWord(x)
    ensures IsCountedCode([x]) && Total([x]) == 0
  {
    assert [x][1..] == [];
  }

  lemma AddIsCounted(n: nat)
    requires n < WORD
    ensures IsCountedCode([AddCount(n)]) && Total([AddCount(n)]) == n
  {
    assert [AddCount(n)][1..] == [];
  }

  lemma {:induction false} RemainingIs(c: seq<Ins>, i: nat, left: nat)
    requires left < WORD
    ensures Remaining(c, i, left) == (left - ReadTotal(c, i)) % WORD
  {
    hide ReadsCount;
    if c != [] {
      var (later, left') := (ReadTotal(c[1..], i + 1), left - (i + 1));
      RemainingIs(c[1..], i + 1, Left(c[0], i, left));
      DifferenceOfWord(left', later);
    }
  }

  lemma DifferenceOfWord(a: int, b: nat)
    ensures (a % WORD - b) % WORD == (a - b) % WORD
  {
    InterCode.WordAddition(a, 0 - b);
  }

  lemma SameAdvance(count: int, total: nat, len: nat, n: nat)
    requires n == (len - total) % WORD
    ensures Word(count + (total + n % 0x1_0000)) == Word(count + len) <==> n < 0x1_0000
  {
    DivMod(len - total, WORD);
    DivMod(n, 0x1_0000);
    var q := (len - total) / WORD;
    var m := n / 0x1_0000 * 0x1_0000;
    assert count + len == (count + (total + n % 0x1_0000)) + m + q * WORD;
    var v := count + (total + n % 0x1_0000);
    DivMod(v, WORD);
    var r := v % WORD;
    if m == 0 {
      Quotient(count + len, WORD, v / WORD + q, r);
    } else if r + m < WORD {
      Quotient(count + len, WORD, v / WORD + q, r + m);
    } else {
      Quotient(count + len, WORD, v / WORD + q + 1, r + m - WORD);
    }
  }

  /** Every instruction is counted: run, the code of a segment the pass has treated advances COUNT by the
      number of its words, if and only if what remains after the reads is below 2^16. */
  lemma CountIsConserved(g: Setting, c: seq<Ins>, base: Reg, offset: int, h: Host)
    requires Words(h.state.regs) && |c| < WORD && Counted(c, base, offset).Some?
    requires forall i :: 0 <= i < |c| ==> IsMipsWord(c[i])
    ensures HostRun(g, Counted(c, base, offset).value, h).Some?
    ensures
      var t := HostRun(g, Counted(c, base, offset).value, h).value;
      t.state.regs(REG_COUNT) == (h.state.regs(REG_COUNT) + |c|) % WORD <==> (|c| - ReadTotal(c, 0)) % WORD < 0x1_0000
  {
    hide HostStep, HostRun, Update, IsMipsWord, AddsToCount, ReadTotal, WithReads, Remaining, Total, IsCountedCode;
    var (d, n, e) := (WithReads(c, 0), Remaining(c, 0, |c|), Counted(c, base, offset).value);
    ReadsAreCounted(c, 0);
    RemainingIs(c, 0, |c|);
    SameAdvance(h.state.regs(REG_COUNT), ReadTotal(c, 0), |c|, n);
    var k := CountedParts(c, base, offset);
    if n == 0 {
      CountedCodeRuns(g, d, h);
      assert Advances(h, HostRun(g, e, h).value, ReadTotal(c, 0));
    } else {
      PartsRun(g, d, k, n, base, offset, h);
    }
  }

  lemma CountedParts(c: seq<Ins>, base: Reg, offset: int) returns (k: nat)
    requires Counted(c, base, offset).Some?
    ensures
      var (d, n) := (WithReads(c, 0), Remaining(c, 0, |c|));
      && k <= |d|
      && Counted(c, base, offset).value == if n == 0 then d else d[..k] + Update(n, base, offset) + d[k..]
  {
    hide Update;
    var d := WithReads(c, 0);
    k := if |d| <= 1 then |d| else BranchFrom(d, 1);
  }

  /** The update in the middle of such code. */
  lemma PartsRun(g: Setting, d: seq<Ins>, k: nat, n: nat, base: Reg, offset: int, h: Host)
    requires Words(h.state.regs) && IsCountedCode(d) && k <= |d|
    ensures HostRun(g, d[..k] + Update(n, base, offset) + d[k..], h).Some?
    ensures
      var t := HostRun(g, d[..k] + Update(n, base, offset) + d[k..], h).value;
      t.state.regs(REG_COUNT) == Word(h.state.regs(REG_COUNT) + (Total(d) + n % 0x1_0000))
  {
    hide HostStep, HostRun, Update, Total, AddsToCount, IsMipsWord;
    var u := Update(n, base, offset);
    assert d == d[..k] + d[k..];
    TotalSplit(d[..k], d[k..]);
    CountedCodeRuns(g, d[..k], h);
    var s := HostRun(g, d[..k], h).value;
    UpdateRuns(g, n, base, offset, s);
    var t := HostRun(g, u, s).value;
    CountedCodeRuns(g, d[k..], t);
    HostRunSplit(g, d[..k], u, h);
    HostRunSplit(g, d[..k] + u, d[k..], h);
    ThreeAdvances(h.state.regs(REG_COUNT), Total(d[..k]), n % 0x1_0000, Total(d[k..]));
  }

  lemma ThreeAdvances(count: int, a: nat, b: nat, c: nat)
    ensures Word(Word(Word(count + a) + b) + c) == Word(count + (a + c + b))
  {
    hide Word;
    InterCode.WordAddition(count + a, b);
    InterCode.WordAddition(count + a + b, c);
    assert count + a + b + c == count + (a + c + b);
  }

  /** Behind an instruction that reads COUNT it has advanced by the number of instructions so far if and only
      if none in front of it reads COUNT: the additions start from the head of the segment again. */
  lemma ReadIsUpToDate(g: Setting, c: seq<Ins>, x: Ins, h: Host)
    requires Words(h.state.regs) && |c| < 0x8000 && ReadsCount(x)
    requires forall i :: 0 <= i < |c + [x]| ==> IsMipsWord((c + [x])[i])
    ensures HostRun(g, WithReads(c + [x], 0), h).Some?
    ensures
      var t := HostRun(g, WithReads(c + [x], 0), h).value;
      t.state.regs(REG_COUNT) == (h.state.regs(REG_COUNT) + |c| + 1) % WORD <==> NoReads(c)
  {
    hide HostStep, HostRun, IsMipsWord, AddsToCount, ReadTotal, WithReads, Total, IsCountedCode, ReadsCount;
    var d := WithReads(c + [x], 0);
    ReadsAreCounted(c + [x], 0);
    CountedCodeRuns(g, d, h);
    ReadTotalBehind(c, x, 0);
    ReadTotalBound(c, 0);
    NoTotalWithoutReads(c, 0);
    SmallAdvance(h.state.regs(REG_COUNT), |c| + 1, ReadTotal(c, 0));
  }

  lemma SmallAdvance(count: int, a: nat, b: nat)
    requires b < WORD
    ensures Word(count + (a + b)) == Word(count + a) <==> b == 0
  {
    var v := count + a;
    DivMod(v, WORD);
    var r := v % WORD;
    if r + b < WORD {
      Quotient(v + b, WORD, v / WORD, r + b);
    } else {
      Quotient(v + b, WORD, v / WORD + 1, r + b - WORD);
    }
  }

  lemma {:induction false} ReadTotalBehind(c: seq<Ins>, x: Ins, i: nat)
    requires ReadsCount(x)
    ensures ReadTotal(c + [x], i) == ReadTotal(c, i) + i + |c| + 1
  {
    hide ReadsCount;
    if c == [] {
      assert [x][1..] == [] && c + [x] == [x];
    } else {
      assert (c + [x])[1..] == c[1..] + [x];
      ReadTotalBehind(c[1..], x, i + 1);
    }
  }

  lemma {:induction false} ReadTotalBound(c: seq<Ins>, i: nat)
    requires i + |c| <= 0x8000
    ensures ReadTotal(c, i) <= 0x8000 * |c|
  {
    if c != [] {
      ReadTotalBound(c[1..], i + 1);
    }
  }

  lemma {:induction false} NoTotalWithoutReads(c: seq<Ins>, i: nat)
    ensures ReadTotal(c, i) == 0 <==> NoReads(c)
  {
    hide ReadsCount;
    if c != [] {
      NoTotalWithoutReads(c[1..], i + 1);
      assert NoReads(c) <==> !ReadsCount(c[0]) && NoReads(c[1..]);
    }
  }

  /** Translate_ALU, which runs later, leaves the update as it is. */
  lemma UpdateStays(n: nat, base: Reg, offset: int)
    ensures LowerAll(Update(n, base, offset)) == Some(Update(n, base, offset))
  {
    hide LowerAll;
    HostCodeStays(Update(n, base, offset));
  }
}
