/** Translate_Branch: the code a segment gets for the branch at its end and its delay slot, and
    the flag that is handed from one segment to the next so that each delay slot runs once.
 */
module DelaySlots {
  import opened Ir
  import opened Bits
  import opened Arm
  import opened Lowering
  import opened Segments
  import opened BranchConditions

  /** What an ordinary instruction does to the emulated machine, the ARM flags it leaves, the words of
      the emulated registers, and the literals. */
  datatype Guest<!W> = Guest(
    exec: (Ins, W) -> W, flags: (Ins, W) -> Flags, read: (W, Reg) -> nat, literal: (Reg, int) -> nat)

  function ReadWord<W>(g: Guest<W>, w: W, r: Reg): (v: nat)
    ensures v < WORD
  {
    g.read(w, r) % WORD
  }

  // ---------------------------------------------------------------------------------------
  // The code of a segment

  /** A node of the list, with the position of the node it branches to. */
  datatype Node = Node(ins: Ins, to: Option<nat>)

  /** Where a branch out of the segment goes: the literal with the segment's address and the
      address branched to. */
  datatype Exit = Exit(base: Reg, offset: int, address: int)

  predicate IsNop(x: Ins) {
    x.what.op.NoOp?
  }

  function TestFlag(): Ins {
    NewI(ArmTst, AL, REG_NOT_USED, REG_EMU_FLAGS, REG_NOT_USED, 1)
  }

  function ClearFlag(): Ins {
    NewI(ArmBic, AL, REG_EMU_FLAGS, REG_EMU_FLAGS, REG_NOT_USED, 1)
  }

  function SetFlag(): Ins {
    NewI(ArmOrr, AL, REG_EMU_FLAGS, REG_EMU_FLAGS, REG_NOT_USED, 1)
  }

  /** newInstrB with an absolute address. */
  function BranchTo(cond: Cond, address: int): Ins {
    var b := Blank(ArmB, cond);
    b.(what := b.what.(imm := address, isImm := true))
  }

  /** The arguments for the code that looks a target up: the segment and the address left from. */
  function LoadSegment(exit: Exit): Ins {
    NewI(ArmLdrLit, AL, REG_HOST_R0, REG_NOT_USED, exit.base, exit.offset)
  }

  function SaveAddress(): Ins {
    NewI(ArmSub, AL, REG_HOST_R1, REG_HOST_PC, REG_NOT_USED, 4)
  }

  /** The nodes that leave the segment, or go back to its head. */
  function Leave(cond: Cond, loops: bool, exit: Exit): seq<Node> {
    if loops then [Node(Blank(IntBranch, cond), Some(0))]
    else
      [ Node(LoadSegment(exit), None),
        Node(SaveAddress(), None),
        Node(BranchTo(cond, exit.address), None) ]
  }

  /** The delay slot, unless it is a no-op. */
  function SlotNodes(slot: Ins): seq<Node> {
    if IsNop(slot) then [] else [Node(slot, None)]
  }

  /** The opposite of the condition of a likely branch. */
  function NotTakenIf(op: Opcode): Cond {
    if op.MipsBeql? then NE else EQ
  }

  /** What replaces the branch x; the list has at nodes in front. */
  function BranchNodes(x: Ins, slot: Ins, loops: bool, exit: Exit, at: nat): seq<Node> {
    var op := x.what.op;
    if op.MipsJ? then
      SlotNodes(slot)
      + [Node(InstrI(x, ArmBic, AL, REG_EMU_FLAGS, REG_EMU_FLAGS, REG_NOT_USED, 1), None)]
      + Leave(AL, false, exit) + [Node(SetFlag(), None)]
    else if IsLikely(op) then
      var rest := SlotNodes(slot) + [Node(ClearFlag(), None)] + Leave(AL, loops, exit);
      var skip := if IsNop(slot) then [] else [Node(Blank(IntBranch, NotTakenIf(op)), Some(at + 3 + |rest|))];
      [Node(CompareHigh(x), None), Node(CompareLow(x), None)] + skip + rest + [Node(SetFlag(), None)]
    else
      SlotNodes(slot) + [Node(CompareHigh(x), None), Node(CompareLow(x), None), Node(ClearFlag(), None)]
      + Leave(TakenIf(op), loops, exit) + [Node(SetFlag(), None)]
  }

  /** Must the segment skip its first instruction when the flag is set? */
  predicate Skips(kind: SegType, first: Ins) {
    (kind == Sandwich || kind == End) && !IsNop(first)
  }

  /** The position of the second of the old nodes in the new list: it is the branch itself if the
      segment has one instruction in front of it, and then a delay slot comes before it. */
  function SecondNode(body: seq<Ins>, x: Ins, slot: Ins): nat {
    if |body| >= 2 || IsLikely(x.what.op) || IsNop(slot) then 3 else 4
  }

  function SkipNodes(kind: SegType, body: seq<Ins>, x: Ins, slot: Ins): seq<Node>
    requires body != []
  {
    if Skips(kind, body[0]) then
      [Node(TestFlag(), None), Node(Blank(IntBranch, NE), Some(SecondNode(body, x, slot)))]
    else []
  }

  function BodyNodes(body: seq<Ins>): (c: seq<Node>)
    ensures |c| == |body| && forall i :: 0 <= i < |c| ==> c[i] == Node(body[i], None)
  {
    seq(|body|, i requires 0 <= i < |body| => Node(body[i], None))
  }

  /** The code of a segment with the given instructions in front of the branch x. */
  function SegmentNodes(kind: SegType, body: seq<Ins>, x: Ins, slot: Ins, loops: bool, exit: Exit): seq<Node>
    requires body != []
  {
    var front := SkipNodes(kind, body, x, slot) + BodyNodes(body);
    front + BranchNodes(x, slot, loops, exit, |front|)
  }

  /** The code of a segment in front of an internal loop, which ends in no branch. */
  function FrontNodes(kind: SegType, body: seq<Ins>): seq<Node>
    requires body != []
  {
    (if Skips(kind, body[0]) then [Node(TestFlag(), None), Node(Blank(IntBranch, NE), Some(3))] else [])
      + BodyNodes(body)
  }

  // ---------------------------------------------------------------------------------------
  // Running the code of a segment

  /** The flag register, the registers in which the code that looks targets up finds its arguments, the
      ARM flags and the emulated machine. */
  datatype Host<W> = Host(ds: nat, r0: nat, r1: nat, flags: Flags, world: W)

  predicate FlagIsSet<W>(h: Host<W>) {
    h.ds % 2 == 1
  }

  /** Instructions that are neither made by Translate_Branch nor branches. */
  predicate IsOrdinary(x: Ins) {
    && !x.what.op.IntBranch? && !x.what.op.ArmB? && !x.what.op.ArmTst? && !x.what.op.ArmBic? && !x.what.op.ArmOrr?
    && !x.what.op.ArmCmp? && x.rd1 != REG_HOST_R0 && x.rd1 != REG_HOST_R1 && x.rd1 != REG_EMU_FLAGS
  }

  /** What register r holds where node i of the segment is run; the program counter reads as the place of
      the node behind the next one, counted from the start of the segment. */
  function Get<W>(g: Guest<W>, h: Host<W>, i: nat, r: Reg): (v: nat)
    ensures v < WORD
  {
    if r == REG_HOST_PC then (4 * i + 8) % WORD
    else if r == REG_EMU_FLAGS then h.ds % WORD
    else if r == REG_HOST_R0 then h.r0 % WORD
    else if r == REG_HOST_R1 then h.r1 % WORD
    else ReadWord(g, h.world, r)
  }

  function SecondOperand<W>(g: Guest<W>, h: Host<W>, i: nat, x: Ins): (v: nat)
    ensures v < WORD
  {
    if x.what.isImm then x.what.imm % WORD else Get(g, h, i, x.r2)
  }

  /** An instruction's effect on the emulated machine. */
  function Step<W>(g: Guest<W>, x: Ins, h: Host<W>): Host<W> {
    h.(flags := g.flags(x, h.world), world := g.exec(x, h.world))
  }

  /** Write the destination of x. */
  function Put<W>(g: Guest<W>, x: Ins, h: Host<W>, v: nat): Host<W> {
    if x.rd1 == REG_EMU_FLAGS then h.(ds := v)
    else if x.rd1 == REG_HOST_R0 then h.(r0 := v)
    else if x.rd1 == REG_HOST_R1 then h.(r1 := v)
    else Step(g, x, h)
  }

  /** Run node i, with the instruction x. */
  function Perform<W>(g: Guest<W>, x: Ins, i: nat, h: Host<W>): Host<W> {
    if IsOrdinary(x) then Step(g, x, h)
    else if !Holds(x.cond, h.flags) then h
    else
      var (a, b) := (Get(g, h, i, x.r1), SecondOperand(g, h, i, x));
      match x.what.op
      case ArmTst =>
        var r := Bitwise(And, 32, a, b);
        h.(flags := Flags(r >= 0x8000_0000, r == 0, h.flags.c, h.flags.v))
      case ArmCmp => h.(flags := Compared(a, b))
      case ArmBic => Put(g, x, h, Bitwise(And, 32, a, WORD - 1 - b))
      case ArmOrr => Put(g, x, h, Bitwise(Or, 32, a, b))
      case ArmSub => Put(g, x, h, (a - b) % WORD)
      case ArmLdrLit => Put(g, x, h, g.literal(x.r2, Displacement(x)))
      case _ => Step(g, x, h)
  }

  /** How control leaves the code of a segment: behind its end, back to a node of it, or by the branch at a
      node to the address in it. */
  datatype Outcome<W> =
    | Fell(host: Host<W>) | Looped(to: nat, host: Host<W>) | Left(at: nat, address: int, host: Host<W>)

  /** A branch inside the segment without a target is one to its end, as it is resolved. */
  function Pass<W>(g: Guest<W>, c: seq<Node>, i: nat, h: Host<W>): Outcome<W>
    decreases |c| - i
  {
    if i >= |c| then Fell(h)
    else if c[i].ins.what.op.IntBranch? then
      if !Holds(c[i].ins.cond, h.flags) then Pass(g, c, i + 1, h)
      else match c[i].to
        case None => Fell(h)
        case Some(t) => if t > i then Pass(g, c, t, h) else Looped(t, h)
    else if c[i].ins.what.op.ArmB? then
      if Holds(c[i].ins.cond, h.flags) then Left(i, c[i].ins.what.imm, h) else Pass(g, c, i + 1, h)
    else Pass(g, c, i + 1, Perform(g, c[i].ins, i, h))
  }

  function ExecAll<W>(g: Guest<W>, xs: seq<Ins>, w: W): W {
    if xs == [] then w else ExecAll(g, xs[1..], g.exec(xs[0], w))
  }

  /** The ARM flags the comparisons of branch x leave. */
  function BranchFlags<W>(g: Guest<W>, x: Ins, w: W): Flags {
    var register := IsEquality(x.what.op) && x.r2 != 0;
    CompareFlags(x.what.op, ReadWord(g, w, Wide(x.r1)), ReadWord(g, w, x.r1),
                 if register then ReadWord(g, w, Wide(x.r2)) else 0, if register then ReadWord(g, w, x.r2) else 0)
  }

  /** Does the emitted code take the branch? */
  predicate IsTaken<W>(g: Guest<W>, x: Ins, w: W) {
    Holds(TakenIf(x.what.op), BranchFlags(g, x, w))
  }

  // ---------------------------------------------------------------------------------------
  // Single steps

  lemma FlagBits(ds: nat)
    requires ds < WORD
    ensures Bitwise(And, 32, ds, 1) == ds % 2
    ensures Bitwise(Or, 32, ds, 1) == ds - ds % 2 + 1
    ensures Bitwise(And, 32, ds, WORD - 2) == ds - ds % 2
    ensures Bitwise(Or, 32, ds, 1) % 2 == 1 && Bitwise(And, 32, ds, WORD - 2) % 2 == 0
  {
    hide Pow2, Bitwise;
    Pow2Values();
    OneBitMore(And, ds, 1);
    OneBitMore(Or, ds, 1);
    OneBitMore(And, ds, WORD - 2);
    BitwiseZero(31, ds / 2);
    BitwiseOnes(31, ds / 2);
  }

  lemma OneBitMore(op: BitOp, a: nat, b: nat)
    ensures Bitwise(op, 32, a, b) == 2 * Bitwise(op, 31, a / 2, b / 2) + Bit(op, a % 2, b % 2)
  {
    BitwiseStep(op, 32, a, b, a / 2, b / 2);
  }

  lemma {:induction false} BitwiseOnes(n: nat, a: nat)
    requires a < Pow2(n)
    ensures Bitwise(And, n, a, Pow2(n) - 1) == a
  {
    if n > 0 {
      BitwiseOnes(n - 1, a / 2);
      BitwiseStep(And, n, a, Pow2(n) - 1, a / 2, Pow2(n - 1) - 1);
    }
  }

  /** An instruction on the flag. */
  predicate IsOnFlag(x: Ins) {
    x.what.isImm && x.what.imm == 1 && x.cond == AL && x.r1 == REG_EMU_FLAGS
  }

  lemma TestStep<W>(g: Guest<W>, x: Ins, i: nat, h: Host<W>)
    requires h.ds < WORD && IsOnFlag(x) && x.what.op.ArmTst?
    ensures
      var t := Perform(g, x, i, h);
      t.ds == h.ds && t.world == h.world && (t.flags.z <==> !FlagIsSet(h))
  {
    hide Bitwise;
    FlagBits(h.ds);
  }

  lemma ClearStep<W>(g: Guest<W>, x: Ins, i: nat, h: Host<W>)
    requires h.ds < WORD && IsOnFlag(x) && x.what.op.ArmBic? && x.rd1 == REG_EMU_FLAGS
    ensures
      var t := Perform(g, x, i, h);
      t.flags == h.flags && t.world == h.world && !FlagIsSet(t) && t.ds < WORD
  {
    hide Bitwise;
    FlagBits(h.ds);
  }

  lemma SetStep<W>(g: Guest<W>, x: Ins, i: nat, h: Host<W>)
    requires h.ds < WORD && IsOnFlag(x) && x.what.op.ArmOrr? && x.rd1 == REG_EMU_FLAGS
    ensures
      var t := Perform(g, x, i, h);
      t.flags == h.flags && t.world == h.world && FlagIsSet(t) && t.ds < WORD
  {
    hide Bitwise, Pow2, Compared, Displacement, Step, ReadWord;
    FlagBits(h.ds);
  }

  /** One step that does not branch. */
  lemma PassOne<W>(g: Guest<W>, c: seq<Node>, i: nat, h: Host<W>)
    requires i < |c| && !c[i].ins.what.op.IntBranch? && !c[i].ins.what.op.ArmB?
    ensures Pass(g, c, i, h) == Pass(g, c, i + 1, Perform(g, c[i].ins, i, h))
  {
  }

  /** part is in c at position i. */
  predicate At(c: seq<Node>, i: nat, part: seq<Node>) {
    i + |part| <= |c| && forall j :: 0 <= j < |part| ==> c[i + j] == part[j]
  }

  lemma AtParts(c: seq<Node>, i: nat, a: seq<Node>, b: seq<Node>)
    requires At(c, i, a + b)
    ensures At(c, i, a) && At(c, i + |a|, b)
  {
    forall j | 0 <= j < |a| ensures c[i + j] == a[j] {
      assert (a + b)[j] == a[j];
    }
    forall j | 0 <= j < |b| ensures c[i + |a| + j] == b[j] {
      assert c[i + (|a| + j)] == (a + b)[|a| + j] == b[j];
    }
  }

  lemma AtSelf(c: seq<Node>)
    ensures At(c, 0, c)
  {
  }

  lemma AtOne(c: seq<Node>, i: nat, n: Node)
    requires At(c, i, [n])
    ensures i < |c| && c[i] == n
  {
    assert c[i + 0] == [n][0];
  }

  lemma AtTwo(c: seq<Node>, i: nat, m: Node, n: Node)
    requires At(c, i, [m, n])
    ensures i + 1 < |c| && c[i] == m && c[i + 1] == n
  {
    assert c[i + 0] == [m, n][0] && c[i + 1] == [m, n][1];
  }

  function FlagsAfter<W>(g: Guest<W>, xs: seq<Ins>, w: W, f: Flags): Flags
    decreases |xs|
  {
    if xs == [] then f else FlagsAfter(g, xs[1..], g.exec(xs[0], w), g.flags(xs[0], w))
  }

  /** A stretch of ordinary instructions. */
  lemma {:induction false} PassOrdinary<W>(g: Guest<W>, c: seq<Node>, i: nat, xs: seq<Ins>, h: Host<W>)
    requires At(c, i, BodyNodes(xs)) && forall j :: 0 <= j < |xs| ==> IsOrdinary(xs[j])
    ensures Pass(g, c, i, h) ==
      Pass(g, c, i + |xs|, h.(flags := FlagsAfter(g, xs, h.world, h.flags), world := ExecAll(g, xs, h.world)))
    decreases |xs|
  {
    if xs != [] {
      assert c[i + 0] == BodyNodes(xs)[0];
      PassOne(g, c, i, h);
      forall j | 0 <= j < |xs| - 1 ensures c[i + 1 + j] == BodyNodes(xs[1..])[j] {
        assert c[i + (j + 1)] == BodyNodes(xs)[j + 1];
      }
      PassOrdinary(g, c, i + 1, xs[1..], Perform(g, xs[0], i, h));
    }
  }

  /** The delay slot's effect; a no-op has none. */
  function SlotExec<W>(g: Guest<W>, slot: Ins, w: W): W {
    if IsNop(slot) then w else g.exec(slot, w)
  }

  lemma PassSlot<W>(g: Guest<W>, c: seq<Node>, i: nat, slot: Ins, h: Host<W>) returns (f: Flags)
    requires At(c, i, SlotNodes(slot)) && IsOrdinary(slot)
    ensures Pass(g, c, i, h) == Pass(g, c, i + |SlotNodes(slot)|, h.(flags := f, world := SlotExec(g, slot, h.world)))
    ensures IsNop(slot) ==> f == h.flags
  {
    if IsNop(slot) {
      f := h.flags;
    } else {
      assert c[i + 0] == SlotNodes(slot)[0];
      PassOne(g, c, i, h);
      f := g.flags(slot, h.world);
    }
  }

  /** The two comparisons, and what they compare: words of emulated registers. */
  lemma ComparisonParts<W>(g: Guest<W>, x: Ins, i: nat, h: Host<W>)
    requires IsBranchWord(x)
    ensures
      var (hi, lo, register) := (CompareHigh(x), CompareLow(x), IsEquality(x.what.op) && x.r2 != 0);
      && hi.what.op == ArmCmp && hi.cond == AL && Get(g, h, i, hi.r1) == ReadWord(g, h.world, Wide(x.r1))
      && lo.what.op == ArmCmp && lo.cond == LowIf(x.what.op) && Get(g, h, i, lo.r1) == ReadWord(g, h.world, x.r1)
      && SecondOperand(g, h, i, hi) == (if register then ReadWord(g, h.world, Wide(x.r2)) else 0)
      && SecondOperand(g, h, i, lo) == (if register then ReadWord(g, h.world, x.r2) else 0)
  {
    hide ReadWord;
  }

  /** The registers a branch compares are emulated ones. */
  predicate IsBranchWord(x: Ins) {
    x.r1 < REG_WIDE && (IsEquality(x.what.op) ==> x.r2 < REG_WIDE)
  }

  lemma PerformCompare<W>(g: Guest<W>, x: Ins, i: nat, h: Host<W>)
    requires x.what.op == ArmCmp
    ensures Perform(g, x, i, h) ==
      if Holds(x.cond, h.flags) then h.(flags := Compared(Get(g, h, i, x.r1), SecondOperand(g, h, i, x))) else h
  {
  }

  lemma PassCompare<W>(g: Guest<W>, c: seq<Node>, i: nat, x: Ins, h: Host<W>)
    requires At(c, i, [Node(CompareHigh(x), None), Node(CompareLow(x), None)]) && !x.what.op.MipsJ? && IsBranchWord(x)
    ensures Pass(g, c, i, h) == Pass(g, c, i + 2, h.(flags := BranchFlags(g, x, h.world)))
  {
    hide Compared, Pass, At, Perform, CompareHigh, CompareLow, SecondOperand, ReadWord, Wide, Get;
    AtTwo(c, i, Node(CompareHigh(x), None), Node(CompareLow(x), None));
    ComparisonParts(g, x, i, h);
    PassOne(g, c, i, h);
    PerformCompare(g, CompareHigh(x), i, h);
    var h1 := Perform(g, CompareHigh(x), i, h);
    ComparisonParts(g, x, i + 1, h1);
    PassOne(g, c, i + 1, h1);
    PerformCompare(g, CompareLow(x), i + 1, h1);
  }

  /** An instruction that clears the flag. */
  predicate Clears(x: Ins) {
    x.what.op.ArmBic? && IsOnFlag(x) && x.rd1 == REG_EMU_FLAGS
  }

  lemma PassClear<W>(g: Guest<W>, c: seq<Node>, i: nat, x: Ins, h: Host<W>) returns (t: Host<W>)
    requires h.ds < WORD && Clears(x) && At(c, i, [Node(x, None)])
    ensures Pass(g, c, i, h) == Pass(g, c, i + 1, t)
    ensures !FlagIsSet(t) && t.flags == h.flags && t.world == h.world && t.ds < WORD
  {
    hide Perform, At, Pass;
    AtOne(c, i, Node(x, None));
    PassOne(g, c, i, h);
    ClearStep(g, x, i, h);
    t := Perform(g, x, i, h);
  }

  /** What is known where the branch out of the segment, node at, is run: the arguments of the code that looks
      targets up are the segment's literal and the place of the branch. */
  function Prepared<W>(g: Guest<W>, exit: Exit, at: nat, h: Host<W>): Host<W> {
    h.(r0 := g.literal(exit.base, exit.offset), r1 := 4 * at % WORD)
  }

  lemma PassLeave<W>(g: Guest<W>, c: seq<Node>, i: nat, cond: Cond, loops: bool, exit: Exit, h: Host<W>)
    requires At(c, i, Leave(cond, loops, exit))
    ensures
      var t := if loops then h else Prepared(g, exit, i + 2, h);
      Pass(g, c, i, h) ==
      if !Holds(cond, h.flags) then Pass(g, c, i + |Leave(cond, loops, exit)|, t)
      else if loops then Looped(0, t) else Left(i + 2, exit.address, t)
  {
    hide Perform, At, Holds;
    if loops {
      AtOne(c, i, Node(Blank(IntBranch, cond), Some(0)));
    } else {
      hide Pass;
      LeavingNodes(c, i, cond, exit);
      PassOne(g, c, i, h);
      PerformLoad(g, exit, i, h);
      var h1 := h.(r0 := g.literal(exit.base, exit.offset));
      PassOne(g, c, i + 1, h1);
      PerformSave(g, i + 1, h1);
      PassExit(g, c, i + 2, Prepared(g, exit, i + 2, h));
    }
  }

  lemma PerformLoad<W>(g: Guest<W>, exit: Exit, i: nat, h: Host<W>)
    ensures Perform(g, LoadSegment(exit), i, h) == h.(r0 := g.literal(exit.base, exit.offset))
  {
  }

  lemma PerformSave<W>(g: Guest<W>, i: nat, h: Host<W>)
    ensures Perform(g, SaveAddress(), i, h) == h.(r1 := 4 * (i + 1) % WORD)
  {
    var pc := 4 * i + 8;
    assert (pc % WORD - 4) % WORD == (pc - 4) % WORD;
  }

  lemma PassExit<W>(g: Guest<W>, c: seq<Node>, i: nat, h: Host<W>)
    requires i < |c| && c[i].ins.what.op.ArmB?
    ensures Pass(g, c, i, h) ==
      if Holds(c[i].ins.cond, h.flags) then Left(i, c[i].ins.what.imm, h) else Pass(g, c, i + 1, h)
  {
    hide Perform, Holds;
  }

  lemma LeavingNodes(c: seq<Node>, i: nat, cond: Cond, exit: Exit)
    requires At(c, i, Leave(cond, false, exit))
    ensures
      var part := Leave(cond, false, exit);
      |part| == 3 && i + 2 < |c| && c[i] == part[0] && c[i + 1] == part[1] && c[i + 2] == part[2]
  {
    var part := Leave(cond, false, exit);
    assert c[i + 0] == part[0] && c[i + 1] == part[1] && c[i + 2] == part[2];
  }

  /** A forward branch inside the segment. */
  lemma PassSkip<W>(g: Guest<W>, c: seq<Node>, i: nat, cond: Cond, to: nat, h: Host<W>)
    requires At(c, i, [Node(Blank(IntBranch, cond), Some(to))]) && i < to
    ensures Pass(g, c, i, h) == if Holds(cond, h.flags) then Pass(g, c, to, h) else Pass(g, c, i + 1, h)
  {
    hide At, Holds, Perform;
    AtOne(c, i, Node(Blank(IntBranch, cond), Some(to)));
  }

  lemma PassSet<W>(g: Guest<W>, c: seq<Node>, i: nat, h: Host<W>) returns (t: Host<W>)
    requires h.ds < WORD && At(c, i, [Node(SetFlag(), None)]) && i + 1 == |c|
    ensures Pass(g, c, i, h) == Fell(t) && FlagIsSet(t) && t.world == h.world && t.ds < WORD
  {
    hide Bitwise, At;
    AtOne(c, i, Node(SetFlag(), None));
    PassOne(g, c, i, h);
    SetStep(g, SetFlag(), i, h);
    t := Perform(g, SetFlag(), i, h);
  }

  // ---------------------------------------------------------------------------------------
  // The three kinds of ends

  /** What the end of a segment comes to: the branch is taken with the flag clear, to the address of the exit
      or back to the head, or control falls through with the flag set. A branch out of the segment finds
      the literal of the exit and its own place in the argument registers. */
  ghost predicate Ends<W>(g: Guest<W>, o: Outcome<W>, taken: bool, loops: bool, exit: Exit, w: W) {
    && o.host.world == w && o.host.ds < WORD
    && match o
      case Fell(h) => !taken && FlagIsSet(h)
      case Looped(to, h) => taken && loops && to == 0 && !FlagIsSet(h)
      case Left(at, a, h) =>
        && taken && !loops && a == exit.address && !FlagIsSet(h)
        && h.r0 == g.literal(exit.base, exit.offset) && h.r1 == 4 * at % WORD
  }

  lemma PassJump<W>(g: Guest<W>, c: seq<Node>, at: nat, x: Ins, slot: Ins, loops: bool, exit: Exit, h: Host<W>)
    requires x.what.op.MipsJ? && IsOrdinary(slot) && h.ds < WORD
    requires At(c, at, BranchNodes(x, slot, loops, exit, at)) && at + |BranchNodes(x, slot, loops, exit, at)| == |c|
    ensures Ends(g, Pass(g, c, at, h), true, false, exit, SlotExec(g, slot, h.world))
  {
    hide Pass, Perform, Leave, SlotNodes, SlotExec, IsOrdinary, At, Blank;
    var bic := InstrI(x, ArmBic, AL, REG_EMU_FLAGS, REG_EMU_FLAGS, REG_NOT_USED, 1);
    var (s, b, l, e) := (SlotNodes(slot), [Node(bic, None)], Leave(AL, false, exit), [Node(SetFlag(), None)]);
    AtParts(c, at, s + b + l, e);
    AtParts(c, at, s + b, l);
    AtParts(c, at, s, b);
    var f := PassSlot(g, c, at, slot, h);
    var h1 := h.(flags := f, world := SlotExec(g, slot, h.world));
    var h2 := PassClear(g, c, at + |s|, bic, h1);
    PassLeave(g, c, at + |s| + 1, AL, false, exit, h2);
  }

  lemma ConditionalParts(c: seq<Node>, at: nat, x: Ins, slot: Ins, loops: bool, exit: Exit)
    requires !x.what.op.MipsJ? && !IsLikely(x.what.op)
    requires At(c, at, BranchNodes(x, slot, loops, exit, at)) && at + |BranchNodes(x, slot, loops, exit, at)| == |c|
    ensures
      var n := at + |SlotNodes(slot)|;
      && At(c, at, SlotNodes(slot)) && At(c, n, [Node(CompareHigh(x), None), Node(CompareLow(x), None)])
      && At(c, n + 2, [Node(ClearFlag(), None)]) && At(c, n + 3, Leave(TakenIf(x.what.op), loops, exit))
      && |c| - 1 == n + 3 + |Leave(TakenIf(x.what.op), loops, exit)| && At(c, |c| - 1, [Node(SetFlag(), None)])
  {
    hide At, Leave, SlotNodes, CompareHigh, CompareLow, ClearFlag, SetFlag;
    var (s, l, e) := (SlotNodes(slot), Leave(TakenIf(x.what.op), loops, exit), [Node(SetFlag(), None)]);
    var (p, b) := ([Node(CompareHigh(x), None), Node(CompareLow(x), None)], [Node(ClearFlag(), None)]);
    assert BranchNodes(x, slot, loops, exit, at) == s + (p + b) + l + e;
    AtParts(c, at, s + (p + b) + l, e);
    AtParts(c, at, s + (p + b), l);
    AtParts(c, at, s, p + b);
    AtParts(c, at + |s|, p, b);
  }

  lemma PassConditional<W>(g: Guest<W>, c: seq<Node>, at: nat, x: Ins, slot: Ins, loops: bool, exit: Exit, h: Host<W>)
    requires !x.what.op.MipsJ? && !IsLikely(x.what.op) && IsOrdinary(slot) && IsBranchWord(x) && h.ds < WORD
    requires At(c, at, BranchNodes(x, slot, loops, exit, at)) && at + |BranchNodes(x, slot, loops, exit, at)| == |c|
    ensures
      var w := SlotExec(g, slot, h.world);
      Ends(g, Pass(g, c, at, h), IsTaken(g, x, w), loops, exit, w)
  {
    hide Pass, Perform, Leave, SlotNodes, SlotExec, IsOrdinary, BranchFlags, At, Holds, BranchNodes, CompareHigh,
      CompareLow;
    var n := at + |SlotNodes(slot)|;
    ConditionalParts(c, at, x, slot, loops, exit);
    var f := PassSlot(g, c, at, slot, h);
    var h1 := h.(flags := f, world := SlotExec(g, slot, h.world));
    PassCompare(g, c, n, x, h1);
    var h2 := PassClear(g, c, n + 2, ClearFlag(), h1.(flags := BranchFlags(g, x, h1.world)));
    PassLeave(g, c, n + 3, TakenIf(x.what.op), loops, exit, h2);
    if !IsTaken(g, x, h1.world) {
      var h3 := PassSet(g, c, |c| - 1, if loops then h2 else Prepared(g, exit, n + 5, h2));
    }
  }

  lemma OppositeConditions(op: Opcode, f: Flags)
    requires IsLikely(op)
    ensures Holds(NotTakenIf(op), f) <==> !Holds(TakenIf(op), f)
  {
  }

  lemma LikelyParts(c: seq<Node>, at: nat, x: Ins, slot: Ins, loops: bool, exit: Exit)
    requires IsLikely(x.what.op) && !IsNop(slot)
    requires At(c, at, BranchNodes(x, slot, loops, exit, at)) && at + |BranchNodes(x, slot, loops, exit, at)| == |c|
    ensures
      && At(c, at, [Node(CompareHigh(x), None), Node(CompareLow(x), None)])
      && At(c, at + 2, [Node(Blank(IntBranch, NotTakenIf(x.what.op)), Some(|c| - 1))])
      && At(c, at + 3, SlotNodes(slot)) && |SlotNodes(slot)| == 1
      && At(c, at + 4, [Node(ClearFlag(), None)]) && At(c, at + 5, Leave(AL, loops, exit))
      && at + 2 < |c| - 1 && At(c, |c| - 1, [Node(SetFlag(), None)])
  {
    hide At, Leave, CompareHigh, CompareLow, ClearFlag, SetFlag, Blank;
    var (s, b, l, e) := (SlotNodes(slot), [Node(ClearFlag(), None)], Leave(AL, loops, exit), [Node(SetFlag(), None)]);
    var p := [Node(CompareHigh(x), None), Node(CompareLow(x), None)];
    var skip := [Node(Blank(IntBranch, NotTakenIf(x.what.op)), Some(at + 3 + |s + b + l|))];
    AtParts(c, at, p + skip + (s + b + l), e);
    AtParts(c, at, p + skip, s + b + l);
    AtParts(c, at, p, skip);
    AtParts(c, at + 3, s + b, l);
    AtParts(c, at + 3, s, b);
  }

  lemma PassLikely<W>(g: Guest<W>, c: seq<Node>, at: nat, x: Ins, slot: Ins, loops: bool, exit: Exit, h: Host<W>)
    requires IsLikely(x.what.op) && IsOrdinary(slot) && !IsNop(slot) && IsBranchWord(x) && h.ds < WORD
    requires At(c, at, BranchNodes(x, slot, loops, exit, at)) && at + |BranchNodes(x, slot, loops, exit, at)| == |c|
    ensures
      var taken := IsTaken(g, x, h.world);
      Ends(g, Pass(g, c, at, h), taken, loops, exit, if taken then g.exec(slot, h.world) else h.world)
  {
    hide Pass, Perform, Leave, SlotNodes, IsOrdinary, BranchFlags, At, Holds, BranchNodes, CompareHigh, CompareLow;
    LikelyParts(c, at, x, slot, loops, exit);
    PassCompare(g, c, at, x, h);
    var h1 := h.(flags := BranchFlags(g, x, h.world));
    PassSkip(g, c, at + 2, NotTakenIf(x.what.op), |c| - 1, h1);
    OppositeConditions(x.what.op, h1.flags);
    if IsTaken(g, x, h.world) {
      var f := PassSlot(g, c, at + 3, slot, h1);
      var h2 := PassClear(g, c, at + 4, ClearFlag(), h.(flags := f, world := SlotExec(g, slot, h.world)));
      PassLeave(g, c, at + 5, AL, loops, exit, h2);
      AlwaysHolds(h2.flags);
    } else {
      var h2 := PassSet(g, c, |c| - 1, h1);
    }
  }

  lemma AlwaysHolds(f: Flags)
    ensures Holds(AL, f)
  {
  }

  // ---------------------------------------------------------------------------------------
  // A whole segment

  /** A no-op does nothing. */
  ghost predicate NopsDoNothing<W(!new)>(g: Guest<W>) {
    forall x: Ins, w: W :: IsNop(x) ==> g.exec(x, w) == w
  }

  predicate AllOrdinary(xs: seq<Ins>) {
    forall i :: 0 <= i < |xs| ==> IsOrdinary(xs[i])
  }

  /** Is the branch taken, and what has the delay slot done, when the instructions in front of it
      have led to w? */
  ghost function EndOf<W>(g: Guest<W>, x: Ins, slot: Ins, w: W): (bool, W) {
    var after := g.exec(slot, w);
    if x.what.op.MipsJ? then (true, after)
    else if IsLikely(x.what.op) then (IsTaken(g, x, w), if IsTaken(g, x, w) then after else w)
    else (IsTaken(g, x, after), after)
  }

  lemma SlotIsExecuted<W(!new)>(g: Guest<W>, slot: Ins, w: W)
    requires NopsDoNothing(g)
    ensures SlotExec(g, slot, w) == g.exec(slot, w)
  {
  }

  lemma PassEnd<W(!new)>(g: Guest<W>, c: seq<Node>, at: nat, x: Ins, slot: Ins, loops: bool, exit: Exit, h: Host<W>)
    requires NopsDoNothing(g) && IsOrdinary(slot) && (!x.what.op.MipsJ? ==> IsBranchWord(x)) && h.ds < WORD &&
      (IsLikely(x.what.op) ==> !IsNop(slot))
    requires At(c, at, BranchNodes(x, slot, loops, exit, at)) && at + |BranchNodes(x, slot, loops, exit, at)| == |c|
    ensures
      var (taken, w) := EndOf(g, x, slot, h.world);
      Ends(g, Pass(g, c, at, h), taken, loops && !x.what.op.MipsJ?, exit, w)
  {
    hide Pass, BranchNodes, At, IsTaken, Ends, IsOrdinary, SlotExec;
    SlotIsExecuted(g, slot, h.world);
    if x.what.op.MipsJ? {
      PassJump(g, c, at, x, slot, loops, exit, h);
    } else if IsLikely(x.what.op) {
      PassLikely(g, c, at, x, slot, loops, exit, h);
    } else {
      PassConditional(g, c, at, x, slot, loops, exit, h);
    }
  }

  /** The body, without its first instruction if skip holds. */
  function BodyRun(body: seq<Ins>, skip: bool): seq<Ins>
    requires body != []
  {
    if skip then body[1..] else body
  }

  lemma PassBody<W>(g: Guest<W>, c: seq<Node>, at: nat, body: seq<Ins>, skip: bool, h: Host<W>) returns (f: Flags)
    requires body != [] && At(c, at, BodyNodes(body)) && AllOrdinary(body)
    ensures Pass(g, c, if skip then at + 1 else at, h) ==
      Pass(g, c, at + |body|, h.(flags := f, world := ExecAll(g, BodyRun(body, skip), h.world)))
  {
    hide Pass, Perform, ExecAll, IsOrdinary, FlagsAfter;
    f := FlagsAfter(g, BodyRun(body, skip), h.world, h.flags);
    if skip {
      forall j | 0 <= j < |body| - 1 ensures c[at + 1 + j] == BodyNodes(body[1..])[j] {
        assert c[at + (j + 1)] == BodyNodes(body)[j + 1];
      }
      PassOrdinary(g, c, at + 1, body[1..], h);
    } else {
      PassOrdinary(g, c, at, body, h);
    }
  }

  lemma SegmentParts(kind: SegType, body: seq<Ins>, x: Ins, slot: Ins, loops: bool, exit: Exit)
    requires body != []
    ensures
      var c := SegmentNodes(kind, body, x, slot, loops, exit);
      var p := if Skips(kind, body[0]) then 2 else 0;
      var at := p + |body|;
      && At(c, p, BodyNodes(body)) && At(c, at, BranchNodes(x, slot, loops, exit, at))
      && at + |BranchNodes(x, slot, loops, exit, at)| == |c|
      && (Skips(kind, body[0]) ==>
          && At(c, 0, [Node(TestFlag(), None)])
          && At(c, 1, [Node(Blank(IntBranch, NE), Some(SecondNode(body, x, slot)))]))
  {
    hide BranchNodes, TestFlag, Blank, At, SecondNode, Skips;
    var c := SegmentNodes(kind, body, x, slot, loops, exit);
    var s := SkipNodes(kind, body, x, slot);
    SegmentThirds(kind, body, x, slot, loops, exit);
    if Skips(kind, body[0]) {
      var skip := Node(Blank(IntBranch, NE), Some(SecondNode(body, x, slot)));
      assert s == [Node(TestFlag(), None)] + [skip];
      AtParts(c, 0, [Node(TestFlag(), None)], [skip]);
    }
  }

  lemma SegmentThirds(kind: SegType, body: seq<Ins>, x: Ins, slot: Ins, loops: bool, exit: Exit)
    requires body != []
    ensures
      var (c, s) := (SegmentNodes(kind, body, x, slot, loops, exit), SkipNodes(kind, body, x, slot));
      && At(c, 0, s) && At(c, |s|, BodyNodes(body))
      && At(c, |s| + |body|, BranchNodes(x, slot, loops, exit, |s| + |body|))
      && |s| + |body| + |BranchNodes(x, slot, loops, exit, |s| + |body|)| == |c|
  {
    hide BranchNodes, SkipNodes, At;
    var c := SegmentNodes(kind, body, x, slot, loops, exit);
    var (s, b) := (SkipNodes(kind, body, x, slot), BodyNodes(body));
    AtSelf(c);
    AtParts(c, 0, s + b, BranchNodes(x, slot, loops, exit, |s + b|));
    AtParts(c, 0, s, b);
  }

  /** The code of a segment runs its instructions, without the first one exactly when the flag is
      set on entry, and the delay slot once; and it hands the flag on. */
  lemma PassSegment<W(!new)>(g: Guest<W>, kind: SegType, body: seq<Ins>, x: Ins, slot: Ins, loops: bool, exit: Exit,
                             h: Host<W>)
    requires NopsDoNothing(g) && body != [] && AllOrdinary(body) && IsOrdinary(slot) && h.ds < WORD
    requires !x.what.op.MipsJ? ==> IsBranchWord(x)
    requires IsLikely(x.what.op) ==> !IsNop(slot)
    requires FlagIsSet(h) ==> (Skips(kind, body[0]) && |body| >= 2) || IsNop(body[0])
    ensures
      var (taken, w) := EndOf(g, x, slot, ExecAll(g, BodyRun(body, FlagIsSet(h)), h.world));
      Ends(g, Pass(g, SegmentNodes(kind, body, x, slot, loops, exit), 0, h), taken, loops && !x.what.op.MipsJ?, exit, w)
  {
    hide Pass, BranchNodes, At, IsTaken, Ends, AllOrdinary, IsOrdinary, Perform, SegmentNodes, EndOf, TestFlag, Blank,
      Holds;
    var c := SegmentNodes(kind, body, x, slot, loops, exit);
    var p := if Skips(kind, body[0]) then 2 else 0;
    SegmentParts(kind, body, x, slot, loops, exit);
    var h1 := h;
    if Skips(kind, body[0]) {
      h1 := PassTest(g, c, SecondNode(body, x, slot), h);
    }
    var skip := FlagIsSet(h) && Skips(kind, body[0]);
    var f := PassBody(g, c, p, body, skip, h1);
    SkippedNop(g, body, h.world);
    PassEnd(g, c, p + |body|, x, slot, loops, exit, h1.(flags := f, world := ExecAll(g, BodyRun(body, skip), h.world)));
  }

  /** A no-op at the front may be run or skipped. */
  lemma SkippedNop<W(!new)>(g: Guest<W>, body: seq<Ins>, w: W)
    requires NopsDoNothing(g) && body != []
    ensures IsNop(body[0]) ==> ExecAll(g, BodyRun(body, true), w) == ExecAll(g, BodyRun(body, false), w)
  {
  }

  /** The two nodes at the head: with the flag set, control goes to the given node. */
  lemma PassTest<W>(g: Guest<W>, c: seq<Node>, second: nat, h: Host<W>) returns (t: Host<W>)
    requires At(c, 0, [Node(TestFlag(), None)]) && At(c, 1, [Node(Blank(IntBranch, NE), Some(second))]) && second > 1
    requires h.ds < WORD
    ensures Pass(g, c, 0, h) == Pass(g, c, if FlagIsSet(h) then second else 2, t)
    ensures t.ds == h.ds && t.world == h.world
  {
    hide At, Pass, Blank, Perform;
    AtOne(c, 0, Node(TestFlag(), None));
    PassOne(g, c, 0, h);
    TestStep(g, TestFlag(), 0, h);
    t := Perform(g, TestFlag(), 0, h);
    PassSkip(g, c, 1, NE, second, t);
  }

  /** The code in front of an internal loop runs its instructions, without the first one exactly when the
      flag is set on entry, and leaves the flag as it is. */
  lemma PassFront<W(!new)>(g: Guest<W>, kind: SegType, body: seq<Ins>, h: Host<W>) returns (t: Host<W>)
    requires NopsDoNothing(g) && |body| >= 2 && AllOrdinary(body) && h.ds < WORD
    requires FlagIsSet(h) ==> Skips(kind, body[0]) || IsNop(body[0])
    ensures Pass(g, FrontNodes(kind, body), 0, h) == Fell(t)
    ensures t.ds == h.ds && t.world == ExecAll(g, BodyRun(body, FlagIsSet(h)), h.world)
  {
    hide Pass, At, TestFlag, Blank, Perform, AllOrdinary, ExecAll, Holds, IsOrdinary;
    hide FrontNodes, Skips, FlagIsSet, IsNop, BodyRun;
    var c := FrontNodes(kind, body);
    FrontParts(kind, body);
    var h1, p := h, 0;
    if Skips(kind, body[0]) {
      h1 := PassTest(g, c, 3, h);
      p := 2;
    }
    var skips := FlagIsSet(h) && Skips(kind, body[0]);
    var f := PassBody(g, c, p, body, skips, h1);
    SkippedNop(g, body, h.world);
    t := h1.(flags := f, world := ExecAll(g, BodyRun(body, skips), h.world));
    PassedEnd(g, c, t);
  }

  lemma FrontParts(kind: SegType, body: seq<Ins>)
    requires body != []
    ensures
      var (c, p) := (FrontNodes(kind, body), if Skips(kind, body[0]) then 2 else 0);
      && At(c, p, BodyNodes(body)) && |c| == p + |body|
      && (Skips(kind, body[0]) ==>
          At(c, 0, [Node(TestFlag(), None)]) && At(c, 1, [Node(Blank(IntBranch, NE), Some(3))]))
  {
    hide TestFlag, Blank, At, Skips, FrontNodes, BodyNodes;
    var (c, b) := (FrontNodes(kind, body), BodyNodes(body));
    var (test, skip) := ([Node(TestFlag(), None)], [Node(Blank(IntBranch, NE), Some(3))]);
    FrontIs(kind, body);
    AtSelf(c);
    if Skips(kind, body[0]) {
      AtParts(c, 0, test + skip, b);
      AtParts(c, 0, test, skip);
    }
  }

  lemma FrontIs(kind: SegType, body: seq<Ins>)
    requires body != []
    ensures FrontNodes(kind, body) ==
      if Skips(kind, body[0]) then [Node(TestFlag(), None)] + [Node(Blank(IntBranch, NE), Some(3))] + BodyNodes(body)
      else BodyNodes(body)
  {
    hide TestFlag, Blank, Skips, BodyNodes;
    assert [] + BodyNodes(body) == BodyNodes(body);
  }

  lemma PassedEnd<W>(g: Guest<W>, c: seq<Node>, h: Host<W>)
    ensures Pass(g, c, |c|, h) == Fell(h)
  {
  }
}
