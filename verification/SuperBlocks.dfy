/** A super block as MIPS code and as the lists Translate_Branch leaves for its segments: how both run.
 */
module SuperBlocks {
  import opened Ir
  import opened DoubleWords
  import opened Lowering
  import opened Segments
  import opened BranchConditions
  import opened DelaySlots
  import opened BranchTargets
  import opened CountRegister

  /** A super block: the classes of its words, the instructions from the first word to the delay slot of
      the last one, and the word its J leads to. Each segment has a literal with the address of
      cc_interrupt and one with its own address. */
  datatype Program = Program(code: seq<MipsWord>, words: seq<Ins>, jump: int, calls: int -> (Reg, int),
                             literals: int -> (Reg, int))
  {
    function Len(): nat {
      BlockLength(code)
    }

    function Segs(): seq<Piece> {
      Pieces(code)
    }
  }

  // ---------------------------------------------------------------------------------------
  // What the result is about

  predicate IsBranchOp(op: Opcode) {
    IsEquality(op) || IsSignTest(op)
  }

  /** An instruction that is no branch and does not read COUNT. */
  predicate IsPlainWord(x: Ins) {
    IsOrdinary(x) && !IsHandled(x.what.op) && !ReadsCount(x)
  }

  /** The instruction of word i is of the word's class; a likely branch has a delay slot that is not a
      no-op. */
  predicate FitsClass(b: Program, i: nat)
    requires b.Len() <= |b.code| && i < b.Len() < |b.words|
  {
    match b.code[i]
    case Plain => IsPlainWord(b.words[i])
    case Branch(_) =>
      && IsBranchOp(b.words[i].what.op) && IsBranchWord(b.words[i])
      && (IsLikely(b.words[i].what.op) ==> !IsNop(b.words[i + 1]))
    case Jump(_) => b.words[i].what.op == MipsJ
    case Invalid => false
  }

  /** Each segment that was cut off in front of an internal loop has one word: for a longer one the COUNT
      pass runs off the end of the list. */
  predicate HasShortFronts(code: seq<MipsWord>, ps: seq<Piece>) {
    forall k :: 0 <= k < |ps| && 0 < ps[k].start + ps[k].len <= |code| && code[ps[k].start + ps[k].len - 1].Plain? ==>
      ps[k].len <= 1
  }

  /** A super block without linking jumps whose branches and jump are modelled, and whose delay slots are no
      branches. */
  predicate IsSupported(b: Program) {
    var n := b.Len();
    && HasShortOffsets(b.code) && 0 < n < 0x4000_0000 && NoFarWrap(b.code, n) && HasPlainSlots(b.code, n)
    && (forall i :: 0 <= i < n ==> b.code[i] != Jump(true)) && HasShortFronts(b.code, b.Segs())
    && |b.words| == n + 1 && IsPlainWord(b.words[n]) && (forall i :: 0 <= i < n ==> FitsClass(b, i))
  }

  lemma WordCount(b: Program)
    requires IsSupported(b)
    ensures |b.words| == b.Len() + 1 && b.Len() <= |b.code|
  {
  }

  lemma JumpIsLast(b: Program, e: nat)
    requires IsSupported(b) && e < b.Len() && b.code[e].Jump?
    ensures e + 1 == b.Len()
  {
    assert Stops(b.code[e]);
  }

  /** How the block is cut: a partition into segments with words in front of their branches, and with the
      types that make them skip their first word; each one cut off in front of a loop has one word. */
  ghost predicate IsSegmented(b: Program) {
    var (n, ps) := (b.Len(), b.Segs());
    && Covers(ps, 0, n) && LoopsFollow(b.code, n, ps)
    && (forall k {:trigger ps[k]} :: 0 <= k < |ps| ==>
        && (k > 0 ==> ps[k].kind == Sandwich || ps[k].kind == End)
        && (EndsPlain(b.code, n, ps[k]) ==> ps[k].len == 1))
  }

  ghost predicate IsCut(b: Program) {
    IsSupported(b) && IsSegmented(b)
  }

  /** What the cutting makes of a supported block. */
  lemma SupportedIsSegmented(b: Program)
    requires IsSupported(b)
    ensures IsSegmented(b)
  {
    hide FitsClass, NoFarWrap, HasPlainSlots, HasShortOffsets, LoopsFollow, Covers, BlockLength, Pieces;
    var (n, ps) := (b.Len(), b.Segs());
    PiecesArePartition(b.code);
    PiecesAreSound(b.code);
    PiecesHaveWords(b.code);
    forall k {:trigger ps[k]} | 0 <= k < |ps|
      ensures HasWords(b.code, n, ps[k]) && (k > 0 ==> ps[k].kind == Sandwich || ps[k].kind == End)
      ensures EndsPlain(b.code, n, ps[k]) ==> ps[k].len == 1
    {
      assert ps[k] in ps;
      FollowingHasWords(b.code, n, ps, k);
      CoversBounds(ps, 0, n, k);
    }
  }

  lemma FollowingHasWords(code: seq<MipsWord>, n: nat, ps: seq<Piece>, k: nat)
    requires n <= |code| && LoopsFollow(code, n, ps) && k < |ps|
    ensures HasWords(code, n, ps[k])
    ensures EndsPlain(code, n, ps[k]) ==> k + 1 < |ps| && HasWords(code, n, ps[k + 1]) && !EndsPlain(code, n, ps[k + 1])
  {
  }

  // ---------------------------------------------------------------------------------------
  // The segments

  /** The last word of segment k. */
  function LastWord(b: Program, k: nat): int
    requires k < |b.Segs()|
  {
    b.Segs()[k].start + b.Segs()[k].len - 1
  }

  /** Segment k was cut off in front of a loop. */
  ghost predicate IsFront(b: Program, k: nat)
    requires IsSegmented(b) && k < |b.Segs()|
  {
    FollowingHasWords(b.code, b.Len(), b.Segs(), k);
    EndsPlain(b.code, b.Len(), b.Segs()[k])
  }

  /** The update of COUNT at the end of segment k. */
  function Bookkeeping(b: Program, k: nat): seq<Ins>
    requires k < |b.Segs()|
  {
    Update(b.Segs()[k].len, b.calls(k).0, b.calls(k).1)
  }

  /** The segment word i belongs to. */
  ghost function SegmentOf(b: Program, i: int): (k: nat)
    requires IsSegmented(b) && 0 <= i < b.Len()
    ensures k < |b.Segs()|
  {
    PieceAt(b.Segs(), 0, b.Len(), i)
  }

  /** The instructions of segment k in front of its branch. */
  ghost function Front(b: Program, k: nat): seq<Ins>
    requires IsCut(b) && k < |b.Segs()|
  {
    SegmentBounds(b, k);
    b.words[b.Segs()[k].start..if IsFront(b, k) then LastWord(b, k) + 1 else LastWord(b, k)]
  }

  /** With the update of COUNT behind them: the list in front of the branch when Translate_Branch runs. */
  ghost function Body(b: Program, k: nat): seq<Ins>
    requires IsCut(b) && k < |b.Segs()|
  {
    Front(b, k) + Bookkeeping(b, k)
  }

  lemma SegmentBounds(b: Program, k: nat)
    requires IsSegmented(b) && k < |b.Segs()|
    ensures
      var p := b.Segs()[k];
      && 0 <= p.start < p.start + p.len == LastWord(b, k) + 1 <= b.Len()
      && (k == 0 <==> p.start == 0) && (k + 1 < |b.Segs()| ==> b.Segs()[k + 1].start == p.start + p.len)
      && (k + 1 == |b.Segs()| ==> p.start + p.len == b.Len())
      && (IsFront(b, k) <==> b.code[LastWord(b, k)].Plain?) && (if IsFront(b, k) then p.len == 1 else p.len >= 2)
      && (IsFront(b, k) ==> k + 1 < |b.Segs()| && !IsFront(b, k + 1))
      && AllPlain(b.code, p.start, p.start + p.len - 1)
  {
    hide HasShape, LoopsFollow, Covers, AllPlain;
    CoversBounds(b.Segs(), 0, b.Len(), k);
    FollowingHasWords(b.code, b.Len(), b.Segs(), k);
    ShapeIsPlain(b.code, b.Len(), b.Segs()[k]);
  }

  lemma ShapeIsPlain(code: seq<MipsWord>, n: nat, p: Piece)
    requires n <= |code| && HasShape(code, n, p)
    ensures AllPlain(code, p.start, p.start + p.len - 1)
  {
  }

  /** The list in front of the branch is what Translate_CountRegister makes of the segment's words, and has
      at least two instructions. */
  lemma BodyIsCounted(b: Program, k: nat)
    requires IsCut(b) && k < |b.Segs()|
    ensures
      var p := b.Segs()[k];
      && 0 <= p.start && p.start + p.len <= |b.words|
      && Counted(b.words[p.start..p.start + p.len], b.calls(k).0, b.calls(k).1) ==
         Some(if IsFront(b, k) then Body(b, k) else Body(b, k) + [b.words[LastWord(b, k)]])
      && |Body(b, k)| >= 2
  {
    hide IsSegmented, Counted, Update, IsOrdinary, ReadsCount, IsHandled, IsFront, IsSupported;
    var (p, e) := (b.Segs()[k], LastWord(b, k));
    SegmentBounds(b, k);
    WordCount(b);
    WordsFit(b, p.start, e);
    var ws := b.words[p.start..e + 1];
    if IsFront(b, k) {
      assert ws == [b.words[e]];
      UpdateBehindWord(b.words[e], b.calls(k).0, b.calls(k).1);
    } else {
      var front := b.words[p.start..e];
      assert ws == front + [b.words[e]];
      UpdateBeforeBranch(front, b.words[e], b.calls(k).0, b.calls(k).1);
    }
  }

  /** The words of a segment are plain, but perhaps for the last one. */
  lemma WordsFit(b: Program, start: nat, e: nat)
    requires IsSupported(b) && start <= e < b.Len() && AllPlain(b.code, start, e)
    ensures forall i :: start <= i < e ==> IsPlainWord(b.words[i])
    ensures if b.code[e].Plain? then IsPlainWord(b.words[e])
            else IsHandled(b.words[e].what.op) && !ReadsCount(b.words[e])
  {
    hide IsOrdinary;
    forall i | start <= i < e ensures IsPlainWord(b.words[i]) {
      assert b.code[i].Plain? && FitsClass(b, i);
    }
    assert FitsClass(b, e);
  }

  // ---------------------------------------------------------------------------------------
  // The MIPS program

  /** In front of word i, of the block or outside it. */
  datatype Place<W> = At(i: int, world: W)

  /** Is the branch taken (MIPS IV Instruction Set, section A)? */
  predicate Decides<W>(g: Guest<W>, x: Ins, w: W) {
    var register := IsEquality(x.what.op) && x.r2 != 0;
    var a := Pair(ReadWord(g, w, Wide(x.r1)), ReadWord(g, w, x.r1));
    var b := if register then Pair(ReadWord(g, w, Wide(x.r2)), ReadWord(g, w, x.r2)) else 0;
    MipsTaken(x.what.op, a, b)
  }

  /** COUNT is brought up to date where word i ends a segment. */
  ghost function Charge<W>(g: Guest<W>, b: Program, i: int, w: W): W
    requires IsCut(b) && 0 <= i < b.Len()
  {
    var k := SegmentOf(b, i);
    if i == LastWord(b, k) then ExecAll(g, Bookkeeping(b, k), w) else w
  }

  /** The world in front of the branch at word i, and behind its delay slot. */
  ghost function BeforeSlot<W>(g: Guest<W>, b: Program, i: int, w: W): W
    requires IsCut(b) && 0 <= i < b.Len()
  {
    Charge(g, b, i, w)
  }

  ghost function BehindSlot<W>(g: Guest<W>, b: Program, i: int, w: W): W
    requires IsCut(b) && 0 <= i < b.Len()
  {
    g.exec(b.words[i + 1], BeforeSlot(g, b, i, w))
  }

  /** One instruction, or a branch with its delay slot: the slot of a likely branch only if the branch is
      taken. */
  ghost function MipsStep<W>(g: Guest<W>, b: Program, p: Place<W>): Place<W>
    requires IsCut(b)
  {
    var (i, w) := (p.i, p.world);
    if !(0 <= i < b.Len()) then p
    else match b.code[i]
      case Branch(offset) =>
        if Decides(g, b.words[i], BeforeSlot(g, b, i, w)) then At(i + 1 + offset, BehindSlot(g, b, i, w))
        else NotTaken(g, b, i, if IsLikely(b.words[i].what.op) then BeforeSlot(g, b, i, w) else BehindSlot(g, b, i, w))
      case Jump(_) => At(b.jump, BehindSlot(g, b, i, w))
      case _ => At(i + 1, Charge(g, b, i, g.exec(b.words[i], w)))
  }

  /** Behind the delay slot of the branch at word i. */
  ghost function NotTaken<W>(g: Guest<W>, b: Program, i: int, w: W): Place<W>
    requires IsCut(b) && 0 <= i < b.Len() && b.code[i].Branch?
  {
    assert i + 1 < b.Len();
    At(i + 2, Charge(g, b, i + 1, w))
  }

  ghost function MipsRun<W>(g: Guest<W>, b: Program, p: Place<W>, n: nat): Place<W>
    requires IsCut(b)
    decreases n
  {
    if n == 0 then p else MipsRun(g, b, MipsStep(g, b, p), n - 1)
  }

  // ---------------------------------------------------------------------------------------
  // The segments' code

  /** The word segment k branches to. */
  function Goes(b: Program, k: nat): Option<int>
    requires k < |b.Segs()|
  {
    var e := LastWord(b, k);
    if !(0 <= e < |b.code|) then None
    else match b.code[e]
      case Branch(offset) => Some(e + 1 + offset)
      case Jump(_) => Some(b.jump)
      case _ => None
  }

  function AllGoes(b: Program): (goes: seq<Option<int>>)
    ensures |goes| == |b.Segs()| && forall k :: 0 <= k < |goes| ==> goes[k] == Goes(b, k)
  {
    seq(|b.Segs()|, k requires 0 <= k < |b.Segs()| => Goes(b, k))
  }

  ghost predicate IsLaidOut(b: Program, lay: Layout)
    requires IsSegmented(b)
  {
    IsLayout(b.Segs(), b.Len(), AllGoes(b), lay)
  }

  /** The target of segment k's branch is in the segment itself. */
  ghost predicate IsLoop(b: Program, k: nat)
    requires IsSegmented(b) && k < |b.Segs()|
  {
    && Goes(b, k).Some? && 0 <= Goes(b, k).value < b.Len() && SegmentOf(b, Goes(b, k).value) == k
    && b.code[LastWord(b, k)].Branch?
  }

  /** The list Translate_Branch leaves for segment k when its branch loops or leaves through the exit. */
  ghost function CodeFor(b: Program, k: nat, loops: bool, exit: Exit): seq<Node>
    requires IsCut(b) && k < |b.Segs()|
  {
    BodyIsCounted(b, k);
    var kind := b.Segs()[k].kind;
    if IsFront(b, k) then FrontNodes(kind, Body(b, k))
    else
      SegmentBounds(b, k);
      SegmentNodes(kind, Body(b, k), b.words[LastWord(b, k)], b.words[LastWord(b, k) + 1], loops, exit)
  }

  /** The exit of segment k: its literal, and the address getTgtAddress finds. */
  function ExitOf(b: Program, lay: Layout, k: nat): Exit
    requires k < |lay.targets|
  {
    Exit(b.literals(k).0, b.literals(k).1, lay.targets[k])
  }

  /** The list with this exit. */
  ghost function SegmentCode(b: Program, lay: Layout, k: nat): seq<Node>
    requires IsCut(b) && IsLaidOut(b, lay) && k < |b.Segs()|
  {
    CodeFor(b, k, IsLoop(b, k), ExitOf(b, lay, k))
  }

  /** Entering the code of a segment, or gone from segment k to an address outside the block. */
  datatype HostPlace<W> = Entering(k: nat, host: Host<W>) | Gone(k: nat, host: Host<W>)

  ghost predicate IsHostPlace<W>(b: Program, p: HostPlace<W>) {
    p.k < |b.Segs()|
  }

  /** One pass through a segment: falling off its end is entering the next one, and a branch enters the
      segment whose entry point is the address in it. */
  ghost function HostStep<W>(g: Guest<W>, b: Program, lay: Layout, p: HostPlace<W>): (q: HostPlace<W>)
    requires IsCut(b) && IsLaidOut(b, lay) && IsHostPlace(b, p)
    ensures IsHostPlace(b, q)
  {
    match p
    case Gone(_, _) => p
    case Entering(k, h) =>
      match Pass(g, SegmentCode(b, lay, k), 0, h)
      case Fell(t) => if k + 1 < |b.Segs()| then Entering(k + 1, t) else Gone(k, t)
      case Looped(to, t) => if to == 0 then Entering(k, t) else Gone(k, t)
      case Left(_, a, t) =>
        if a >= 0 && EntryAt(lay.entries, a) < |b.Segs()| then Entering(EntryAt(lay.entries, a), t) else Gone(k, t)
  }

  /** m passes. */
  ghost function HostRun<W>(g: Guest<W>, b: Program, lay: Layout, p: HostPlace<W>, m: nat): (q: HostPlace<W>)
    requires IsCut(b) && IsLaidOut(b, lay) && IsHostPlace(b, p)
    ensures IsHostPlace(b, q)
    decreases m
  {
    if m == 0 then p else HostRun(g, b, lay, HostStep(g, b, lay, p), m - 1)
  }
}
