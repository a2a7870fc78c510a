/** Runs of a whole super block: the code Translate_Branch leaves for its segments does what the MIPS
    program does, every delay slot once, whatever the branches decide.
 */
module DelaySlotRuns {
  import opened Ir
  import opened Bits
  import opened Arm
  import opened Lowering
  import opened Segments
  import opened BranchConditions
  import opened DelaySlots
  import opened BranchTargets
  import opened CountRegister
  import opened SuperBlocks

  // ---------------------------------------------------------------------------------------
  // What is asked of a run

  /** At a branch that is not likely the delay slot may change what is compared, and the comparisons may be
      wrong on the two words of the register: the code decides as the MIPS branch does exactly if both
      or neither happens. */
  ghost predicate IsDecidedAlike<W>(g: Guest<W>, b: Program, i: int, w: W)
    requires IsCut(b) && 0 <= i < b.Len()
  {
    var (x, after) := (b.words[i], BehindSlot(g, b, i, w));
    IsDecidedRightly(x.what.op, ReadWord(g, after, Wide(x.r1)), ReadWord(g, after, x.r1))
    <==> (Decides(g, x, after) <==> Decides(g, x, BeforeSlot(g, b, i, w)))
  }

  /** A branch of segment k that is taken and leads to an earlier segment leads to its first word. */
  ghost predicate LeadsToStart(b: Program, k: nat)
    requires IsSegmented(b) && k < |b.Segs()|
  {
    Goes(b, k).Some? && 0 <= Goes(b, k).value < b.Len() ==>
      var j := SegmentOf(b, Goes(b, k).value);
      j < k ==> b.Segs()[j].start == Goes(b, k).value
  }

  /** The segment behind segment k may be fallen into: it is not one in front of a loop, or the first
      word of that loop, which would be skipped, is a no-op. */
  ghost predicate MayFallBehind(b: Program, k: nat)
    requires IsCut(b) && k < |b.Segs()|
  {
    if k + 1 < |b.Segs()| && IsFront(b, k + 1) then
      SegmentBounds(b, k + 1);
      SegmentBounds(b, k + 2);
      IsNop(b.words[b.Segs()[k + 2].start])
    else true
  }

  /** The place is not in front of a branch at which the code goes another way than the MIPS program. */
  ghost predicate IsTame<W>(g: Guest<W>, b: Program, p: Place<W>)
    requires IsCut(b)
  {
    0 <= p.i < b.Len() && !b.code[p.i].Plain? ==>
      var (x, k) := (b.words[p.i], SegmentOf(b, p.i));
      var taken := b.code[p.i].Jump? || Decides(g, x, BeforeSlot(g, b, p.i, p.world));
      && (b.code[p.i].Branch? && !IsLikely(x.what.op) ==> IsDecidedAlike(g, b, p.i, p.world))
      && (if taken then LeadsToStart(b, k) else MayFallBehind(b, k))
  }

  /** Every place the MIPS program gets to is tame. */
  ghost predicate IsTameRun<W(!new)>(g: Guest<W>, b: Program, p: Place<W>)
    requires IsCut(b)
  {
    forall n: nat :: IsTame(g, b, MipsRun(g, b, p, n))
  }

  /** The flag tells whether the first word has been run already, as a delay slot. The first segment is only
      entered with the flag clear, and one in front of a loop with the flag set only if the loop begins
      with a no-op. A branch out of the block leaves with the MIPS program at its target, and with the
      segment's literal for the code that looks targets up. */
  ghost predicate Matches<W>(g: Guest<W>, b: Program, p: HostPlace<W>, q: Place<W>)
    requires IsCut(b)
  {
    p.k < |b.Segs()| && p.host.ds < WORD && match p
    case Entering(k, h) =>
      SegmentBounds(b, k);
      var start := b.Segs()[k].start;
      if FlagIsSet(h) then
        && q == At(start + 1, Charge(g, b, start, h.world)) && k > 0
        && MayFallBehind(b, k - 1)
      else q == At(start, h.world)
    case Gone(k, h) =>
      && !FlagIsSet(h) && Goes(b, k).Some? && q == At(Goes(b, k).value, h.world)
      && h.r0 == g.literal(b.literals(k).0, b.literals(k).1)
  }

  // ---------------------------------------------------------------------------------------
  // The proof

  lemma DecisionIsRight<W>(g: Guest<W>, x: Ins, w: W)
    requires IsBranchOp(x.what.op)
    ensures (IsTaken(g, x, w) <==> Decides(g, x, w))
      <==> IsDecidedRightly(x.what.op, ReadWord(g, w, Wide(x.r1)), ReadWord(g, w, x.r1))
  {
    hide CompareFlags, MipsTaken, IsDecidedRightly, Holds, ReadWord, Wide;
    var register := IsEquality(x.what.op) && x.r2 != 0;
    var (ah, al) := (ReadWord(g, w, Wide(x.r1)), ReadWord(g, w, x.r1));
    var (bh, bl) := if register then (ReadWord(g, w, Wide(x.r2)), ReadWord(g, w, x.r2)) else (0, 0);
    FlagsDecide(x.what.op, ah, al, bh, bl);
  }

  lemma {:induction false} ExecAllSplit<W>(g: Guest<W>, xs: seq<Ins>, ys: seq<Ins>, w: W)
    ensures ExecAll(g, xs + ys, w) == ExecAll(g, ys, ExecAll(g, xs, w))
    decreases |xs|
  {
    if xs == [] {
      assert xs + ys == ys;
    } else {
      assert (xs + ys)[0] == xs[0] && (xs + ys)[1..] == xs[1..] + ys;
      ExecAllSplit(g, xs[1..], ys, g.exec(xs[0], w));
    }
  }

  /** Inside a segment nothing is charged, and the segment of a word is found. */
  lemma WordInSegment<W>(g: Guest<W>, b: Program, k: nat, i: int, w: W)
    requires IsCut(b) && k < |b.Segs()| && b.Segs()[k].start <= i <= LastWord(b, k)
    ensures 0 <= i < b.Len() && SegmentOf(b, i) == k
    ensures Charge(g, b, i, w) == if i == LastWord(b, k) then ExecAll(g, Bookkeeping(b, k), w) else w
  {
    hide Update, Covers;
    SegmentBounds(b, k);
    PieceAtIsUnique(b.Segs(), 0, b.Len(), i, k);
  }

  /** Straight to the branch of the segment. */
  lemma {:induction false} RunToBranch<W>(g: Guest<W>, b: Program, k: nat, i: int, w: W)
    requires IsCut(b) && k < |b.Segs()| && b.Segs()[k].start <= i <= LastWord(b, k)
    ensures 0 <= i <= LastWord(b, k) < |b.words|
    ensures MipsRun(g, b, At(i, w), LastWord(b, k) - i) == At(LastWord(b, k), ExecAll(g, b.words[i..LastWord(b, k)], w))
    decreases LastWord(b, k) - i
  {
    hide IsSegmented, IsSupported;
    var e := LastWord(b, k);
    SegmentBounds(b, k);
    WordCount(b);
    if i < e {
      WordInSegment(g, b, k, i, g.exec(b.words[i], w));
      assert b.code[i].Plain?;
      assert MipsStep(g, b, At(i, w)) == At(i + 1, g.exec(b.words[i], w));
      RunToBranch(g, b, k, i + 1, g.exec(b.words[i], w));
      assert b.words[i..e][1..] == b.words[i + 1..e];
    } else {
      assert b.words[i..e] == [];
    }
  }

  lemma {:induction false} MipsRunSplit<W>(g: Guest<W>, b: Program, p: Place<W>, n: nat, n': nat)
    requires IsCut(b)
    ensures MipsRun(g, b, p, n + n') == MipsRun(g, b, MipsRun(g, b, p, n), n')
    decreases n
  {
    hide MipsStep;
    if n > 0 {
      MipsRunSplit(g, b, MipsStep(g, b, p), n - 1, n');
    }
  }

  /** The end of a segment's code and the MIPS branch agree, where the place is tame. */
  lemma EndAgrees<W(!new)>(g: Guest<W>, b: Program, k: nat, w: W) returns (taken: bool, after: W)
    requires IsCut(b) && k < |b.Segs()| && !IsFront(b, k) && IsTame(g, b, At(LastWord(b, k), w))
    ensures 0 <= LastWord(b, k) < b.Len() && |b.words| == b.Len() + 1
    ensures
      var e := LastWord(b, k);
      && (taken, after) == EndOf(g, b.words[e], b.words[e + 1], ExecAll(g, Bookkeeping(b, k), w))
      && (if taken then Goes(b, k).Some? && MipsStep(g, b, At(e, w)) == At(Goes(b, k).value, after)
          else b.code[e].Branch? && MipsStep(g, b, At(e, w)) == NotTaken(g, b, e, after))
      && (if taken then LeadsToStart(b, k) else MayFallBehind(b, k))
  {
    hide Pieces, BlockLength;
    hide IsTaken, Decides, IsDecidedRightly, IsOrdinary, ExecAll, IsSegmented, LeadsToStart, MayFallBehind, Update;
    var e := LastWord(b, k);
    SegmentBounds(b, k);
    WordInSegment(g, b, k, e, w);
    assert FitsClass(b, e);
    var (x, w1) := (b.words[e], BeforeSlot(g, b, e, w));
    var end := EndOf(g, x, b.words[e + 1], w1);
    taken, after := end.0, end.1;
    if b.code[e].Branch? {
      DecisionIsRight(g, x, w1);
      DecisionIsRight(g, x, BehindSlot(g, b, e, w));
      LikelyIsRight(x.what.op, ReadWord(g, w1, Wide(x.r1)), ReadWord(g, w1, x.r1));
    }
  }

  lemma LikelyIsRight(op: Opcode, hi: nat, lo: nat)
    ensures IsLikely(op) ==> IsDecidedRightly(op, hi, lo)
  {
  }

  /** A branch into its own segment leads to the first word. */
  lemma LoopLeadsToStart(b: Program, k: nat)
    requires IsCut(b) && k < |b.Segs()| && IsLoop(b, k)
    ensures Goes(b, k).value == b.Segs()[k].start
  {
    hide LoopsFollow, Covers, IsSupported;
    SegmentBounds(b, k);
    FollowingHasWords(b.code, b.Len(), b.Segs(), k);
    var t := Goes(b, k).value;
    assert b.Segs()[k].start <= t < b.Segs()[k].start + b.Segs()[k].len;
    assert t == Target(b.code, b.Len(), b.Segs()[k]);
  }

  /** Where a taken branch that leaves the segment's code gets to. */
  lemma LeavingMatches<W>(g: Guest<W>, b: Program, lay: Layout, k: nat, t: Host<W>)
    requires IsCut(b) && IsLaidOut(b, lay) && k < |b.Segs()| && !IsLoop(b, k) && Goes(b, k).Some? && LeadsToStart(b, k)
    requires !FlagIsSet(t) && t.ds < WORD && t.r0 == g.literal(b.literals(k).0, b.literals(k).1)
    ensures
      var j := EntryAt(lay.entries, lay.targets[k]);
      Matches(g, b, if j < |b.Segs()| then Entering(j, t) else Gone(k, t), At(Goes(b, k).value, t.world))
  {
    hide IsSegmented, IsSupported, IsFront;
    var (ps, n, a) := (b.Segs(), b.Len(), lay.targets[k]);
    SegmentedCovers(b);
    assert AllGoes(b)[k] == Goes(b, k);
    if 0 <= Goes(b, k).value < n {
      BranchReachesTarget(ps, n, AllGoes(b), lay, k);
      var j := SegmentOf(b, Goes(b, k).value);
      if j < k {
        EntryIsFound(ps, n, AllGoes(b), lay, j);
      } else {
        assert EntryAt(lay.entries, lay.unknown) == |ps|;
      }
    } else {
      assert EntryAt(lay.entries, a) == |ps|;
    }
  }

  lemma SegmentedCovers(b: Program)
    requires IsSegmented(b)
    ensures Covers(b.Segs(), 0, b.Len())
  {
  }

  /** Where falling off the end of a segment gets to. */
  lemma FallingMatches<W>(g: Guest<W>, b: Program, k: nat, t: Host<W>)
    requires IsCut(b) && k < |b.Segs()| && MayFallBehind(b, k) && FlagIsSet(t) && t.ds < WORD
    requires 0 <= LastWord(b, k) < b.Len() <= |b.code| && b.code[LastWord(b, k)].Branch?
    ensures k + 1 < |b.Segs()| && Matches(g, b, Entering(k + 1, t), NotTaken(g, b, LastWord(b, k), t.world))
  {
    hide IsSegmented, IsSupported, MayFallBehind, IsFront, Charge;
    SegmentBounds(b, k);
    BranchIsNotLast(b, k);
    SegmentBounds(b, k + 1);
  }

  lemma LoopingMatches<W>(g: Guest<W>, b: Program, k: nat, t: Host<W>)
    requires IsCut(b) && k < |b.Segs()| && IsLoop(b, k) && !FlagIsSet(t) && t.ds < WORD
    ensures Matches(g, b, Entering(k, t), At(Goes(b, k).value, t.world))
  {
    hide IsSegmented, IsSupported, MayFallBehind, IsFront, Charge;
    LoopLeadsToStart(b, k);
  }

  /** The outcome of the pass and the place the MIPS program reaches match. */
  lemma OutcomeMatches<W>(g: Guest<W>, b: Program, lay: Layout, k: nat, h: Host<W>, taken: bool, w: W)
    requires IsCut(b) && IsLaidOut(b, lay) && k < |b.Segs()|
    requires 0 <= LastWord(b, k) < b.Len() <= |b.code|
    requires if taken then Goes(b, k).Some? && LeadsToStart(b, k)
             else b.code[LastWord(b, k)].Branch? && MayFallBehind(b, k)
    requires Ends(g, Pass(g, SegmentCode(b, lay, k), 0, h), taken, IsLoop(b, k), ExitOf(b, lay, k), w)
    ensures Matches(g, b, HostStep(g, b, lay, Entering(k, h)),
                    if taken then At(Goes(b, k).value, w) else NotTaken(g, b, LastWord(b, k), w))
  {
    hide Pass, SegmentCode, IsSegmented, IsSupported, LeadsToStart, MayFallBehind, IsFront, EntryAt, Matches, NotTaken;
    hide IsLoop, Goes, FlagIsSet, LastWord;
    match Pass(g, SegmentCode(b, lay, k), 0, h)
    case Fell(t) =>
      FallingMatches(g, b, k, t);
    case Looped(_, t) =>
      LoopingMatches(g, b, k, t);
    case Left(_, a, t) =>
      assert a == lay.targets[k];
      LeavingMatches(g, b, lay, k, t);
  }

  lemma BranchIsNotLast(b: Program, k: nat)
    requires IsCut(b) && k < |b.Segs()| && b.code[LastWord(b, k)].Branch?
    ensures k + 1 < |b.Segs()|
  {
    hide IsSegmented;
    SegmentBounds(b, k);
    assert HasPlainSlots(b.code, b.Len());
  }

  lemma RunOne<W>(g: Guest<W>, b: Program, p: Place<W>)
    requires IsCut(b)
    ensures MipsRun(g, b, p, 1) == MipsStep(g, b, p)
  {
    hide MipsStep;
    assert MipsRun(g, b, MipsStep(g, b, p), 0) == MipsStep(g, b, p);
  }

  /** The word in front of which the MIPS program is when a segment that ends in a branch is entered. */
  lemma EnteredAt<W>(g: Guest<W>, b: Program, k: nat, h: Host<W>, q: Place<W>) returns (i: int)
    requires IsCut(b) && Matches(g, b, Entering(k, h), q) && !IsFront(b, k)
    ensures i == b.Segs()[k].start + (if FlagIsSet(h) then 1 else 0) <= LastWord(b, k)
    ensures q == At(i, h.world) && h.ds < WORD && (FlagIsSet(h) ==> k > 0)
  {
    hide IsSegmented, IsSupported, MayFallBehind, Update;
    SegmentBounds(b, k);
    WordInSegment(g, b, k, b.Segs()[k].start, h.world);
    i := b.Segs()[k].start + if FlagIsSet(h) then 1 else 0;
  }

  lemma BodyIsOrdinary(b: Program, k: nat)
    requires IsCut(b) && k < |b.Segs()|
    ensures AllOrdinary(Body(b, k)) && (k > 0 ==> b.Segs()[k].kind == Sandwich || b.Segs()[k].kind == End)
  {
    hide LoopsFollow, Covers, IsOrdinary, Update, IsSupported;
    var (p, e) := (b.Segs()[k], LastWord(b, k));
    SegmentBounds(b, k);
    WordsFit(b, p.start, e);
    BookkeepingIsOrdinary(b, k);
    WordCount(b);
    var front := Front(b, k);
    forall j | 0 <= j < |front| ensures IsOrdinary(front[j]) {
      assert front[j] == b.words[p.start + j];
    }
    OrdinaryTogether(front, Bookkeeping(b, k));
  }

  lemma OrdinaryTogether(xs: seq<Ins>, ys: seq<Ins>)
    requires AllOrdinary(xs) && AllOrdinary(ys)
    ensures AllOrdinary(xs + ys)
  {
    hide IsOrdinary;
  }

  /** The branch of a segment and its delay slot. */
  lemma BranchAndSlot(b: Program, k: nat)
    requires IsCut(b) && k < |b.Segs()| && !IsFront(b, k)
    ensures |b.words| == b.Len() + 1 && 0 <= LastWord(b, k) < b.Len()
    ensures
      var (e, x, slot) := (LastWord(b, k), b.words[LastWord(b, k)], b.words[LastWord(b, k) + 1]);
      && IsOrdinary(slot) && (x.what.op.MipsJ? <==> !b.code[e].Branch?) && (IsLikely(x.what.op) ==> !IsNop(slot))
      && (!x.what.op.MipsJ? ==> IsBranchWord(x))
  {
    hide Pieces, BlockLength, IsSegmented, LoopsFollow, Covers, IsOrdinary, Update;
    var e := LastWord(b, k);
    SegmentBounds(b, k);
    assert FitsClass(b, e);
    if b.code[e].Branch? {
      assert b.code[e + 1].Plain? && FitsClass(b, e + 1);
    } else {
      JumpIsLast(b, e);
    }
  }

  lemma BookkeepingIsOrdinary(b: Program, k: nat)
    requires k < |b.Segs()|
    ensures AllOrdinary(Bookkeeping(b, k))
  {
  }

  /** The instructions run in front of a branch, and the update of COUNT. */
  lemma BodyWorld<W>(g: Guest<W>, b: Program, k: nat, skip: bool, w: W)
    requires IsCut(b) && k < |b.Segs()| && !IsFront(b, k)
    ensures
      var (i, e) := (b.Segs()[k].start + (if skip then 1 else 0), LastWord(b, k));
      && 0 <= i <= e < |b.words| && Body(b, k) != []
      && ExecAll(g, BodyRun(Body(b, k), skip), w) == ExecAll(g, Bookkeeping(b, k), ExecAll(g, b.words[i..e], w))
  {
    hide ExecAll, IsSegmented, IsSupported, Update, IsFront;
    var (i, e) := (b.Segs()[k].start + (if skip then 1 else 0), LastWord(b, k));
    SegmentBounds(b, k);
    WordCount(b);
    var (front, extra) := (b.words[b.Segs()[k].start..e], Bookkeeping(b, k));
    assert Front(b, k) == front && front != [];
    assert skip ==> front[1..] == b.words[i..e] && (front + extra)[1..] == front[1..] + extra;
    ExecAllSplit(g, b.words[i..e], extra, w);
  }

  lemma TargetsAndLoops(b: Program, lay: Layout, k: nat)
    requires IsCut(b) && IsLaidOut(b, lay) && k < |b.Segs()| && 0 <= LastWord(b, k) < b.Len() <= |b.code|
    ensures k < |lay.targets| && (IsLoop(b, k) ==> b.code[LastWord(b, k)].Branch?)
  {
    hide IsSegmented, IsSupported, Pieces, BlockLength;
  }

  lemma CodeOfBranching(b: Program, lay: Layout, k: nat)
    requires IsCut(b) && IsLaidOut(b, lay) && k < |b.Segs()| && !IsFront(b, k)
    ensures 0 <= LastWord(b, k) < b.Len() && |b.words| == b.Len() + 1 && Body(b, k) != []
    ensures
      var e := LastWord(b, k);
      SegmentCode(b, lay, k) ==
      SegmentNodes(b.Segs()[k].kind, Body(b, k), b.words[e], b.words[e + 1], IsLoop(b, k),
                   ExitOf(b, lay, k))
  {
    hide IsSegmented, IsSupported, Body, IsFront, SegmentNodes, IsLoop, Pieces, BlockLength, IsLaidOut, Counted;
    SegmentBounds(b, k);
    WordCount(b);
    BodyIsCounted(b, k);
  }

  /** The pass through a segment that ends in a branch. */
  lemma PassBranching<W(!new)>(g: Guest<W>, b: Program, lay: Layout, k: nat, h: Host<W>)
    requires IsCut(b) && IsLaidOut(b, lay) && NopsDoNothing(g) && k < |b.Segs()| && !IsFront(b, k)
    requires h.ds < WORD && (FlagIsSet(h) ==> k > 0)
    ensures 0 <= LastWord(b, k) < b.Len() && |b.words| == b.Len() + 1 && Body(b, k) != []
    ensures
      var e := LastWord(b, k);
      var (taken, w) := EndOf(g, b.words[e], b.words[e + 1], ExecAll(g, BodyRun(Body(b, k), FlagIsSet(h)), h.world));
      Ends(g, Pass(g, SegmentCode(b, lay, k), 0, h), taken, IsLoop(b, k), ExitOf(b, lay, k), w)
  {
    hide Pass, SegmentNodes, EndOf, Ends, ExecAll, IsOrdinary, FlagIsSet, IsSegmented, IsSupported, Body, BodyRun,
      IsFront, AllOrdinary;
    hide SegmentCode, IsLoop, Skips, IsNop, Pieces, BlockLength, IsLaidOut, Counted, Goes;
    CodeOfBranching(b, lay, k);
    WordCount(b);
    TargetsAndLoops(b, lay, k);
    var (e, body) := (LastWord(b, k), Body(b, k));
    BodyIsCounted(b, k);
    BodyIsOrdinary(b, k);
    BranchAndSlot(b, k);
    if k > 0 {
      SkipsOrNop(b.Segs()[k].kind, body[0]);
    }
    PassSegment(g, b.Segs()[k].kind, body, b.words[e], b.words[e + 1], IsLoop(b, k),
                ExitOf(b, lay, k), h);
  }

  /** A pass through a segment that ends in a branch. */
  lemma BranchingMatches<W(!new)>(g: Guest<W>, b: Program, lay: Layout, k: nat, h: Host<W>, q: Place<W>)
    returns (n: nat)
    requires IsCut(b) && IsLaidOut(b, lay) && NopsDoNothing(g) && k < |b.Segs()| && !IsFront(b, k)
    requires Matches(g, b, Entering(k, h), q) && IsTameRun(g, b, q)
    ensures n > 0 && Matches(g, b, HostStep(g, b, lay, Entering(k, h)), MipsRun(g, b, q, n))
  {
    hide Pass, SegmentNodes, EndOf, Ends, MipsStep, MipsRun, ExecAll, IsOrdinary, FlagIsSet, IsSegmented, IsSupported,
      Matches;
    hide IsTame, LeadsToStart, MayFallBehind, Charge, NotTaken, HostStep, Update, Goes, IsLoop, Pieces, BlockLength;
    hide SegmentCode, IsLaidOut, Body, BodyRun, IsFront;
    var (p, e) := (b.Segs()[k], LastWord(b, k));
    SegmentBounds(b, k);
    var i := EnteredAt(g, b, k, h, q);
    RunToBranch(g, b, k, i, h.world);
    var w := ExecAll(g, b.words[i..e], h.world);
    assert IsTame(g, b, MipsRun(g, b, q, e - i));
    var taken, after := EndAgrees(g, b, k, w);
    PassBranching(g, b, lay, k, h);
    BodyWorld(g, b, k, FlagIsSet(h), h.world);
    OutcomeMatches(g, b, lay, k, h, taken, after);
    MipsRunSplit(g, b, q, e - i, 1);
    RunOne(g, b, At(e, w));
    n := e - i + 1;
  }

  /** The world behind a segment of one word and the update of COUNT. */
  lemma FrontWorld<W>(g: Guest<W>, b: Program, k: nat, skip: bool, w: W)
    requires IsCut(b) && k < |b.Segs()| && IsFront(b, k)
    ensures 0 <= b.Segs()[k].start < |b.words| && Body(b, k) != [] && Body(b, k)[0] == b.words[b.Segs()[k].start]
    ensures ExecAll(g, BodyRun(Body(b, k), skip), w) ==
      ExecAll(g, Bookkeeping(b, k), if skip then w else g.exec(b.words[b.Segs()[k].start], w))
  {
    hide IsSegmented, IsSupported, Update, IsFront;
    var (start, extra) := (b.Segs()[k].start, Bookkeeping(b, k));
    SegmentBounds(b, k);
    WordCount(b);
    assert Front(b, k) == [b.words[start]];
    var body := Body(b, k);
    assert body == [b.words[start]] + extra && body[1..] == extra;
  }

  /** A no-op at the head of a loop brings the MIPS program behind it. */
  lemma NopIsPassed<W(!new)>(g: Guest<W>, b: Program, k: nat, t: Host<W>)
    requires IsCut(b) && NopsDoNothing(g) && 0 < k < |b.Segs()| && !IsFront(b, k) && FlagIsSet(t) && t.ds < WORD
    requires 0 <= b.Segs()[k].start < |b.words| && IsNop(b.words[b.Segs()[k].start])
    ensures Matches(g, b, Entering(k, t), MipsStep(g, b, At(b.Segs()[k].start, t.world)))
  {
    hide IsSegmented, IsSupported, IsFront, FlagIsSet;
    SegmentBounds(b, k);
    WordInSegment(g, b, k, b.Segs()[k].start, t.world);
    assert b.code[b.Segs()[k].start].Plain?;
    assert g.exec(b.words[b.Segs()[k].start], t.world) == t.world;
  }

  /** A segment in front of a loop is only fallen into if the loop begins with a no-op. */
  lemma LoopBeginsWithNop<W>(g: Guest<W>, b: Program, k: nat, h: Host<W>, q: Place<W>)
    requires IsCut(b) && k < |b.Segs()| && IsFront(b, k) && Matches(g, b, Entering(k, h), q)
    ensures k + 1 < |b.Segs()| && h.ds < WORD
    ensures FlagIsSet(h) ==>
      && k > 0 && 0 <= b.Segs()[k + 1].start < |b.words| && IsNop(b.words[b.Segs()[k + 1].start])
      && q == At(b.Segs()[k].start + 1, ExecAll(g, Bookkeeping(b, k), h.world))
    ensures !FlagIsSet(h) ==> q == At(b.Segs()[k].start, h.world)
  {
    hide IsSegmented, IsSupported, IsFront, FlagIsSet, Update;
    SegmentBounds(b, k);
    SegmentBounds(b, k + 1);
    WordCount(b);
    WordInSegment(g, b, k, b.Segs()[k].start, h.world);
  }

  /** The word of a segment in front of a loop. */
  lemma FrontStep<W>(g: Guest<W>, b: Program, k: nat, w: W)
    requires IsCut(b) && k < |b.Segs()| && IsFront(b, k)
    ensures 0 <= b.Segs()[k].start < |b.words|
    ensures
      var start := b.Segs()[k].start;
      MipsStep(g, b, At(start, w)) == At(start + 1, ExecAll(g, Bookkeeping(b, k), g.exec(b.words[start], w)))
  {
    hide IsSegmented, IsSupported, IsFront, Update;
    var start := b.Segs()[k].start;
    SegmentBounds(b, k);
    WordCount(b);
    WordInSegment(g, b, k, start, g.exec(b.words[start], w));
  }

  lemma PassedFront<W(!new)>(g: Guest<W>, b: Program, lay: Layout, k: nat, h: Host<W>) returns (t: Host<W>)
    requires IsCut(b) && IsLaidOut(b, lay) && NopsDoNothing(g) && k + 1 < |b.Segs()| && IsFront(b, k)
    requires h.ds < WORD && (FlagIsSet(h) ==> k > 0)
    ensures HostStep(g, b, lay, Entering(k, h)) == Entering(k + 1, t)
    ensures t.ds == h.ds && Body(b, k) != [] && t.world == ExecAll(g, BodyRun(Body(b, k), FlagIsSet(h)), h.world)
  {
    hide Pass, FrontNodes, SegmentCode, ExecAll, IsOrdinary, FlagIsSet, IsSegmented, IsSupported, Body, BodyRun,
      IsFront, AllOrdinary;
    hide Skips, IsNop;
    BodyIsCounted(b, k);
    BodyIsOrdinary(b, k);
    if k > 0 {
      SkipsOrNop(b.Segs()[k].kind, Body(b, k)[0]);
    }
    CodeOfFront(b, lay, k);
    t := PassFront(g, b.Segs()[k].kind, Body(b, k), h);
  }

  lemma SkipsOrNop(kind: SegType, x: Ins)
    requires kind == Sandwich || kind == End
    ensures Skips(kind, x) || IsNop(x)
  {
  }

  lemma CodeOfFront(b: Program, lay: Layout, k: nat)
    requires IsCut(b) && IsLaidOut(b, lay) && k < |b.Segs()| && IsFront(b, k)
    ensures Body(b, k) != [] && SegmentCode(b, lay, k) == FrontNodes(b.Segs()[k].kind, Body(b, k))
  {
    hide IsSegmented, IsSupported, Body, IsFront, FrontNodes;
    BodyIsCounted(b, k);
  }

  /** A pass through a segment in front of a loop. */
  lemma FrontMatches<W(!new)>(g: Guest<W>, b: Program, lay: Layout, k: nat, h: Host<W>, q: Place<W>) returns (n: nat)
    requires IsCut(b) && IsLaidOut(b, lay) && NopsDoNothing(g) && k < |b.Segs()| && IsFront(b, k)
    requires Matches(g, b, Entering(k, h), q)
    ensures n > 0 && Matches(g, b, HostStep(g, b, lay, Entering(k, h)), MipsRun(g, b, q, n))
  {
    hide MipsRun, MipsStep, HostStep, ExecAll, IsSegmented, IsSupported, Update, IsFront, BodyRun, Body, Matches;
    SegmentBounds(b, k);
    SegmentBounds(b, k + 1);
    LoopBeginsWithNop(g, b, k, h, q);
    var t := PassedFront(g, b, lay, k, h);
    FrontWorld(g, b, k, FlagIsSet(h), h.world);
    n := 1;
    RunOne(g, b, q);
    if FlagIsSet(h) {
      NopIsPassed(g, b, k + 1, t);
    } else {
      FrontStep(g, b, k, h.world);
      EnteringClear(g, b, k + 1, t);
    }
  }

  lemma EnteringClear<W>(g: Guest<W>, b: Program, k: nat, t: Host<W>)
    requires IsCut(b) && k < |b.Segs()| && !FlagIsSet(t) && t.ds < WORD
    ensures Matches(g, b, Entering(k, t), At(b.Segs()[k].start, t.world))
  {
    hide IsSegmented, IsSupported, IsFront, MayFallBehind;
  }

  // ---------------------------------------------------------------------------------------
  // The theorem

  lemma MatchesIsPlace<W>(g: Guest<W>, b: Program, p: HostPlace<W>, q: Place<W>)
    requires IsCut(b) && Matches(g, b, p, q)
    ensures IsHostPlace(b, p)
  {
    hide IsSegmented, IsSupported, MayFallBehind, Charge;
  }

  /** One pass through a segment is a number of steps of the MIPS program. */
  lemma StepMatches<W(!new)>(g: Guest<W>, b: Program, lay: Layout, k: nat, h: Host<W>, q: Place<W>) returns (n: nat)
    requires IsCut(b) && IsLaidOut(b, lay) && NopsDoNothing(g) && k < |b.Segs()|
    requires Matches(g, b, Entering(k, h), q) && IsTameRun(g, b, q)
    ensures n > 0 && Matches(g, b, HostStep(g, b, lay, Entering(k, h)), MipsRun(g, b, q, n))
  {
    hide MipsRun, HostStep, IsSegmented, IsSupported, IsFront, Matches, IsTameRun;
    if IsFront(b, k) {
      n := FrontMatches(g, b, lay, k, h, q);
    } else {
      n := BranchingMatches(g, b, lay, k, h, q);
    }
  }

  lemma TameFurther<W(!new)>(g: Guest<W>, b: Program, q: Place<W>, n: nat)
    requires IsCut(b) && IsTameRun(g, b, q)
    ensures IsTameRun(g, b, MipsRun(g, b, q, n))
  {
    hide IsTame, MipsRun;
    forall i: nat ensures IsTame(g, b, MipsRun(g, b, MipsRun(g, b, q, n), i)) {
      MipsRunSplit(g, b, q, n, i);
    }
  }

  lemma {:induction false} GoneStays<W>(g: Guest<W>, b: Program, lay: Layout, p: HostPlace<W>, m: nat)
    requires IsCut(b) && IsLaidOut(b, lay) && IsHostPlace(b, p) && p.Gone?
    ensures HostRun(g, b, lay, p, m) == p
    decreases m
  {
    hide IsCut, IsLaidOut;
    if m > 0 {
      GoneStays(g, b, lay, p, m - 1);
    }
  }

  /** Over every run and every sequence of branch outcomes: whatever number of segments the code has passed
      through, the MIPS program gets to the corresponding place with the same world, so every delay slot
      has been run once (that of a likely branch when taken). The flag is clear where a segment was
      branched to and set where it was fallen into. Branches go to the addresses found for them; what
      is asked of the run is that no place in front of a branch is one where code and program part. */
  lemma {:induction false} BlockRefinesMips<W(!new)>(g: Guest<W>, b: Program, lay: Layout, p: HostPlace<W>, q: Place<W>,
                                                     m: nat)
    returns (n: nat)
    requires IsSupported(b) && IsSegmented(b) && IsLaidOut(b, lay) && NopsDoNothing(g)
    requires Matches(g, b, p, q) && IsTameRun(g, b, q)
    ensures IsHostPlace(b, p) && Matches(g, b, HostRun(g, b, lay, p, m), MipsRun(g, b, q, n))
    ensures n >= m || HostRun(g, b, lay, p, m).Gone?
    decreases m
  {
    hide IsTameRun, HostStep, MipsStep, IsSegmented, IsSupported, Matches, IsLaidOut;
    n := 0;
    MatchesIsPlace(g, b, p, q);
    if m > 0 {
      if p.Entering? {
        var first := StepMatches(g, b, lay, p.k, p.host, q);
        TameFurther(g, b, q, first);
        var rest := BlockRefinesMips(g, b, lay, HostStep(g, b, lay, p), MipsRun(g, b, q, first), m - 1);
        MipsRunSplit(g, b, q, first, rest);
        n := first + rest;
      } else {
        GoneStays(g, b, lay, p, m);
      }
    }
  }

  // ---------------------------------------------------------------------------------------
  // Where it fails

  /** The flag set on entry to a segment in front of a loop has its first word skipped, and the first word of
      the loop as well: exactly in this case. */
  lemma LoopWordIsSkipped<W(!new)>(g: Guest<W>, b: Program, lay: Layout, k: nat, h: Host<W>) returns (t: Host<W>)
    requires IsCut(b) && IsLaidOut(b, lay) && NopsDoNothing(g) && k + 1 < |b.Segs()| && IsFront(b, k)
    requires h.ds < WORD && (FlagIsSet(h) ==> k > 0) && !IsFront(b, k + 1)
    ensures |b.words| == b.Len() + 1 && 0 <= LastWord(b, k + 1) < b.Len() && Body(b, k) != [] && Body(b, k + 1) != []
    ensures HostStep(g, b, lay, Entering(k, h)) == Entering(k + 1, t)
    ensures t.world == ExecAll(g, BodyRun(Body(b, k), FlagIsSet(h)), h.world)
    ensures
      var e := LastWord(b, k + 1);
      var (taken, w) := EndOf(g, b.words[e], b.words[e + 1],
                              ExecAll(g, BodyRun(Body(b, k + 1), FlagIsSet(h)), t.world));
      Ends(g, Pass(g, SegmentCode(b, lay, k + 1), 0, t), taken, IsLoop(b, k + 1), ExitOf(b, lay, k + 1), w)
  {
    hide Pass, SegmentCode, EndOf, Ends, ExecAll, IsOrdinary, IsSegmented, IsSupported, Body, BodyRun, IsFront,
      HostStep;
    t := PassedFront(g, b, lay, k, h);
    PassBranching(g, b, lay, k + 1, t);
  }
}
