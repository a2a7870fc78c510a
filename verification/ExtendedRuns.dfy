/** Blocks whose runs keep what the branches compare sign-extended: there the code and the MIPS program
    never part, whatever the run.
 */
module ExtendedRuns {
  import opened Ir
  import opened Bits
  import opened Lowering
  import opened Segments
  import opened BranchConditions
  import opened DelaySlots
  import opened CountRegister
  import opened SuperBlocks
  import opened DelaySlotRuns

  /** The two words of register r hold a sign-extended 32-bit value. */
  predicate IsExtended<W>(g: Guest<W>, w: W, r: Reg) {
    ReadWord(g, w, Wide(r)) == if ReadWord(g, w, r) >= 0x8000_0000 then WORD - 1 else 0
  }

  predicate AreExtended<W>(g: Guest<W>, w: W, rs: set<Reg>) {
    forall r :: r in rs ==> IsExtended(g, w, r)
  }

  /** The instruction x keeps the registers rs sign-extended. */
  ghost predicate KeepsExtended<W(!new)>(g: Guest<W>, x: Ins, rs: set<Reg>) {
    forall w: W :: AreExtended(g, w, rs) ==> AreExtended(g, g.exec(x, w), rs)
  }

  /** The delay slot leaves alone what the branch x compares. */
  ghost predicate LeavesCompared<W(!new)>(g: Guest<W>, x: Ins, slot: Ins) {
    forall w: W, r: Reg {:trigger ReadWord(g, g.exec(slot, w), r)} :: r in {x.r1, Wide(x.r1), x.r2, Wide(x.r2)} ==>
      ReadWord(g, g.exec(slot, w), r) == ReadWord(g, w, r)
  }

  /** No branch leads into the middle of an earlier segment, and no word of a loop is skipped. */
  ghost predicate IsEnteredInFront(b: Program)
    requires IsCut(b)
  {
    forall k {:trigger b.Segs()[k]} :: 0 <= k < |b.Segs()| ==> LeadsToStart(b, k) && MayFallBehind(b, k)
  }

  ghost predicate KeepsAllExtended<W(!new)>(g: Guest<W>, b: Program, rs: set<Reg>) {
    && (forall i :: 0 <= i < |b.words| ==> KeepsExtended(g, b.words[i], rs))
    && (forall k {:trigger b.Segs()[k]} :: 0 <= k < |b.Segs()| ==>
        forall j :: 0 <= j < |Bookkeeping(b, k)| ==> KeepsExtended(g, Bookkeeping(b, k)[j], rs))
  }

  /** Each branch that is not likely tests a register of rs that its delay slot leaves alone. */
  ghost predicate TestsExtended<W(!new)>(g: Guest<W>, b: Program, rs: set<Reg>)
    requires IsCut(b)
  {
    forall i :: 0 <= i < b.Len() && b.code[i].Branch? && !IsLikely(b.words[i].what.op) ==>
      b.words[i].r1 in rs && LeavesCompared(g, b.words[i], b.words[i + 1])
  }

  /** A branch on a sign-extended value that the delay slot leaves alone is decided alike. */
  lemma ExtendedIsDecidedAlike<W(!new)>(g: Guest<W>, b: Program, i: int, w: W)
    requires IsCut(b) && 0 <= i < b.Len() && LeavesCompared(g, b.words[i], b.words[i + 1])
    requires IsExtended(g, BeforeSlot(g, b, i, w), b.words[i].r1)
    ensures IsDecidedAlike(g, b, i, w)
  {
    hide IsSupported, IsSegmented, ReadWord, Charge, IsDecidedRightly, MipsTaken, Wide, IsEquality;
    WordCount(b);
    var (x, before, after) := (b.words[i], BeforeSlot(g, b, i, w), BehindSlot(g, b, i, w));
    assert forall r: Reg {:trigger ReadWord(g, after, r)} :: r in {x.r1, Wide(x.r1), x.r2, Wide(x.r2)} ==>
      ReadWord(g, after, r) == ReadWord(g, before, r);
    SignExtendedIsDecidedRightly(x.what.op, ReadWord(g, after, Wide(x.r1)), ReadWord(g, after, x.r1));
  }

  lemma {:induction false} ExecAllKeepsExtended<W(!new)>(g: Guest<W>, xs: seq<Ins>, w: W, rs: set<Reg>)
    requires AreExtended(g, w, rs) && forall j :: 0 <= j < |xs| ==> KeepsExtended(g, xs[j], rs)
    ensures AreExtended(g, ExecAll(g, xs, w), rs)
    decreases |xs|
  {
    hide AreExtended;
    if xs != [] {
      assert KeepsExtended(g, xs[0], rs);
      ExecAllKeepsExtended(g, xs[1..], g.exec(xs[0], w), rs);
    }
  }

  lemma ChargeKeepsExtended<W(!new)>(g: Guest<W>, b: Program, i: int, w: W, rs: set<Reg>)
    requires IsCut(b) && 0 <= i < b.Len() && KeepsAllExtended(g, b, rs) && AreExtended(g, w, rs)
    ensures AreExtended(g, Charge(g, b, i, w), rs)
  {
    hide IsSupported, IsSegmented, AreExtended, KeepsExtended, Update;
    var k := SegmentOf(b, i);
    assert b.Segs()[k] == b.Segs()[k];
    ExecAllKeepsExtended(g, Bookkeeping(b, k), w, rs);
  }

  lemma StepKeepsExtended<W(!new)>(g: Guest<W>, b: Program, q: Place<W>, rs: set<Reg>)
    requires IsCut(b) && KeepsAllExtended(g, b, rs) && AreExtended(g, q.world, rs)
    ensures AreExtended(g, MipsStep(g, b, q).world, rs)
  {
    hide IsSegmented, AreExtended, Charge, Decides, FitsClass, IsPlainWord, HasShortFronts;
    var (i, w) := (q.i, q.world);
    if 0 <= i < b.Len() {
      var w1 := g.exec(b.words[i], w);
      assert KeepsExtended(g, b.words[i], rs) && KeepsExtended(g, b.words[i + 1], rs);
      ChargeKeepsExtended(g, b, i, w, rs);
      ChargeKeepsExtended(g, b, i, w1, rs);
      if b.code[i].Branch? {
        assert i + 1 < b.Len();
        ChargeKeepsExtended(g, b, i + 1, BeforeSlot(g, b, i, w), rs);
        ChargeKeepsExtended(g, b, i + 1, BehindSlot(g, b, i, w), rs);
      }
    }
  }

  lemma ExtendedIsTame<W(!new)>(g: Guest<W>, b: Program, q: Place<W>, rs: set<Reg>)
    requires IsCut(b) && IsEnteredInFront(b) && KeepsAllExtended(g, b, rs) && TestsExtended(g, b, rs)
    requires AreExtended(g, q.world, rs)
    ensures IsTame(g, b, q)
  {
    hide IsSupported, IsSegmented, IsDecidedAlike, LeadsToStart, MayFallBehind, Charge, Decides, KeepsAllExtended,
      IsExtended;
    hide IsLikely;
    if 0 <= q.i < b.Len() {
      WordCount(b);
      var k := SegmentOf(b, q.i);
      assert b.Segs()[k] == b.Segs()[k];
      ChargeKeepsExtended(g, b, q.i, q.world, rs);
      if b.code[q.i].Branch? && !IsLikely(b.words[q.i].what.op) {
        ExtendedIsDecidedAlike(g, b, q.i, q.world);
      }
    }
  }

  lemma {:induction false} RunKeepsExtended<W(!new)>(g: Guest<W>, b: Program, q: Place<W>, n: nat, rs: set<Reg>)
    requires IsCut(b) && KeepsAllExtended(g, b, rs) && AreExtended(g, q.world, rs)
    ensures AreExtended(g, MipsRun(g, b, q, n).world, rs)
    decreases n
  {
    hide IsSupported, IsSegmented, AreExtended, MipsStep, KeepsAllExtended;
    if n > 0 {
      StepKeepsExtended(g, b, q, rs);
      RunKeepsExtended(g, b, MipsStep(g, b, q), n - 1, rs);
    }
  }

  /** What BlockRefinesMips asks of a run holds of every run from sign-extended values. */
  lemma ExtendedRunIsTame<W(!new)>(g: Guest<W>, b: Program, q: Place<W>, rs: set<Reg>)
    requires IsCut(b) && IsEnteredInFront(b) && KeepsAllExtended(g, b, rs) && TestsExtended(g, b, rs)
    requires AreExtended(g, q.world, rs)
    ensures IsTameRun(g, b, q)
  {
    hide IsCut, IsEnteredInFront, KeepsAllExtended, TestsExtended, AreExtended, IsTame, MipsRun;
    forall n: nat ensures IsTame(g, b, MipsRun(g, b, q, n)) {
      RunKeepsExtended(g, b, q, n, rs);
      ExtendedIsTame(g, b, MipsRun(g, b, q, n), rs);
    }
  }

  // ---------------------------------------------------------------------------------------
  // A block of this kind

  /** A loop of the instruction first and a BGEZ back to it, with its slot and a J behind it. */
  function LoopBlock(first: Ins, bgez: Ins, slot: Ins, j: Ins, lastSlot: Ins, jump: int): Program {
    Program([MipsWord.Plain, Branch(-2), MipsWord.Plain, Jump(false)], [first, bgez, slot, j, lastSlot], jump,
            k => (REG_NOT_USED, 0), k => (REG_NOT_USED, 0))
  }

  lemma LoopBlockPieces(code: seq<MipsWord>)
    requires code == [MipsWord.Plain, Branch(-2), MipsWord.Plain, Jump(false)]
    ensures BlockLength(code) == 4 && Pieces(code) == [Piece(0, 2, Sandwich, None), Piece(2, 2, End, None)]
  {
    hide CutFrom;
    FirstWordLoopExample();
    assert code[1..][1..][1..][1..] == [];
    assert BlockLength(code[1..][1..][1..]) == 1 && BlockLength(code[1..][1..]) == 2 && BlockLength(code[1..]) == 3;
  }

  lemma LoopBlockIsSupported(first: Ins, bgez: Ins, slot: Ins, j: Ins, lastSlot: Ins, jump: int)
    requires IsPlainWord(first) && IsPlainWord(slot) && IsPlainWord(lastSlot) && bgez.what.op == MipsBgez &&
      IsBranchWord(bgez) && j.what.op == MipsJ
    ensures IsSupported(LoopBlock(first, bgez, slot, j, lastSlot, jump))
  {
    hide IsPlainWord, BlockLength, Pieces, IsLikely;
    var b := LoopBlock(first, bgez, slot, j, lastSlot, jump);
    LoopBlockPieces(b.code);
    forall i | 0 <= i < b.Len() ensures FitsClass(b, i) {
      LikelyBranches(bgez.what.op);
    }
  }

  lemma LikelyBranches(op: Opcode)
    requires op.MipsBgez?
    ensures IsBranchOp(op) && !IsLikely(op)
  {
  }

  /** The results about runs are about such a block: it is cut as they ask, and entered in front. */
  lemma LoopBlockIsEnteredInFront(first: Ins, bgez: Ins, slot: Ins, j: Ins, lastSlot: Ins, jump: int)
    requires IsPlainWord(first) && IsPlainWord(slot) && IsPlainWord(lastSlot) && bgez.what.op == MipsBgez &&
      IsBranchWord(bgez) && j.what.op == MipsJ
    requires jump != 1
    ensures
      var b := LoopBlock(first, bgez, slot, j, lastSlot, jump);
      IsCut(b) && IsEnteredInFront(b)
  {
    hide IsPlainWord, BlockLength, Pieces, IsSupported, FitsClass;
    var b := LoopBlock(first, bgez, slot, j, lastSlot, jump);
    LoopBlockPieces(b.code);
    LoopBlockIsSupported(first, bgez, slot, j, lastSlot, jump);
    SupportedIsSegmented(b);
    assert !IsFront(b, 0) && !IsFront(b, 1);
    forall k {:trigger b.Segs()[k]} | 0 <= k < |b.Segs()| ensures LeadsToStart(b, k) && MayFallBehind(b, k) {
      if k == 0 {
        assert Goes(b, 0) == Some(0);
        assert LeadsToStart(b, 0);
      } else {
        assert Goes(b, 1) == Some(jump);
      }
    }
  }
}
