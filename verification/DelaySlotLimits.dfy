/** Where the code Translate_Branch leaves for one segment goes wrong.
 */
module DelaySlotLimits {
  import opened Ir
  import opened Bits
  import opened Arm
  import opened Segments
  import opened BranchConditions
  import opened DelaySlots

  /** A list of an instruction and a jump: skipping the first one on a fall-through entry would skip the
      delay slot too, because it is put in front of the node skipped to. Translate_Branch never gets
      such a list, as the COUNT pass has put its update in front of the jump (BodyIsCounted). */
  lemma TwoWordSegmentLosesSlot<W>(g: Guest<W>, kind: SegType, first: Ins, x: Ins, slot: Ins, exit: Exit, h: Host<W>)
    requires Skips(kind, first) && x.what.op.MipsJ? && IsOrdinary(first) && IsOrdinary(slot) && !IsNop(slot)
    requires h.ds < WORD && FlagIsSet(h)
    ensures Ends(g, Pass(g, SegmentNodes(kind, [first], x, slot, false, exit), 0, h), true, false, exit, h.world)
  {
    hide Pass, BranchNodes, At, Ends, IsOrdinary, Perform, SegmentNodes, TestFlag, Blank, Holds, Leave;
    var c := SegmentNodes(kind, [first], x, slot, false, exit);
    SegmentParts(kind, [first], x, slot, false, exit);
    var t := PassTest(g, c, 4, h);
    PassJumpWithoutSlot(g, c, 3, x, slot, exit, t);
  }

  /** The end of a segment from behind its delay slot. */
  lemma PassJumpWithoutSlot<W>(g: Guest<W>, c: seq<Node>, at: nat, x: Ins, slot: Ins, exit: Exit, h: Host<W>)
    requires x.what.op.MipsJ? && !IsNop(slot) && h.ds < WORD
    requires At(c, at, BranchNodes(x, slot, false, exit, at))
    ensures Ends(g, Pass(g, c, at + 1, h), true, false, exit, h.world)
  {
    hide Pass, Perform, Leave, At, Blank;
    var bic := InstrI(x, ArmBic, AL, REG_EMU_FLAGS, REG_EMU_FLAGS, REG_NOT_USED, 1);
    var (s, b, l, e) := (SlotNodes(slot), [Node(bic, None)], Leave(AL, false, exit), [Node(SetFlag(), None)]);
    AtParts(c, at, s + b + l, e);
    AtParts(c, at, s + b, l);
    AtParts(c, at, s, b);
    var h1 := PassClear(g, c, at + 1, bic, h);
    PassLeave(g, c, at + 2, AL, false, exit, h1);
  }

  /** A likely branch whose delay slot is a no-op gets no branch over it: it is always taken. */
  lemma LikelyWithNopIsAlwaysTaken<W>(g: Guest<W>, c: seq<Node>, at: nat, x: Ins, slot: Ins, loops: bool, exit: Exit,
                                      h: Host<W>)
    requires IsLikely(x.what.op) && IsBranchWord(x) && IsNop(slot) && h.ds < WORD
    requires At(c, at, BranchNodes(x, slot, loops, exit, at))
    ensures Ends(g, Pass(g, c, at, h), true, loops, exit, h.world)
  {
    hide Pass, Perform, Leave, At, Blank, CompareHigh, CompareLow, BranchFlags, ClearFlag, SetFlag, Holds;
    var (b, l, e) := ([Node(ClearFlag(), None)], Leave(AL, loops, exit), [Node(SetFlag(), None)]);
    var p := [Node(CompareHigh(x), None), Node(CompareLow(x), None)];
    assert BranchNodes(x, slot, loops, exit, at) == p + b + l + e;
    AtParts(c, at, p + b + l, e);
    AtParts(c, at, p + b, l);
    AtParts(c, at, p, b);
    PassCompare(g, c, at, x, h);
    FlagInstructions();
    var h1 := PassClear(g, c, at + 2, ClearFlag(), h.(flags := BranchFlags(g, x, h.world)));
    PassLeave(g, c, at + 3, AL, loops, exit, h1);
    AlwaysHolds(h1.flags);
  }

  lemma FlagInstructions()
    ensures Clears(ClearFlag())
  {
  }
}
