/** Translate_Branch with what it looks up: the target's segment in the map, its entry point, and the
    literal for the segment's own address.
 */
module BranchOfSegment {
  import opened Ir
  import opened SegmentMap
  import opened Segments
  import opened Literals
  import opened LiteralPasses
  import opened BranchConditions
  import opened DelaySlots
  import opened BranchPass
  import opened BranchTargets

  /** The base register and the offset addLiteral returns. */
  function Access(place: Literals.Place): (Reg, int) {
    match place
    case Global(slot, negative) => (REG_EMU_FP, if negative then -4 * slot else 4 * slot)
    case Local(offset) => (REG_HOST_PC, offset)
  }

  /** A branch counted from the end of the segment leads into the segment itself. */
  ghost predicate LoopsBack(mem: MemState, seg: Segment, leap: Leap)
    reads mem.Tables(), seg
  {
    leap.ByOffset? && mem.SegmentAt(LeapAddress(seg.code + 4 * seg.len, leap)) == seg
  }

  /** At most one literal is added. */
  lemma AddedIsShort(g: Pool, kind: SegType, lits: seq<nat>, value: nat)
    requires |g.slots| == SLOTS + 1 && g.count <= SLOTS
    ensures var q := Literals.AddLiteral(g, kind, lits, value); q.Some? ==> |q.value.lits| <= |lits| + 1
  {
    hide FindSlot, FindLocal;
  }

  /** What the pass looks up: whether the branch loops, and otherwise the exit. False where addLiteral
      aborts. */
  method FindExit(seg: Segment, mem: MemState, pool: LiteralPool, lits: SegmentLiterals, id: nat, leap: Leap,
                  unknown: nat)
    returns (ok: bool, loops: bool, exit: Exit)
    requires mem.Valid() && pool.Valid()
    modifies pool, pool.table, lits
    ensures pool.Valid() && pool.table == old(pool.table) && (ok ==> |lits.values| <= |old(lits.values)| + 1)
    ensures loops == old(LoopsBack(mem, seg, leap))
    ensures loops ==> pool.Value() == old(pool.Value()) && lits.values == old(lits.values)
    ensures ok <==> loops || Literals.AddLiteral(old(pool.Value()), lits.kind, old(lits.values), id).Some?
    ensures ok && !loops ==>
      IsExit(exit, old(EntryOr(mem.SegmentAt(LeapAddress(seg.code + 4 * seg.len, leap)), unknown)),
      Literals.AddLiteral(old(pool.Value()), lits.kind, old(lits.values), id), pool.Value(), lits.values)
  {
    ok, exit := true, Exit(REG_HOST_PC, 0, 0);
    var s := mem.GetSegmentAt(LeapAddress(seg.code + 4 * seg.len, leap));
    loops := leap.ByOffset? && s == seg;
    if !loops {
      var address := GetTgtAddress(mem, seg, leap, unknown);
      var place;
      AddedIsShort(pool.Value(), lits.kind, lits.values, id);
      ok, place := LiteralPasses.AddLiteral(pool, lits, id);
      exit := Exit(Access(place).0, Access(place).1, address);
    }
  }

  /** The exit has the address, and the literal that was added. */
  ghost predicate IsExit(exit: Exit, address: nat, q: Option<Added>, pool: Pool, lits: seq<nat>) {
    && exit.address == address
    && q.Some? && q.value.pool == pool && q.value.lits == lits && (exit.base, exit.offset) == Access(q.value.place)
  }

  /** Translate_Branch for a segment: the code is the specified one, with the address and the literal found.
      False where addLiteral aborts. */
  method TranslateSegmentBranch(list: InstrList, seg: Segment, mem: MemState, pool: LiteralPool, lits: SegmentLiterals,
                                id: nat, slot: Ins, leap: Leap, unknown: nat, ghost body: seq<Ins>, ghost x: Ins)
    returns (ok: bool, loops: bool, exit: Exit)
    requires list.Valid() && body != [] && HasNodes(list, EntryNodes(body, x))
    requires IsHandled(x.what.op) && forall i :: 0 <= i < |body| ==> !IsHandled(body[i].what.op)
    requires mem.Valid() && pool.Valid()
    modifies list, list.nodes, pool, pool.table, lits
    ensures ok ==> list.Valid() && HasNodes(list, SegmentNodes(old(seg.kind), body, x, slot, loops, exit))
    ensures pool.Valid() && pool.table == old(pool.table) && (ok ==> |lits.values| <= |old(lits.values)| + 1)
    ensures loops == old(LoopsBack(mem, seg, leap))
    ensures loops ==> pool.Value() == old(pool.Value()) && lits.values == old(lits.values)
    ensures ok <==> loops || Literals.AddLiteral(old(pool.Value()), lits.kind, old(lits.values), id).Some?
    ensures ok && !loops ==>
      IsExit(exit, old(EntryOr(mem.SegmentAt(LeapAddress(seg.code + 4 * seg.len, leap)), unknown)),
      Literals.AddLiteral(old(pool.Value()), lits.kind, old(lits.values), id), pool.Value(), lits.values)
  {
    hide SegmentNodes, EntryNodes, HasNodes, IsExit, Literals.AddLiteral;
    ghost var nodes := list.nodes;
    ok, loops, exit := FindExit(seg, mem, pool, lits, id, leap, unknown);
    if ok {
      TranslateBranch(list, seg.kind, slot, loops, exit, body, x);
    }
  }
}
