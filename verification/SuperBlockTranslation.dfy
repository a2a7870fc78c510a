/** A super block from its words to the buffer: its segments are made and mapped, and one after the other
    their lists go through Translate_CountRegister and Translate_Branch and are emitted. The passes
    between Translate_Branch and the emission are left out here.
 */
module SuperBlockTranslation {
  import opened Ir
  import opened Segments
  import opened SegmentMap
  import opened SegmentChain
  import opened Literals
  import opened Emission
  import opened LiteralPasses
  import opened BranchConditions
  import opened DelaySlots
  import opened BranchPass
  import opened BranchTargets
  import opened BranchOfSegment
  import opened ChainEmission
  import opened SuperBlocks
  import opened SuperBlockEmission
  import opened SegmentTranslation

  // ---------------------------------------------------------------------------------------
  // One segment

  function InsOf(c: seq<Node>): (code: seq<Ins>)
    ensures |code| == |c| && forall i :: 0 <= i < |c| ==> code[i] == c[i].ins
  {
    seq(|c|, i requires 0 <= i < |c| => c[i].ins)
  }

  lemma CodeOfNodes(list: InstrList, c: seq<Node>)
    requires list.Valid() && HasNodes(list, c)
    ensures list.Code() == InsOf(c)
  {
    var code := list.Code();
    assert forall i {:trigger c[i]} :: 0 <= i < |c| ==> code[i] == c[i].ins;
  }

  lemma UpdateIsShort(b: Program, k: nat)
    requires k < |b.Segs()|
    ensures |Bookkeeping(b, k)| <= 6
  {
    hide Pieces;
  }

  lemma LeaveIsShort(x: Ins, slot: Ins, loops: bool, exit: Exit, at: nat)
    ensures 0 < |BranchNodes(x, slot, loops, exit, at)| <= 9
  {
    hide CompareHigh, CompareLow, InstrI, Blank;
  }

  /** The room a segment's list takes. */
  lemma CodeIsShort(b: Program, k: nat, loops: bool, exit: Exit)
    requires IsCut(b) && k < |b.Segs()|
    ensures 0 < |CodeFor(b, k, loops, exit)| <= b.Segs()[k].len + 16
  {
    hide IsSegmented, IsSupported, IsFront, Pieces, BlockLength, Bookkeeping, BranchNodes, Blank, Skips, TestFlag;
    SegmentBounds(b, k);
    WordCount(b);
    UpdateIsShort(b, k);
    var body := Body(b, k);
    if IsFront(b, k) {
      CodeOfFront(b, k, loops, exit);
    } else {
      CodeOfBranch(b, k, loops, exit);
      var (x, slot) := (b.words[LastWord(b, k)], b.words[LastWord(b, k) + 1]);
      var front := SkipNodes(b.Segs()[k].kind, body, x, slot) + BodyNodes(body);
      LeaveIsShort(x, slot, loops, exit, |front|);
    }
  }

  /** What loops does not leave through its exit. */
  lemma NodesIgnoreExit(kind: SegType, body: seq<Ins>, x: Ins, slot: Ins, e1: Exit, e2: Exit)
    requires body != [] && !x.what.op.MipsJ?
    ensures SegmentNodes(kind, body, x, slot, true, e1) == SegmentNodes(kind, body, x, slot, true, e2)
  {
    hide CompareHigh, CompareLow, InstrI, Blank;
  }

  lemma LoopIsNoJump(b: Program, k: nat)
    requires IsCut(b) && k < |b.Segs()| && IsLoop(b, k) && !IsFront(b, k)
    ensures 0 <= LastWord(b, k) < |b.words| && !b.words[LastWord(b, k)].what.op.MipsJ?
  {
    hide IsSegmented, IsFront, Pieces, BlockLength, NoFarWrap, HasPlainSlots, HasShortFronts, IsPlainWord;
    SegmentBounds(b, k);
    assert FitsClass(b, LastWord(b, k));
  }

  lemma LoopIgnoresExit(b: Program, k: nat, e1: Exit, e2: Exit)
    requires IsCut(b) && k < |b.Segs()| && IsLoop(b, k)
    ensures CodeFor(b, k, true, e1) == CodeFor(b, k, true, e2)
  {
    hide IsSegmented, IsSupported, IsFront, Pieces, BlockLength, Body, SegmentNodes, FrontNodes, CodeFor, IsLoop;
    if IsFront(b, k) {
      CodeOfFront(b, k, true, e1);
      CodeOfFront(b, k, true, e2);
    } else {
      LoopIsNoJump(b, k);
      CodeOfBranch(b, k, true, e1);
      CodeOfBranch(b, k, true, e2);
      var e := LastWord(b, k);
      NodesIgnoreExit(b.Segs()[k].kind, Body(b, k), b.words[e], b.words[e + 1], e1, e2);
    }
  }

  /** What addLiteral does for segment k, whose literals are first: nothing if it is in front of a loop or
      loops itself. Otherwise id, its own address, is added to them or to the pool g, and literal says where
      it is. */
  ghost predicate HasLiteral(b: Program, k: nat, g: Pool, first: seq<nat>, id: nat, literal: (Reg, int), h: Pool,
                             lits: seq<nat>)
    requires IsCut(b) && k < |b.Segs()| && |g.slots| == SLOTS + 1 && g.count <= SLOTS
  {
    if IsFront(b, k) || IsLoop(b, k) then h == g && lits == first
    else
      var q := Literals.AddLiteral(g, b.Segs()[k].kind, first, id);
      q.Some? && IsAdded(q.value, literal, h, lits)
  }

  ghost predicate IsAdded(a: Added, literal: (Reg, int), h: Pool, lits: seq<nat>) {
    h == a.pool && lits == a.lits && literal == Access(a.place)
  }

  /** And it aborts. */
  ghost predicate LacksRoom(b: Program, k: nat, g: Pool, first: seq<nat>, id: nat)
    requires IsCut(b) && k < |b.Segs()| && |g.slots| == SLOTS + 1 && g.count <= SLOTS
  {
    !IsFront(b, k) && !IsLoop(b, k) && Literals.AddLiteral(g, b.Segs()[k].kind, first, id).None?
  }

  /** The literal that was added is where it is said to be: in its slot of the pool, or, if it was not among the
      segment's literals before, at its offset in them. */
  lemma LiteralIsThere(b: Program, k: nat, g: Pool, first: seq<nat>, id: nat, literal: (Reg, int), h: Pool,
                       lits: seq<nat>)
    requires IsCut(b) && k < |b.Segs()| && IsPool(g) && g.count + 1 < SLOTS && id != 0 && id !in first
    requires HasLiteral(b, k, g, first, id, literal, h, lits) && !IsFront(b, k) && !IsLoop(b, k)
    ensures literal.0 == REG_EMU_FP || literal.0 == REG_HOST_PC
    ensures literal.0 == REG_EMU_FP ==>
      var slot := (if literal.1 < 0 then -literal.1 else literal.1) / 4;
      IsPool(h) && 1 <= slot <= h.count && h.slots[slot] == id
    ensures literal.0 == REG_HOST_PC ==>
      literal.1 >= 0 && literal.1 % 4 == 0 && literal.1 / 4 < |lits| && lits[literal.1 / 4] == id
  {
    hide IsCut, IsFront, IsLoop, Pieces;
    AddKeepsPool(g, Request(b.Segs()[k].kind, first, id));
  }

  /** The list of a segment with a branch, with the literal and the address in it; first are its literals so
      far. */
  method TranslateBranchOne(b: Program, k: nat, seg: Segment, mem: MemState, pool: LiteralPool, first: seq<nat>,
                            id: nat, leap: Leap, unknown: nat, ghost dest: Segment?)
    returns (ok: bool, list: InstrList, values: seq<nat>, literal: (Reg, int), target: nat)
    requires IsCut(b) && k < |b.Segs()| && seg.kind == b.Segs()[k].kind && !IsFront(b, k)
    requires mem.Valid() && pool.Valid() && dest == Destination(mem, seg, Some(leap)) && seg.entry == 0
    requires IsLoop(b, k) <==> leap.ByOffset? && dest == seg
    modifies pool, pool.table
    ensures pool.Valid() && pool.table == old(pool.table) && (ok ==> |values| <= |first| + 1)
    ensures ok ==>
      && list.Valid()
      && list.Code() == InsOf(CodeFor(b, k, IsLoop(b, k), Exit(literal.0, literal.1, target)))
    ensures ok ==> target == old(EntryOr(dest, unknown))
    ensures ok ==> HasLiteral(b, k, old(pool.Value()), first, id, literal, pool.Value(), values)
    ensures ok <==> !LacksRoom(b, k, old(pool.Value()), first, id)
  {
    hide IsSegmented, IsSupported, IsFront, Pieces, BlockLength, HasNodes, CodeFor, IsLoop, LeapAddress, InsOf;
    hide Literals.AddLiteral, Access;
    var lits := new SegmentLiterals(seg.kind);
    lits.values := first;
    var loops, exit;
    ok, list, loops, exit := TranslateBranching(b, k, seg, mem, pool, lits, id, leap, unknown);
    values, literal, target := lits.values, (exit.base, exit.offset), unknown;
    if ok {
      CodeOfNodes(list, CodeFor(b, k, loops, exit));
      if loops {
        LoopIgnoresExit(b, k, exit, Exit(literal.0, literal.1, target));
      } else {
        target := exit.address;
      }
    }
  }

  /** The same for any segment; one in front of a loop has no branch. */
  method TranslateOne(b: Program, k: nat, seg: Segment, mem: MemState, pool: LiteralPool, first: seq<nat>,
                      id: nat, leap: Option<Leap>, unknown: nat, ghost dest: Segment?)
    returns (ok: bool, list: InstrList, values: seq<nat>, literal: (Reg, int), target: nat)
    requires IsCut(b) && k < |b.Segs()| && seg.kind == b.Segs()[k].kind && (leap.Some? <==> !IsFront(b, k))
    requires mem.Valid() && pool.Valid() && dest == Destination(mem, seg, leap) && seg.entry == 0
    requires IsLoop(b, k) <==> leap.Some? && leap.value.ByOffset? && dest == seg
    modifies pool, pool.table
    ensures pool.Valid() && pool.table == old(pool.table) && (ok ==> |values| <= |first| + 1)
    ensures ok ==>
      && list.Valid()
      && list.Code() == InsOf(CodeFor(b, k, IsLoop(b, k), Exit(literal.0, literal.1, target)))
    ensures ok ==> target == old(EntryOr(dest, unknown))
    ensures ok ==> HasLiteral(b, k, old(pool.Value()), first, id, literal, pool.Value(), values)
    ensures ok <==> !LacksRoom(b, k, old(pool.Value()), first, id)
  {
    hide IsSegmented, IsSupported, IsFront, Pieces, BlockLength, HasNodes, CodeFor, IsLoop, LeapAddress, InsOf;
    hide Literals.AddLiteral, Access;
    if leap.None? {
      list := TranslatePlain(b, k);
      FrontIgnoresExit(b, k, IsLoop(b, k), Exit(0, 0, unknown));
      CodeOfNodes(list, CodeFor(b, k, false, Exit(0, 0, 0)));
      ok, values, literal, target := true, first, (0, 0), unknown;
    } else {
      ok, list, values, literal, target :=
        TranslateBranchOne(b, k, seg, mem, pool, first, id, leap.value, unknown, dest);
    }
  }

  lemma FrontIgnoresExit(b: Program, k: nat, loops: bool, exit: Exit)
    requires IsCut(b) && k < |b.Segs()| && IsFront(b, k)
    ensures CodeFor(b, k, loops, exit) == CodeFor(b, k, false, Exit(0, 0, 0))
  {
    hide IsSegmented, IsSupported, IsFront, Pieces, BlockLength, CodeFor, Body;
    CodeOfFront(b, k, loops, exit);
    CodeOfFront(b, k, false, Exit(0, 0, 0));
  }

  // ---------------------------------------------------------------------------------------
  // The segments one after the other

  /** Parts that are known up to k. */
  lemma {:induction false} SameBefore(encode: (Ins, nat) -> nat, ps: seq<Part>, qs: seq<Part>, base: nat, k: nat)
    requires k <= |ps| == |qs| && forall j :: 0 <= j < k ==> ps[j] == qs[j]
    ensures Begin(ps, base, k) == Begin(qs, base, k) &&
      EmittedAll(encode, ps, base, k) == EmittedAll(encode, qs, base, k)
    ensures forall j :: 0 <= j < k ==> Entry(ps, base, j) == Entry(qs, base, j)
    decreases k
  {
    hide Emitted;
    if k > 0 {
      SameBefore(encode, ps, qs, base, k - 1);
    }
  }

  /** The room for segment k with some literals, in words. */
  function Limit(b: Program, lits: seq<seq<nat>>, k: nat): nat
    requires k < |b.Segs()| == |lits|
  {
    b.Segs()[k].len + 17 + |lits[k]|
  }

  function LimitFrom(b: Program, lits: seq<seq<nat>>, k: nat): nat
    requires k <= |b.Segs()| == |lits|
    decreases |lits| - k
  {
    if k == |lits| then 0 else Limit(b, lits, k) + LimitFrom(b, lits, k + 1)
  }

  /** Part k is what the list of segment k with the given literal and address in it is emitted from. */
  ghost predicate IsPartOf(b: Program, k: nat, part: Part, literal: (Reg, int), target: nat)
    requires IsCut(b) && k < |b.Segs()|
  {
    && part.kind == b.Segs()[k].kind
    && part.code == InsOf(CodeFor(b, k, IsLoop(b, k), Exit(literal.0, literal.1, target)))
  }

  /** What is known of segment k's branch: dest is the segment it leads to, and other what that is entered at
      if it is outside the block. */
  ghost predicate IsBranchOf(b: Program, k: nat, mem: MemState, order: seq<Segment>, seg: Segment,
                             leap: Option<Leap>, dest: Segment?, other: nat, unknown: nat)
    requires IsCut(b) && k < |b.Segs()|
    reads mem.Tables(), seg`code, seg`len, (if dest == null then {} else {dest})`entry
  {
    && (leap.Some? <==> !IsFront(b, k))
    && dest == Destination(mem, seg, leap) && (dest !in order ==> EntryOr(dest, unknown) == other)
    && (IsLoop(b, k) <==> leap.Some? && leap.value.ByOffset? && dest == seg)
  }

  lemma StillEmitted(encode: (Ins, nat) -> nat, order: seq<Segment>, ps: seq<Part>, qs: seq<Part>, base: nat, k: nat)
    requires k < |order| == |ps| == |qs| && (forall j :: 0 <= j < k ==> ps[j] == qs[j]) &&
      EmittedUpTo(order, ps, base, k)
    ensures EmittedUpTo(order, qs, base, k) && Begin(qs, base, k) == Begin(ps, base, k)
  {
    hide Begin, Entry;
    SameBefore(encode, ps, qs, base, k);
  }

  lemma BeginNext(ps: seq<Part>, base: nat, k: nat)
    requires k < |ps|
    ensures Begin(ps, base, k + 1) == Begin(ps, base, k) + 4 * ps[k].Length()
    ensures ps[k].Length() <= |ps[k].code| + |ps[k].lits|
  {
  }

  lemma AddressStays(encode: (Ins, nat) -> nat, order: seq<Segment>, ps: seq<Part>, qs: seq<Part>, base: nat, k: nat,
                     s: Segment?, other: nat, a: nat, unknown: nat)
    requires k < |order| == |ps| == |qs| && forall j :: 0 <= j < k ==> ps[j] == qs[j]
    requires IsAddress(order, ps, base, k, s, other, a, unknown)
    ensures IsAddress(order, qs, base, k, s, other, a, unknown)
  {
    hide Entry, Begin;
    SameBefore(encode, ps, qs, base, k);
  }

  /** Emit the list of segment k behind the segments before it. */
  method EmitList(buf: CodeBuffer, order: seq<Segment>, k: nat, list: InstrList, lits: seq<nat>,
                  encode: (Ins, nat) -> nat, ghost parts: seq<Part>, ghost base: nat) returns (ghost part: Part)
    requires buf.Valid() && list.Valid() && list.Code() != [] && k < |order| == |parts|
    requires EmittedUpTo(order, parts, base, k) && forall i, j :: 0 <= i < j < |order| ==> order[i] != order[j]
    requires buf.Address() == Begin(parts, base, k) && buf.pos + |list.Code()| + |lits| <= buf.words.Length
    modifies buf`pos, buf.words, order`entry
    ensures buf.Valid() && part == Part(order[k].kind, old(list.Code()), lits)
    ensures
      var ps := parts[k := part];
      && buf.Address() == Begin(ps, base, k + 1) && EmittedUpTo(order, ps, base, k + 1)
      && buf.pos <= old(buf.pos) + |part.code| + |lits|
      && buf.words[..buf.pos] == old(buf.words[..buf.pos])
         + Emitted(encode, part.kind, part.code, part.lits, Begin(ps, base, k))
  {
    hide Emitted, Entry, Begin, EmittedUpTo;
    part := Part(order[k].kind, list.Code(), lits);
    ghost var ps := parts[k := part];
    StillEmitted(encode, order, parts, ps, base, k);
    BeginNext(ps, base, k);
    EmitNext(buf, order, k, list, lits, encode, ps, base);
  }

  /** Translate and emit segment k, whose literals so far are first. */
  method TranslateAndEmit(b: Program, k: nat, mem: MemState, buf: CodeBuffer, order: seq<Segment>, pool: LiteralPool,
                          first: seq<nat>, id: nat, leap: Option<Leap>, encode: (Ins, nat) -> nat, unknown: nat,
                          ghost parts: seq<Part>, ghost base: nat, ghost dest: Segment?, ghost other: nat)
    returns (ok: bool, literal: (Reg, int), target: nat, ghost part: Part)
    requires IsCut(b) && k < |b.Segs()| == |order| == |parts| && order[k].kind == b.Segs()[k].kind
    requires mem.Valid() && buf.Valid() && pool.Valid() && pool.table != buf.words && base > 0
    requires EmittedUpTo(order, parts, base, k) && forall i, j :: 0 <= i < j < |order| ==> order[i] != order[j]
    requires (forall j :: 0 <= j < |parts| ==> parts[j].code != []) && buf.Address() == Begin(parts, base, k)
    requires IsBranchOf(b, k, mem, order, order[k], leap, dest, other, unknown)
    requires buf.pos + b.Segs()[k].len + 17 + |first| <= buf.words.Length
    modifies buf`pos, buf.words, order`entry, pool, pool.table
    ensures buf.Valid() && pool.Valid() && pool.table == old(pool.table)
    ensures ok ==> IsPartOf(b, k, part, literal, target) && part.code != []
    ensures ok ==> HasLiteral(b, k, old(pool.Value()), first, id, literal, pool.Value(), part.lits)
    ensures ok <==> !LacksRoom(b, k, old(pool.Value()), first, id)
    ensures ok ==>
      var ps := parts[k := part];
      && buf.Address() == Begin(ps, base, k + 1) && EmittedUpTo(order, ps, base, k + 1)
      && buf.pos <= old(buf.pos) + b.Segs()[k].len + 17 + |first|
      && buf.words[..buf.pos] == old(buf.words[..buf.pos])
         + Emitted(encode, part.kind, part.code, part.lits, Begin(ps, base, k))
      && IsAddress(order, ps, base, k, dest, other, target, unknown)
  {
    hide IsSegmented, IsSupported, IsFront, Pieces, BlockLength, CodeFor, IsLoop, InsOf, Emitted, Entry, Begin,
      EmittedUpTo;
    hide IsAddress, LeadingLiterals, TrailingLiterals, HasLiteral, LacksRoom;
    var list, lits;
    NotEntered(order, parts, base, k);
    AddressIsFound(order, parts, base, k, dest, other, unknown);
    ok, list, lits, literal, target := TranslateOne(b, k, order[k], mem, pool, first, id, leap, unknown, dest);
    if ok {
      CodeIsShort(b, k, IsLoop(b, k), Exit(literal.0, literal.1, target));
      part := EmitList(buf, order, k, list, lits, encode, parts, base);
      AddressStays(encode, order, parts, parts[k := part], base, k, dest, other, target, unknown);
    } else {
      part := parts[k];
    }
  }

  lemma NotEntered(order: seq<Segment>, parts: seq<Part>, base: nat, k: nat)
    requires k < |order| == |parts| && EmittedUpTo(order, parts, base, k)
    ensures order[k].entry == 0
  {
  }

  /** Which segments have branches, and which of these loop. */
  ghost predicate KnowsLoops(b: Program, order: seq<Segment>, leaps: seq<Option<Leap>>, dests: seq<Segment?>)
    requires IsCut(b) && |b.Segs()| == |order| == |leaps| == |dests|
  {
    forall k {:trigger leaps[k]} :: 0 <= k < |order| ==>
      && (leaps[k].Some? <==> !IsFront(b, k))
      && (IsLoop(b, k) <==> leaps[k].Some? && leaps[k].value.ByOffset? && dests[k] == order[k])
  }

  lemma BranchIsKnown(b: Program, k: nat, mem: MemState, order: seq<Segment>, leaps: seq<Option<Leap>>,
                      dests: seq<Segment?>, others: seq<nat>, unknown: nat)
    requires IsCut(b) && k < |b.Segs()| == |order| == |leaps| == |dests| && KnowsLoops(b, order, leaps, dests)
    requires AreDestinations(mem, order, leaps, dests) && AreEntered(order, dests, others, unknown)
    ensures |others| == |order| && IsBranchOf(b, k, mem, order, order[k], leaps[k], dests[k], others[k], unknown)
  {
    hide IsCut, IsFront, IsLoop, Destination;
    assert leaps[k] == leaps[k] && dests[k] == dests[k];
  }

  /** One round of the translation loop. */
  method TranslateNextOne(b: Program, k: nat, mem: MemState, buf: CodeBuffer, order: seq<Segment>, pool: LiteralPool,
                          first: seq<nat>, id: nat, leaps: seq<Option<Leap>>, encode: (Ins, nat) -> nat, unknown: nat,
                          ghost parts: seq<Part>, ghost base: nat, ghost dests: seq<Segment?>, ghost others: seq<nat>)
    returns (ok: bool, literal: (Reg, int), target: nat, ghost part: Part)
    requires IsCut(b) && k < |b.Segs()| == |order| == |parts| == |leaps| == |dests| == |others|
    requires order[k].kind == b.Segs()[k].kind && KnowsLoops(b, order, leaps, dests)
    requires mem.Valid() && buf.Valid() && pool.Valid() && pool.table != buf.words && base > 0
    requires EmittedUpTo(order, parts, base, k) && forall i, j :: 0 <= i < j < |order| ==> order[i] != order[j]
    requires (forall j :: 0 <= j < |parts| ==> parts[j].code != []) && buf.Address() == Begin(parts, base, k)
    requires AreDestinations(mem, order, leaps, dests) && AreEntered(order, dests, others, unknown)
    requires buf.pos + b.Segs()[k].len + 17 + |first| <= buf.words.Length
    modifies buf`pos, buf.words, order`entry, pool, pool.table
    ensures buf.Valid() && pool.Valid() && pool.table == old(pool.table)
    ensures AreDestinations(mem, order, leaps, dests) && AreEntered(order, dests, others, unknown)
    ensures ok ==> IsPartOf(b, k, part, literal, target) && part.code != []
    ensures ok ==> HasLiteral(b, k, old(pool.Value()), first, id, literal, pool.Value(), part.lits)
    ensures ok <==> !LacksRoom(b, k, old(pool.Value()), first, id)
    ensures ok ==>
      var ps := parts[k := part];
      && buf.Address() == Begin(ps, base, k + 1) && EmittedUpTo(order, ps, base, k + 1)
      && buf.pos <= old(buf.pos) + b.Segs()[k].len + 17 + |first|
      && buf.words[..buf.pos] == old(buf.words[..buf.pos])
         + Emitted(encode, part.kind, part.code, part.lits, Begin(ps, base, k))
      && IsAddress(order, ps, base, k, dests[k], others[k], target, unknown)
  {
    hide IsCut, IsFront, IsLoop, Emitted, Entry, Begin, IsAddress, EmittedUpTo, AreDestinations, KnowsLoops, IsPartOf;
    hide Pieces, HasLiteral, LacksRoom;
    BranchIsKnown(b, k, mem, order, leaps, dests, others, unknown);
    assert forall i :: 0 <= i < |mem.blocks| ==> mem.blocks[i].table as object != buf.words as object;
    assert (buf.words as object) !in mem.Tables();
    assert (pool.table as object) !in mem.Tables() && (pool as object) !in mem.Tables();
    ok, literal, target, part := TranslateAndEmit(b, k, mem, buf, order, pool, first, id, leaps[k], encode, unknown,
                                                  parts, base, dests[k], others[k]);
  }

  /** What has been done of the first k segments. */
  ghost predicate AreTranslated(b: Program, order: seq<Segment>, parts: seq<Part>, base: nat, k: nat,
                                dests: seq<Segment?>, others: seq<nat>, literals: seq<(Reg, int)>, targets: seq<nat>,
                                unknown: nat)
    requires IsCut(b) && k <= |b.Segs()| == |order| == |parts| == |dests| == |others| && k == |literals| == |targets|
  {
    forall i :: 0 <= i < k ==>
      && IsPartOf(b, i, parts[i], literals[i], targets[i])
      && IsAddress(order, parts, base, i, dests[i], others[i], targets[i], unknown)
  }

  ghost predicate IsSized(g: Pool) {
    |g.slots| == SLOTS + 1 && g.count <= SLOTS
  }

  /** What addLiteral has done of the first segments, pools being what the pool held before each of them and
      behind the last. */
  ghost predicate AreAdded(b: Program, lits: seq<seq<nat>>, ids: seq<nat>, parts: seq<Part>,
                           literals: seq<(Reg, int)>, pools: seq<Pool>)
    requires IsCut(b) && |literals| <= |b.Segs()| == |lits| == |ids| == |parts|
  {
    && |pools| == |literals| + 1 && (forall i :: 0 <= i < |pools| ==> IsSized(pools[i]))
    && forall i :: 0 <= i < |literals| ==>
        IsSized(pools[i]) && HasLiteral(b, i, pools[i], lits[i], ids[i], literals[i], pools[i + 1], parts[i].lits)
  }

  lemma OneMoreAdded(b: Program, lits: seq<seq<nat>>, ids: seq<nat>, parts: seq<Part>, part: Part,
                     literals: seq<(Reg, int)>, literal: (Reg, int), pools: seq<Pool>, h: Pool)
    requires IsCut(b) && |literals| < |b.Segs()| == |lits| == |ids| == |parts|
    requires AreAdded(b, lits, ids, parts, literals, pools) && IsSized(h)
    requires
      var k := |literals|;
      IsSized(pools[k]) && HasLiteral(b, k, pools[k], lits[k], ids[k], literal, h, part.lits)
    ensures AreAdded(b, lits, ids, parts[|literals| := part], literals + [literal], pools + [h])
  {
    hide IsCut, HasLiteral, IsSized;
  }

  lemma OneMoreTranslated(encode: (Ins, nat) -> nat, b: Program, order: seq<Segment>, parts: seq<Part>, ps: seq<Part>,
                          base: nat, k: nat, dests: seq<Segment?>, others: seq<nat>, literals: seq<(Reg, int)>,
                          ls: seq<(Reg, int)>, targets: seq<nat>, ts: seq<nat>, unknown: nat)
    requires k < |order| == |parts| == |ps| == |dests| == |others| && k == |literals| == |targets|
    requires |ls| == |ts| == k + 1 && ls[..k] == literals && ts[..k] == targets
    requires forall i :: 0 <= i < k ==> ps[i] == parts[i]
    requires IsCut(b) && |b.Segs()| == |order|
    requires AreTranslated(b, order, parts, base, k, dests, others, literals, targets, unknown)
    requires IsPartOf(b, k, ps[k], ls[k], ts[k])
    requires IsAddress(order, ps, base, k, dests[k], others[k], ts[k], unknown)
    ensures AreTranslated(b, order, ps, base, k + 1, dests, others, ls, ts, unknown)
  {
    hide IsCut, IsPartOf, IsAddress;
    forall i | 0 <= i < k
      ensures IsPartOf(b, i, ps[i], ls[i], ts[i])
      ensures IsAddress(order, ps, base, i, dests[i], others[i], ts[i], unknown)
    {
      assert ls[i] == ls[..k][i] && ts[i] == ts[..k][i];
      AddressStays(encode, order, parts, ps, base, i, dests[i], others[i], targets[i], unknown);
    }
  }

  lemma OneMoreEmitted(encode: (Ins, nat) -> nat, parts: seq<Part>, part: Part, base: nat, k: nat)
    requires k < |parts|
    ensures EmittedAll(encode, parts[k := part], base, k + 1) == EmittedAll(encode, parts, base, k)
      + Emitted(encode, part.kind, part.code, part.lits, Begin(parts[k := part], base, k))
  {
    hide Emitted, Begin;
    SameBefore(encode, parts, parts[k := part], base, k);
  }

  /** Translate and emit the segments in order. lits are the literals they have so far and ids their
      addresses as literals. */
  method TranslateAll(b: Program, mem: MemState, buf: CodeBuffer, order: seq<Segment>, pool: LiteralPool,
                      lits: seq<seq<nat>>, ids: seq<nat>, leaps: seq<Option<Leap>>, encode: (Ins, nat) -> nat,
                      unknown: nat, ghost dests: seq<Segment?>, ghost others: seq<nat>)
    returns (ok: bool, literals: seq<(Reg, int)>, targets: seq<nat>, ghost parts: seq<Part>, ghost pools: seq<Pool>)
    requires IsCut(b) && |b.Segs()| == |order| == |lits| == |ids| == |leaps| == |dests| == |others|
    requires (forall k :: 0 <= k < |order| ==> order[k].kind == b.Segs()[k].kind) && KnowsLoops(b, order, leaps, dests)
    requires mem.Valid() && buf.Valid() && pool.Valid() && pool.table != buf.words && buf.Address() > 0
    requires NoneEmitted(order) && forall i, j :: 0 <= i < j < |order| ==> order[i] != order[j]
    requires AreDestinations(mem, order, leaps, dests) && AreEntered(order, dests, others, unknown)
    requires buf.pos + LimitFrom(b, lits, 0) <= buf.words.Length
    modifies buf`pos, buf.words, order`entry, pool, pool.table
    ensures buf.Valid() && pool.Valid()
    ensures |parts| == |order| && |literals| <= |order| && AreAdded(b, lits, ids, parts, literals, pools)
    ensures pools[0] == old(pool.Value())
    ensures !ok ==>
      var k := |literals|;
      k < |order| && IsSized(pools[k]) && LacksRoom(b, k, pools[k], lits[k], ids[k])
    ensures ok ==>
      var a := old(buf.Address());
      && |literals| == |targets| == |parts| == |order| && (forall k :: 0 <= k < |parts| ==> parts[k].code != [])
      && buf.words[..buf.pos] == old(buf.words[..buf.pos]) + EmittedAll(encode, parts, a, |parts|)
      && EmittedUpTo(order, parts, a, |order|)
      && AreTranslated(b, order, parts, a, |order|, dests, others, literals, targets, unknown)
  {
    hide IsCut, Emitted, Entry, Begin, IsAddress, EmittedUpTo, AreDestinations, AreEntered, KnowsLoops, IsPartOf,
      Pieces;
    hide AreTranslated, EmittedAll, AreAdded, HasLiteral, LacksRoom;
    ok, literals, targets, pools := true, [], [], [pool.Value()];
    ghost var base, before := buf.Address(), buf.words[..buf.pos];
    parts := seq(|order|, _ => Part(Start, [Blank(NoOp, AL)], []));
    NothingEmitted(encode, order, parts, base);
    NoneTranslated(b, order, parts, base, dests, others, unknown);
    NoneAdded(b, lits, ids, parts, pools[0]);
    assert before + [] == before;
    for k := 0 to |order|
      invariant |literals| == |targets| == k && |parts| == |order|
      invariant forall j :: 0 <= j < |parts| ==> parts[j].code != []
      invariant buf.Valid() && pool.Valid() && pool.table == old(pool.table)
      invariant EmittedUpTo(order, parts, base, k) && buf.Address() == Begin(parts, base, k)
      invariant buf.words[..buf.pos] == before + EmittedAll(encode, parts, base, k)
      invariant AreDestinations(mem, order, leaps, dests) && AreEntered(order, dests, others, unknown)
      invariant AreTranslated(b, order, parts, base, k, dests, others, literals, targets, unknown)
      invariant AreAdded(b, lits, ids, parts, literals, pools)
      invariant |pools| == k + 1 && pools[0] == old(pool.Value()) && pools[k] == pool.Value()
      invariant buf.pos + LimitFrom(b, lits, k) <= buf.words.Length
    {
      var literal, target;
      ghost var part;
      ok, literal, target, part := TranslateNextOne(b, k, mem, buf, order, pool, lits[k], ids[k], leaps, encode,
                                                    unknown, parts, base, dests, others);
      if !ok {
        return;
      }
      OneMoreTranslated(encode, b, order, parts, parts[k := part], base, k, dests, others, literals,
                        literals + [literal], targets, targets + [target], unknown);
      OneMoreEmitted(encode, parts, part, base, k);
      OneMoreAdded(b, lits, ids, parts, part, literals, literal, pools, pool.Value());
      pools := pools + [pool.Value()];
      parts, literals, targets := parts[k := part], literals + [literal], targets + [target];
    }
  }

  lemma NoneAdded(b: Program, lits: seq<seq<nat>>, ids: seq<nat>, parts: seq<Part>, g: Pool)
    requires IsCut(b) && |b.Segs()| == |lits| == |ids| == |parts| && IsSized(g)
    ensures AreAdded(b, lits, ids, parts, [], [g])
  {
  }

  lemma NoneTranslated(b: Program, order: seq<Segment>, parts: seq<Part>, base: nat, dests: seq<Segment?>,
                       others: seq<nat>, unknown: nat)
    requires IsCut(b) && |b.Segs()| == |order| == |parts| == |dests| == |others|
    ensures AreTranslated(b, order, parts, base, 0, dests, others, [], [], unknown)
  {
  }

  // ---------------------------------------------------------------------------------------
  // From the words to the buffer

  /** The block with the literals found. */
  function WithLiterals(b: Program, literals: seq<(Reg, int)>): Program {
    b.(literals := (k: int) => if 0 <= k < |literals| then literals[k] else (0, 0))
  }

  lemma LiteralsDoNotMatter(b: Program, literals: seq<(Reg, int)>)
    requires IsCut(b)
    ensures var b' := WithLiterals(b, literals); IsCut(b') && b'.Segs() == b.Segs() && b'.Len() == b.Len()
  {
    hide BlockLength, Pieces, IsPlainWord, IsBranchOp, IsLikely, LoopsFollow, Covers, NoFarWrap, HasPlainSlots;
    hide HasShortFronts, HasShortOffsets;
    var b' := WithLiterals(b, literals);
    forall i | 0 <= i < b.Len() ensures FitsClass(b', i) {
      assert FitsClass(b, i);
    }
  }

  lemma SameFront(b: Program, literals: seq<(Reg, int)>, k: nat)
    requires IsCut(b) && IsCut(WithLiterals(b, literals)) && k < |b.Segs()|
    ensures
      var b' := WithLiterals(b, literals);
      && b'.Segs() == b.Segs() && b'.Len() == b.Len() && (IsFront(b', k) <==> IsFront(b, k))
      && SuperBlocks.Front(b', k) == SuperBlocks.Front(b, k) && Bookkeeping(b', k) == Bookkeeping(b, k)
  {
    hide IsSupported, IsSegmented, BlockLength, Pieces;
    var b' := WithLiterals(b, literals);
    assert b'.Segs() == b.Segs() && b'.Len() == b.Len();
    assert IsFront(b', k) <==> IsFront(b, k);
  }

  /** Nor do they for the list of a segment and for where its branch goes. */
  lemma SameCode(b: Program, literals: seq<(Reg, int)>, k: nat, loops: bool, exit: Exit)
    requires IsCut(b) && IsCut(WithLiterals(b, literals)) && k < |b.Segs()|
    ensures
      var b' := WithLiterals(b, literals);
      && k < |b'.Segs()| && CodeFor(b', k, loops, exit) == CodeFor(b, k, loops, exit)
      && (IsLoop(b', k) <==> IsLoop(b, k)) && Goes(b', k) == Goes(b, k)
  {
    hide IsSupported, IsSegmented, BlockLength, Pieces, FrontNodes, SegmentNodes, IsFront, Bookkeeping,
      SuperBlocks.Front;
    SameFront(b, literals, k);
    var b' := WithLiterals(b, literals);
    assert Body(b', k) == Body(b, k);
  }

  lemma LayoutKept(b: Program, literals: seq<(Reg, int)>, lay: Layout)
    requires IsCut(b) && IsCut(WithLiterals(b, literals)) && IsLaidOut(b, lay)
    ensures IsLaidOut(WithLiterals(b, literals), lay)
  {
    hide IsSupported, IsSegmented, BlockLength, Pieces;
    var b' := WithLiterals(b, literals);
    assert AllGoes(b') == AllGoes(b);
  }

  /** The branches that loop are those the map leads back to their own segment. */
  lemma LoopsAreKnown(mem: MemState, c: seq<seq<Segment?>>, b: Program, base: nat, index: nat, order: seq<Segment>,
                      leaps: seq<Option<Leap>>, dests: seq<Segment?>)
    requires IsCut(b) && |order| == |leaps| == |dests| == |b.Segs()| && leaps == Leaps(b, index)
    requires |c| == |mem.blocks| && IsMapOf(mem, c, base, b.Len(), order, b.Segs())
    requires forall i, j :: 0 <= i < j < |order| ==> order[i] != order[j]
    requires forall k :: 0 <= k < |order| && leaps[k].Some? ==>
      dests[k] == SegmentOfWord(mem, c, base, Goes(b, k).value)
    ensures KnowsLoops(b, order, leaps, dests)
  {
    hide IsSegmented, BlockLength, Pieces, SegmentOfWord, IsFront, NoFarWrap, HasPlainSlots, HasShortFronts,
      IsPlainWord;
    WordCount(b);
    forall k {:trigger leaps[k]} | 0 <= k < |order|
      ensures leaps[k].Some? <==> !IsFront(b, k)
      ensures IsLoop(b, k) <==> leaps[k].Some? && leaps[k].value.ByOffset? && dests[k] == order[k]
    {
      SegmentBounds(b, k);
      assert FitsClass(b, LastWord(b, k));
      if b.code[LastWord(b, k)].Branch? {
        var t := Goes(b, k).value;
        if 0 <= t < b.Len() {
          var j := SegmentOf(b, t);
          InSegment(b, t);
          assert b.Segs()[j] == b.Segs()[j] && SegmentOfWord(mem, c, base, t) == order[j];
          assert j < k ==> order[j] != order[k];
          assert k < j ==> order[k] != order[j];
        } else {
          assert SegmentOfWord(mem, c, base, t) !in order;
          assert order[k] in order;
        }
      }
    }
  }

  /** Every part is what the list of its segment is emitted from, for the block with the literals found and the
      layout its branches go by. */
  ghost predicate AreLists(b: Program, lay: Layout, parts: seq<Part>)
    requires IsCut(b) && IsLaidOut(b, lay) && |parts| == |b.Segs()|
  {
    forall k :: 0 <= k < |parts| ==> parts[k].kind == b.Segs()[k].kind && parts[k].code == InsOf(SegmentCode(b, lay, k))
  }

  lemma PartsAreLists(b: Program, order: seq<Segment>, parts: seq<Part>, base: nat, dests: seq<Segment?>,
                      others: seq<nat>, literals: seq<(Reg, int)>, targets: seq<nat>, unknown: nat)
    requires IsCut(b) && |b.Segs()| == |order| == |parts| == |dests| == |others| == |literals| == |targets|
    requires AreTranslated(b, order, parts, base, |order|, dests, others, literals, targets, unknown)
    requires IsLaidOut(b, Layout(EntriesOf(parts, base), unknown, targets))
    ensures
      var (b', lay) := (WithLiterals(b, literals), Layout(EntriesOf(parts, base), unknown, targets));
      IsCut(b') && IsLaidOut(b', lay) && |b'.Segs()| == |parts| && AreLists(b', lay, parts)
  {
    hide IsSegmented, IsSupported, BlockLength, Pieces, IsLayout, IsAddress, CodeFor, IsLoop, InsOf;
    var (b', lay) := (WithLiterals(b, literals), Layout(EntriesOf(parts, base), unknown, targets));
    LiteralsDoNotMatter(b, literals);
    LayoutKept(b, literals, lay);
    forall k | 0 <= k < |parts|
      ensures parts[k].kind == b'.Segs()[k].kind && parts[k].code == InsOf(SegmentCode(b', lay, k))
    {
      assert IsPartOf(b, k, parts[k], literals[k], targets[k]);
      SameCode(b, literals, k, IsLoop(b, k), Exit(literals[k].0, literals[k].1, targets[k]));
    }
  }

  /** A super block from its words to the buffer: what is emitted for each segment is the list the results about
      runs are about, with its own literal in it and the address its branch goes to. False where addLiteral
      aborts. */
  method CompileAndTranslate(b: Program, mem: MemState, buf: CodeBuffer, base: nat, index: nat, pool: LiteralPool,
                             lits: seq<seq<nat>>, ids: seq<nat>, encode: (Ins, nat) -> nat, unknown: nat,
                             ghost before: int -> Segment?)
    returns (ok: bool, order: seq<Segment>, literals: seq<(Reg, int)>, targets: seq<nat>, ghost parts: seq<Part>,
             ghost pools: seq<Pool>)
    requires IsSupported(b) && IsSegmented(b) && InOneBlock(mem, base, b.Len()) && IsJump(b, base, index)
    requires IsFaithful(mem, mem.Contents(), base, b.Len(), before, 0)
    requires forall t :: 0 <= t <= b.Len() ==> before(t) == null
    requires buf.Valid() && unknown < buf.Address() && AllInFront(mem.Contents(), buf.Address())
    requires pool.Valid() && pool.table != buf.words && |lits| == |ids| == |b.Segs()|
    requires buf.pos + LimitFrom(b, lits, 0) <= buf.words.Length
    modifies TableOf(mem, base), buf`pos, buf.words, pool, pool.table
    ensures buf.Valid() && pool.Valid()
    ensures |literals| <= |parts| == |b.Segs()| && AreAdded(b, lits, ids, parts, literals, pools)
    ensures pools[0] == old(pool.Value())
    ensures !ok ==>
      var k := |literals|;
      k < |b.Segs()| && IsSized(pools[k]) && LacksRoom(b, k, pools[k], lits[k], ids[k])
    ensures ok ==>
      var (b', a) := (WithLiterals(b, literals), old(buf.Address()));
      var lay := Layout(EntriesOf(parts, a), unknown, targets);
      && |order| == |targets| == |literals| == |parts| == |b'.Segs()| == |b.Segs()|
      && buf.words[..buf.pos] == old(buf.words[..buf.pos]) + EmittedAll(encode, parts, a, |parts|)
      && EmittedUpTo(order, parts, a, |order|)
      && IsCut(b') && IsLaidOut(b', lay) && AreLists(b', lay, parts)
  {
    hide IsSegmented, IsSupported, EmittedAll, EmittedUpTo, AreDestinations, AreEntered, IsLayout, KnowsLoops, Pieces;
    hide IsFaithful, IsMapOf, IsAddress, AllInFront, SaysWhere, NoneEmitted, AreTranslated, LimitFrom, AreLists;
    hide AreAdded, LacksRoom;
    ghost var a := buf.Address();
    ghost var dests, others;
    var leaps;
    order, leaps, dests, others := CompileBlock(b, mem, base, index, unknown, a, before);
    ghost var now := mem.Contents();
    forall k | 0 <= k < |order| ensures fresh(order[k]) {
      assert order[k] in order;
    }
    LoopsAreKnown(mem, now, b, base, index, order, leaps, dests);
    ok, literals, targets, parts, pools := TranslateAll(b, mem, buf, order, pool, lits, ids, leaps, encode, unknown,
                                                        dests, others);
    if ok {
      LeapsHaveTargets(b, base, leaps);
      AddressesOf(b, order, parts, a, dests, others, literals, targets, unknown);
      LayoutIsFound(mem, now, b, base, order, leaps, parts, a, dests, others, targets, unknown);
      PartsAreLists(b, order, parts, a, dests, others, literals, targets, unknown);
    }
  }

  lemma AddressesOf(b: Program, order: seq<Segment>, parts: seq<Part>, base: nat, dests: seq<Segment?>,
                    others: seq<nat>, literals: seq<(Reg, int)>, targets: seq<nat>, unknown: nat)
    requires IsCut(b) && |b.Segs()| == |order| == |parts| == |dests| == |others| == |literals| == |targets|
    requires AreTranslated(b, order, parts, base, |order|, dests, others, literals, targets, unknown)
    ensures forall k :: 0 <= k < |order| ==> IsAddress(order, parts, base, k, dests[k], others[k], targets[k], unknown)
  {
    hide IsAddress, IsPartOf, IsCut, Pieces;
  }
}
