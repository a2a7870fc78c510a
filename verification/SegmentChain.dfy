/** CompileCodeAt and delSegment on the objects themselves: the chain of segments made for a super
    block, the map that leads to it, and what deleting one of its segments takes away.
 */
module SegmentChain {
  import opened Ir
  import opened Bits
  import opened Segments
  import opened SegmentMap

  /** The words a super block of n words at base may occupy: in one block of memory, and not so
      near to the ends of the address space that a branch offset could wrap. */
  ghost predicate InOneBlock(mem: MemState, base: nat, n: nat) {
    && mem.Valid() && mem.BlockOf(base) < |mem.blocks|
    && base + 4 * n <= mem.blocks[mem.BlockOf(base)].address + mem.blocks[mem.BlockOf(base)].size
    && 0x2_0000 <= base && base + 4 * n + 0x2_0000 < WORD
  }

  ghost function TableOf(mem: MemState, base: nat): array<Segment?>
    requires mem.BlockOf(base) < |mem.blocks|
  {
    mem.blocks[mem.BlockOf(base)].table
  }

  function SlotOf(mem: MemState, base: nat): nat
    requires mem.BlockOf(base) < |mem.blocks|
  {
    mem.blocks[mem.BlockOf(base)].Slot(base)
  }

  /** The table entry of a word of the super block. */
  lemma WordSlot(mem: MemState, base: nat, n: nat, w: nat)
    requires InOneBlock(mem, base, n) && w < n
    ensures mem.BlockOf(base + 4 * w) == mem.BlockOf(base)
    ensures mem.blocks[mem.BlockOf(base)].Slot(base + 4 * w) == SlotOf(mem, base) + w < TableOf(mem, base).Length
    ensures mem.SegmentAt(base + 4 * w) == TableOf(mem, base)[SlotOf(mem, base) + w]
  {
    var (i, j) := (mem.BlockOf(base), mem.BlockOf(base + 4 * w));
    assert mem.blocks[i].Contains(base + 4 * w);
  }

  // ---------------------------------------------------------------------------------------
  // The chain

  /** Segment k of a fresh chain is the object for piece k, linked to its neighbours. */
  ghost predicate IsChain(chain: seq<Segment>, ps: seq<Piece>, base: nat)
    reads chain`code, chain`len, chain`kind, chain`continueNext, chain`callers, chain`dead
  {
    && |chain| == |ps|
    && (forall i, j :: 0 <= i < j < |chain| ==> chain[i] != chain[j])
    && (forall k {:trigger chain[k].code} {:trigger chain[k].len} {:trigger chain[k].kind}
          {:trigger chain[k].continueNext}
          {:trigger chain[k].callers} {:trigger chain[k].dead} :: 0 <= k < |chain| ==>
        && chain[k].code == base + 4 * ps[k].start && chain[k].len == ps[k].len && chain[k].kind == ps[k].kind
        && chain[k].continueNext == (if k + 1 < |chain| then chain[k + 1] else null)
        && chain[k].callers == (if k == 0 then [] else [chain[k - 1]])
        && !chain[k].dead)
  }

  /** No segment of the chain has been emitted yet. */
  ghost predicate NoneEmitted(chain: seq<Segment>)
    reads chain`entry
  {
    forall k {:trigger chain[k].entry} :: 0 <= k < |chain| ==> chain[k].entry == 0
  }

  function Last(chain: seq<Segment>): Segment? {
    if chain == [] then null else chain[|chain| - 1]
  }

  /** addToCallers, behind prevSeg->pContinueNext = newSeg. */
  method Link(prev: Segment?, seg: Segment)
    modifies prev, seg
    ensures prev != null ==> prev.continueNext == seg && seg.callers == old(seg.callers) + [prev]
    ensures prev == null ==> seg.callers == old(seg.callers)
    ensures prev != seg ==> unchanged(seg`continueNext)
    ensures prev != null && prev != seg ==> unchanged(prev`callers)
    ensures unchanged(seg`code, seg`len, seg`kind, seg`branchNext, seg`entry, seg`dead)
    ensures prev != null ==> unchanged(prev`code, prev`len, prev`kind, prev`branchNext, prev`entry, prev`dead)
  {
    if prev != null {
      prev.continueNext := seg;
      seg.callers := seg.callers + [prev];
    }
  }

  /** The table entries of the first covered words lead to the segments that hold them; the other
      entries are as they were. */
  ghost predicate IsMapped(table: seq<Segment?>, was: seq<Segment?>, slot: nat, chain: seq<Segment>, ps: seq<Piece>,
                           covered: nat)
  {
    && |table| == |was| && |chain| == |ps| && slot + covered <= |table|
    && (forall j {:trigger table[j]} :: 0 <= j < |table| && !(slot <= j < slot + covered) ==> table[j] == was[j])
    && (forall k {:trigger ps[k]} :: 0 <= k < |ps| ==> 0 <= ps[k].start && ps[k].start + ps[k].len <= covered)
    && (forall k, j {:trigger ps[k], table[j]} :: 0 <= k < |ps| && ps[k].start <= j - slot < ps[k].start + ps[k].len ==>
        table[j] == chain[k])
  }

  /** Make the segment for p and link it behind the last one. */
  method ExtendChain(base: nat, prev: Segment?, p: Piece, ghost chain: seq<Segment>, ghost ps: seq<Piece>)
    returns (seg: Segment)
    requires 0 <= p.start && IsChain(chain, ps, base) && prev == Last(chain)
    modifies prev
    ensures fresh(seg) && seg.branchNext == null && IsChain(chain + [seg], ps + [p], base)
    ensures seg.entry == 0 && (prev != null ==> unchanged(prev`branchNext, prev`entry))
  {
    seg := new Segment();
    seg.code := base + 4 * p.start;
    seg.len := p.len;
    seg.kind := p.kind;
    Link(prev, seg);
  }

  lemma MapExtended(table: seq<Segment?>, now: seq<Segment?>, was: seq<Segment?>, slot: nat,
                    chain: seq<Segment>, ps: seq<Piece>, seg: Segment, p: Piece)
    requires 0 <= p.start && IsMapped(table, was, slot, chain, ps, p.start)
    requires |now| == |table| && slot + p.start + p.len <= |now|
    requires forall j :: 0 <= j < |now| ==>
      now[j] == if slot + p.start <= j < slot + p.start + p.len then seg else table[j]
    ensures IsMapped(now, was, slot, chain + [seg], ps + [p], p.start + p.len)
  {
    var (chain', ps') := (chain + [seg], ps + [p]);
    forall k, j {:trigger ps'[k], now[j]} | 0 <= k < |ps'| && ps'[k].start <= j - slot < ps'[k].start + ps'[k].len
      ensures slot <= j < slot + p.start + p.len && now[j] == chain'[k]
    {
      if k < |ps| {
        assert ps'[k] == ps[k] && chain'[k] == chain[k];
        assert table[j] == chain[k];
      }
    }
  }

  /** Put one more segment at the end of the chain and into the map. */
  method AddSegment(mem: MemState, base: nat, prev: Segment?, p: Piece,
                    ghost chain: seq<Segment>, ghost ps: seq<Piece>, ghost was: seq<Segment?>) returns (seg: Segment)
    requires mem.Valid() && mem.BlockOf(base) < |mem.blocks|
    requires 0 <= p.start && mem.BlockOf(base + 4 * p.start) == mem.BlockOf(base)
    requires mem.blocks[mem.BlockOf(base)].Slot(base + 4 * p.start) == SlotOf(mem, base) + p.start
    requires SlotOf(mem, base) + p.start + p.len <= TableOf(mem, base).Length
    requires IsChain(chain, ps, base) && prev == Last(chain)
    requires IsMapped(TableOf(mem, base)[..], was, SlotOf(mem, base), chain, ps, p.start)
    modifies prev, TableOf(mem, base)
    ensures fresh(seg) && seg.branchNext == null && IsChain(chain + [seg], ps + [p], base)
    ensures IsMapped(TableOf(mem, base)[..], was, SlotOf(mem, base), chain + [seg], ps + [p], p.start + p.len)
    ensures seg.entry == 0 && (prev != null ==> unchanged(prev`branchNext, prev`entry))
  {
    hide IsChain, IsMapped;
    seg := ExtendChain(base, prev, p, chain, ps);
    var ok := mem.SetMemState(base + 4 * p.start, p.len, seg);
    MapExtended(old(TableOf(mem, base)[..]), TableOf(mem, base)[..], was, SlotOf(mem, base), chain, ps, seg, p);
  }

  /** No segment branches to a later one: at the time its branch is looked up, later ones do not
      exist. */
  ghost predicate NoForwardBranch(chain: seq<Segment>)
    reads chain`branchNext
  {
    forall k, j {:trigger chain[k].branchNext, chain[j]} :: 0 <= k < j < |chain| ==> chain[k].branchNext != chain[j]
  }

  /** What segment k records for its branch: nothing, one of the segments up to itself, or what
      the map held before at that word. */
  ghost predicate IsRecorded(before: int -> Segment?, chain: seq<Segment>, ps: seq<Piece>, k: nat)
    requires k < |chain| == |ps|
    reads chain`branchNext
  {
    match ps[k].look
    case None => chain[k].branchNext == null
    case Some(t) =>
      && (forall j {:trigger ps[j]} :: 0 <= j <= k && ps[j].start <= t < ps[j].start + ps[j].len ==>
          chain[k].branchNext == chain[j])
      && (!(0 <= t < ps[k].start + ps[k].len) ==> chain[k].branchNext == before(t))
  }

  ghost predicate AllRecorded(before: int -> Segment?, chain: seq<Segment>, ps: seq<Piece>)
    reads chain`branchNext
  {
    && |chain| == |ps| && NoForwardBranch(chain)
    && (forall k :: 0 <= k < |chain| ==> IsRecorded(before, chain, ps, k))
  }

  /** The tables differ at the covered words of the super block at most. */
  ghost predicate SameOutside(mem: MemState, now: seq<seq<Segment?>>, was: seq<seq<Segment?>>, base: nat, covered: nat)
    requires mem.BlockOf(base) < |mem.blocks|
  {
    && |now| == |was| == |mem.blocks|
    && forall i :: 0 <= i < |now| ==>
        && |now[i]| == |was[i]|
        && forall j :: 0 <= j < |now[i]| ==>
            (i == mem.BlockOf(base) && SlotOf(mem, base) <= j < SlotOf(mem, base) + covered) || now[i][j] == was[i][j]
  }

  /** The map is unchanged at words outside the covered ones. */
  lemma OutsideIsUnchanged(mem: MemState, now: seq<seq<Segment?>>, was: seq<seq<Segment?>>,
                           base: nat, n: nat, covered: nat, t: int)
    requires InOneBlock(mem, base, n) && covered <= n && !(0 <= t < covered)
    requires SameOutside(mem, now, was, base, covered)
    ensures mem.Look(now, base + 4 * t) == mem.Look(was, base + 4 * t)
  {
    var a := base + 4 * t;
    var i := mem.BlockOf(a);
    if i == mem.BlockOf(base) {
      assert mem.blocks[i].Slot(a) == SlotOf(mem, base) + t;
    }
  }

  /** Put a segment that ends in a branch out of it at the end of the chain and look up where it
      goes. */
  method AddBranching(mem: MemState, base: nat, n: nat, prev: Segment?, p: Piece,
                      ghost chain: seq<Segment>, ghost ps: seq<Piece>, ghost was: seq<Segment?>) returns (seg: Segment)
    requires InOneBlock(mem, base, n) && 0 <= p.start && 0 < p.len && p.start + p.len <= n
    requires p.look.Some? && -0x8000 <= p.look.value < n + 0x8000
    requires IsChain(chain, ps, base) && prev == Last(chain)
    requires IsMapped(TableOf(mem, base)[..], was, SlotOf(mem, base), chain, ps, p.start)
    modifies prev, TableOf(mem, base)
    ensures fresh(seg) && IsChain(chain + [seg], ps + [p], base)
    ensures IsMapped(TableOf(mem, base)[..], was, SlotOf(mem, base), chain + [seg], ps + [p], p.start + p.len)
    ensures seg.entry == 0 && (prev != null ==> unchanged(prev`branchNext, prev`entry))
    ensures seg.branchNext == mem.SegmentAt(base + 4 * p.look.value)
  {
    hide IsMapped, IsChain;
    WordSlot(mem, base, n, p.start);
    seg := AddSegment(mem, base, prev, p, chain, ps, was);
    var external := mem.GetSegmentAt(base + 4 * p.look.value);
    if external != null {
      seg.branchNext := external;
    }
  }

  /** before tells what the map holds at the words that are not covered yet. */
  ghost predicate IsFaithful(mem: MemState, c: seq<seq<Segment?>>, base: nat, n: nat, before: int -> Segment?,
                             covered: nat)
    requires |c| == |mem.blocks|
  {
    forall t :: -0x8000 <= t < n + 0x8000 && !(0 <= t < covered) ==> mem.Look(c, base + 4 * t) == before(t)
  }

  lemma StaysFaithful(mem: MemState, now: seq<seq<Segment?>>, was: seq<seq<Segment?>>,
                      base: nat, n: nat, before: int -> Segment?, a: nat, b: nat)
    requires InOneBlock(mem, base, n) && a <= b <= n && SameOutside(mem, now, was, base, b)
    requires IsFaithful(mem, was, base, n, before, a)
    ensures IsFaithful(mem, now, base, n, before, b)
  {
    forall t | -0x8000 <= t < n + 0x8000 && !(0 <= t < b) ensures mem.Look(now, base + 4 * t) == before(t) {
      OutsideIsUnchanged(mem, now, was, base, n, b, t);
    }
  }

  /** The state of the work when the first covered words have been cut into ps. */
  ghost predicate IsBuilt(mem: MemState, base: nat, n: nat, before: int -> Segment?, was: seq<Segment?>,
                          chain: seq<Segment>, ps: seq<Piece>, covered: nat)
    requires InOneBlock(mem, base, n)
    reads chain, mem.Tables()
  {
    && covered <= n && IsChain(chain, ps, base) && NoneEmitted(chain) && AllRecorded(before, chain, ps)
    && IsMapped(TableOf(mem, base)[..], was, SlotOf(mem, base), chain, ps, covered)
    && IsFaithful(mem, mem.Contents(), base, n, before, covered)
  }

  lemma RecordOne(mem: MemState, base: nat, n: nat, before: int -> Segment?, was: seq<Segment?>,
                  chain: seq<Segment>, ps: seq<Piece>, covered: nat, t: int)
    requires InOneBlock(mem, base, n) && covered <= n && -0x8000 <= t < n + 0x8000
    requires IsMapped(TableOf(mem, base)[..], was, SlotOf(mem, base), chain, ps, covered)
    requires IsFaithful(mem, mem.Contents(), base, n, before, covered)
    ensures forall j {:trigger ps[j]} :: 0 <= j < |ps| && ps[j].start <= t < ps[j].start + ps[j].len ==>
      mem.SegmentAt(base + 4 * t) == chain[j]
    ensures !(0 <= t < covered) ==> mem.SegmentAt(base + 4 * t) == before(t)
  {
    forall j {:trigger ps[j]} | 0 <= j < |ps| && ps[j].start <= t < ps[j].start + ps[j].len
      ensures mem.SegmentAt(base + 4 * t) == chain[j]
    {
      WordSlot(mem, base, n, t);
      assert TableOf(mem, base)[..][SlotOf(mem, base) + t] == chain[j];
    }
  }

  /** The tables before and after a segment is added. */
  lemma AddedOutside(mem: MemState, before: seq<seq<Segment?>>, base: nat, was: seq<Segment?>,
                     chain1: seq<Segment>, ps1: seq<Piece>, a: nat, chain2: seq<Segment>, ps2: seq<Piece>, b: nat)
    requires mem.BlockOf(base) < |mem.blocks| == |before| && a <= b
    requires IsMapped(before[mem.BlockOf(base)], was, SlotOf(mem, base), chain1, ps1, a)
    requires IsMapped(TableOf(mem, base)[..], was, SlotOf(mem, base), chain2, ps2, b)
    requires forall i :: 0 <= i < |before| && i != mem.BlockOf(base) ==> mem.Contents()[i] == before[i]
    ensures SameOutside(mem, mem.Contents(), before, base, b)
  {
    hide IsMapped;
    MappedTwice(before[mem.BlockOf(base)], TableOf(mem, base)[..], was, SlotOf(mem, base), chain1, ps1, a, chain2, ps2,
                b);
    DiffersInOneTable(mem, mem.Contents(), before, base, b);
  }

  /** Add the segment for p to the chain and the map, and record where its branch goes. */
  method AddPiece(mem: MemState, base: nat, n: nat, prev: Segment?, p: Piece, ghost before: int -> Segment?,
                  ghost chain: seq<Segment>, ghost ps: seq<Piece>, ghost was: seq<Segment?>) returns (seg: Segment)
    requires InOneBlock(mem, base, n) && 0 <= p.start < n && p.start + p.len <= n
    requires p.look.Some? ==> 0 < p.len && -0x8000 <= p.look.value < n + 0x8000
    requires IsBuilt(mem, base, n, before, was, chain, ps, p.start) && prev == Last(chain)
    modifies prev, TableOf(mem, base)
    ensures fresh(seg) && IsBuilt(mem, base, n, before, was, chain + [seg], ps + [p], p.start + p.len)
  {
    hide IsMapped, IsChain, IsFaithful, SameOutside, NoForwardBranch;
    ghost var contents := mem.Contents();
    seg := AddEither(mem, base, n, prev, p, chain, ps, was);
    AddedOutside(mem, contents, base, was, chain, ps, p.start, chain + [seg], ps + [p], p.start + p.len);
    StaysFaithful(mem, mem.Contents(), contents, base, n, before, p.start, p.start + p.len);
    if p.look.Some? {
      RecordOne(mem, base, n, before, was, chain + [seg], ps + [p], p.start + p.len, p.look.value);
    }
    assert forall k :: 0 <= k < |chain| ==> chain[k].branchNext == old(chain[k].branchNext) != seg;
    assert forall k :: 0 <= k < |chain| ==> chain[k].entry == old(chain[k].entry);
    RecordedExtended(before, chain, ps, seg, p);
  }

  /** Make the segment for p, with or without a branch out of it. */
  method AddEither(mem: MemState, base: nat, n: nat, prev: Segment?, p: Piece,
                   ghost chain: seq<Segment>, ghost ps: seq<Piece>, ghost was: seq<Segment?>) returns (seg: Segment)
    requires InOneBlock(mem, base, n) && 0 <= p.start < n && p.start + p.len <= n
    requires p.look.Some? ==> 0 < p.len && -0x8000 <= p.look.value < n + 0x8000
    requires IsChain(chain, ps, base) && prev == Last(chain)
    requires IsMapped(TableOf(mem, base)[..], was, SlotOf(mem, base), chain, ps, p.start)
    modifies prev, TableOf(mem, base)
    ensures fresh(seg) && IsChain(chain + [seg], ps + [p], base)
    ensures IsMapped(TableOf(mem, base)[..], was, SlotOf(mem, base), chain + [seg], ps + [p], p.start + p.len)
    ensures seg.entry == 0 && (prev != null ==> unchanged(prev`branchNext, prev`entry))
    ensures seg.branchNext == match p.look case None => null case Some(t) => mem.SegmentAt(base + 4 * t)
  {
    hide IsMapped, IsChain;
    WordSlot(mem, base, n, p.start);
    if p.look.None? {
      seg := AddSegment(mem, base, prev, p, chain, ps, was);
    } else {
      seg := AddBranching(mem, base, n, prev, p, chain, ps, was);
    }
  }

  lemma RecordedExtended(before: int -> Segment?, chain: seq<Segment>, ps: seq<Piece>, seg: Segment, p: Piece)
    requires AllRecorded(before, chain, ps) && forall k :: 0 <= k < |chain| ==> chain[k].branchNext != seg
    requires IsRecorded(before, chain + [seg], ps + [p], |chain|)
    ensures AllRecorded(before, chain + [seg], ps + [p])
  {
    var (chain', ps') := (chain + [seg], ps + [p]);
    forall k | 0 <= k < |chain'| ensures IsRecorded(before, chain', ps', k) {
      if k < |chain| {
        assert IsRecorded(before, chain, ps, k);
        assert forall j :: 0 <= j <= k ==> ps'[j] == ps[j] && chain'[j] == chain[j];
      }
    }
  }

  lemma MappedTwice(t1: seq<Segment?>, t2: seq<Segment?>, was: seq<Segment?>, slot: nat,
                    chain1: seq<Segment>, ps1: seq<Piece>, a: nat, chain2: seq<Segment>, ps2: seq<Piece>, b: nat)
    requires IsMapped(t1, was, slot, chain1, ps1, a) && IsMapped(t2, was, slot, chain2, ps2, b) && a <= b
    ensures |t1| == |t2| && forall j :: 0 <= j < |t1| && !(slot <= j < slot + b) ==> t1[j] == t2[j]
  {
  }

  lemma DiffersInOneTable(mem: MemState, now: seq<seq<Segment?>>, was: seq<seq<Segment?>>, base: nat, covered: nat)
    requires mem.BlockOf(base) < |mem.blocks| && |now| == |was| == |mem.blocks|
    requires forall i :: 0 <= i < |now| && i != mem.BlockOf(base) ==> now[i] == was[i]
    requires
      var i, slot := mem.BlockOf(base), SlotOf(mem, base);
      |now[i]| == |was[i]| && forall j :: 0 <= j < |now[i]| && !(slot <= j < slot + covered) ==> now[i][j] == was[i][j]
    ensures SameOutside(mem, now, was, base, covered)
  {
  }

  // ---------------------------------------------------------------------------------------
  // CompileCodeAt

  /** Make the segments for the control flow at word x. */
  method CutAt(mem: MemState, base: nat, n: nat, w: MipsWord, x: nat, start: nat, prev: Segment?,
               ghost before: int -> Segment?, ghost chain: seq<Segment>, ghost ps: seq<Piece>, ghost was: seq<Segment?>)
    returns (last: Segment, ghost more: seq<Segment>)
    requires InOneBlock(mem, base, n) && start <= x < n < 0x4000_0000 && (w.Jump? || w.Branch?)
    requires w.Branch? ==> -0x8000 <= w.offset < 0x8000 && (x + w.offset >= 0 || (x + w.offset == -1 && start == 0))
    requires IsBuilt(mem, base, n, before, was, chain, ps, start) && prev == Last(chain)
    modifies prev, TableOf(mem, base)
    ensures fresh(last) && forall s :: s in more ==> fresh(s)
    ensures IsBuilt(mem, base, n, before, was, chain + more, ps + PiecesAt(w, x, start), x + 1)
    ensures more != [] && last == more[|more| - 1]
  {
    hide IsBuilt;
    if w.Branch? && IsInternal(x, w.offset, start) {
      var p := Piece(start, x + w.offset - start + 1, if start == 0 then Start else Sandwich, None);
      var q := Piece(x + 1 + w.offset, -w.offset, Sandwich, None);
      var first := AddPiece(mem, base, n, prev, p, before, chain, ps, was);
      last := AddPiece(mem, base, n, first, q, before, chain + [first], ps + [p], was);
      more := [first, last];
      assert chain + [first] + [last] == chain + more && ps + [p] + [q] == ps + [p, q];
    } else if w.Branch? {
      var p := Piece(start, x - start + 1, if start == 0 then Start else Sandwich, Some(start + w.offset));
      last := AddPiece(mem, base, n, prev, p, before, chain, ps, was);
      more := [last];
    } else {
      var p := Piece(start, x - start + 1, if start == 0 then Start else End, None);
      last := AddPiece(mem, base, n, prev, p, before, chain, ps, was);
      more := [last];
    }
  }

  /** The loop of CompileCodeAt that creates the segments of a super block. */
  method MakeSegments(mem: MemState, base: nat, code: seq<MipsWord>, n: nat, ghost before: int -> Segment?)
    returns (ghost chain: seq<Segment>)
    requires InOneBlock(mem, base, n) && IsBlock(code, n) && NoFarWrap(code, n)
    requires IsFaithful(mem, mem.Contents(), base, n, before, 0)
    modifies TableOf(mem, base)
    ensures IsBuilt(mem, base, n, before, old(TableOf(mem, base)[..]), chain, CutFrom(code, n, 0, 0), n)
    ensures forall s :: s in chain ==> fresh(s)
  {
    hide IsBuilt, PiecesAt, CutFrom, NoFarWrap;
    var start, x, done := 0, 0, false;
    var prev: Segment? := null;
    chain := [];
    ghost var ps: seq<Piece> := [];
    ghost var was := TableOf(mem, base)[..];
    NothingBuilt(mem, base, n, before);
    while x < n && !done
      invariant start <= x <= n && (!done ==> x < n) && (done ==> start == n)
      invariant start > 0 && !done ==> !code[start - 1].Plain?
      invariant prev == Last(chain) && (prev != null ==> fresh(prev)) && forall s :: s in chain ==> fresh(s)
      invariant IsBuilt(mem, base, n, before, was, chain, ps, start)
      invariant ps + (if done then [] else CutFrom(code, n, x, start)) == CutFrom(code, n, 0, 0)
    {
      CutStep(code, n, x, start);
      BranchWithin(code, n, x, start);
      if !code[x].Plain? {
        ghost var more;
        prev, more := CutAt(mem, base, n, code[x], x, start, prev, before, chain, ps, was);
        Associate(ps, PiecesAt(code[x], x, start), CutFrom(code, n, x + 1, x + 1));
        chain, ps := chain + more, ps + PiecesAt(code[x], x, start);
        start := x + 1;
        done := code[x] == Jump(false);
        NothingLeft(code, n);
      }
      x := x + 1;
    }
    assert ps + [] == ps;
  }

  /** A branch that wraps is the first one and leads to the first word. */
  lemma BranchWithin(code: seq<MipsWord>, n: nat, x: nat, start: nat)
    requires x < n <= |code| && start <= x && NoFarWrap(code, n) && (start > 0 ==> !code[start - 1].Plain?)
    ensures code[x].Branch? ==> x + code[x].offset >= 0 || (x + code[x].offset == -1 && start == 0)
  {
    assert start > 0 ==> !AllPlain(code, 0, x);
  }

  lemma NothingBuilt(mem: MemState, base: nat, n: nat, before: int -> Segment?)
    requires InOneBlock(mem, base, n) && IsFaithful(mem, mem.Contents(), base, n, before, 0)
    ensures IsBuilt(mem, base, n, before, TableOf(mem, base)[..], [], [], 0)
  {
  }

  /** The scan for the end of the super block. */
  method ScanBlock(code: seq<MipsWord>) returns (n: nat)
    requires exists i :: 0 <= i < |code| && Stops(code[i])
    ensures n == BlockLength(code)
  {
    n := 0;
    ghost var stop :| 0 <= stop < |code| && Stops(code[stop]);
    assert code[0..] == code;
    while true
      invariant n <= stop && forall i :: 0 <= i < n ==> !Stops(code[i])
      invariant BlockLength(code) == if BlockLength(code[n..]) == 0 then 0 else n + BlockLength(code[n..])
      decreases |code| - n
    {
      assert code[n..][1..] == code[n + 1..];
      if code[n].Invalid? {
        return 0;
      }
      n := n + 1;
      if code[n - 1].Jump? && !code[n - 1].link {
        return;
      }
    }
  }

  /** Visit the segments of a chain from one on in the order of continueNext, as the translation loop
      does. */
  method TranslateChain(first: Segment, ghost chain: seq<Segment>, ghost ps: seq<Piece>, base: nat, ghost e: nat)
    returns (order: seq<Segment>)
    requires IsChain(chain, ps, base) && e < |chain| && first == chain[e]
    ensures order == chain[e..]
  {
    order := [];
    var seg := first;
    ghost var k: nat := e;
    while seg.continueNext != null
      invariant e <= k < |chain| && seg == chain[k] && order == chain[e..k]
      decreases |chain| - k
    {
      order := order + [seg];
      seg := seg.continueNext;
      k := k + 1;
    }
    order := order + [seg];
  }

  /** The segment that tables with contents c give for word w of the super block. */
  ghost function SegmentOfWord(mem: MemState, c: seq<seq<Segment?>>, base: nat, w: int): Segment?
    requires |c| == |mem.blocks|
  {
    mem.Look(c, base + 4 * w)
  }

  /** Each word leads to the segment that holds it. */
  ghost predicate WordsLeadToSegments(mem: MemState, c: seq<seq<Segment?>>, base: nat, chain: seq<Segment>,
                                      ps: seq<Piece>)
    requires |chain| == |ps| && |c| == |mem.blocks|
  {
    forall k, w {:trigger ps[k], SegmentOfWord(mem, c, base, w)} ::
      0 <= k < |ps| && ps[k].start <= w < ps[k].start + ps[k].len ==>
      SegmentOfWord(mem, c, base, w) == chain[k]
  }

  lemma MappedWords(mem: MemState, base: nat, n: nat, was: seq<Segment?>, chain: seq<Segment>, ps: seq<Piece>)
    requires InOneBlock(mem, base, n) && IsMapped(TableOf(mem, base)[..], was, SlotOf(mem, base), chain, ps, n)
    ensures WordsLeadToSegments(mem, mem.Contents(), base, chain, ps)
  {
    forall k, w {:trigger ps[k], SegmentOfWord(mem, mem.Contents(), base, w)}
      | 0 <= k < |ps| && ps[k].start <= w < ps[k].start + ps[k].len
      ensures SegmentOfWord(mem, mem.Contents(), base, w) == chain[k]
    {
      WordSlot(mem, base, n, w);
      assert TableOf(mem, base)[..][SlotOf(mem, base) + w] == chain[k];
    }
  }

  lemma FirstPiece(ps: seq<Piece>, n: nat)
    requires Covers(ps, 0, n) && n > 0
    ensures ps != [] && ps[0].start == 0 && ps[0].len > 0
  {
  }

  /** What CompileCodeAt leaves: the segments of the super block chained in address order, a map
      that leads from each word to its segment and is unchanged elsewhere (before is the map on
      entry), and branches recorded as looked up at the time. */
  ghost predicate IsCompiled(mem: MemState, base: nat, code: seq<MipsWord>, chain: seq<Segment>,
                             before: int -> Segment?)
    requires InOneBlock(mem, base, BlockLength(code))
    reads chain, mem.Tables()
  {
    && IsChain(chain, Cut(code), base) && chain != []
    && WordsLeadToSegments(mem, mem.Contents(), base, chain, Cut(code))
    && IsFaithful(mem, mem.Contents(), base, BlockLength(code), before, BlockLength(code))
    && AllRecorded(before, chain, Cut(code))
  }

  /** The segments from the first one on that is not empty. */
  function Reached(code: seq<MipsWord>, chain: seq<Segment>): (order: seq<Segment>)
    requires |chain| == |Cut(code)|
    ensures |order| == |Pieces(code)|
  {
    chain[|Cut(code)| - |Pieces(code)|..]
  }

  /** CompileCodeAt for a stretch of the map without segments. The segments that are not empty are
      translated once each in address order, none of them having been emitted before, and only
      words of the super block lead to them. */
  method CompileCodeAt(mem: MemState, base: nat, code: seq<MipsWord>, ghost before: int -> Segment?)
    returns (first: Segment?, order: seq<Segment>, ghost chain: seq<Segment>)
    requires exists i :: 0 <= i < |code| && Stops(code[i])
    requires HasShortOffsets(code) && BlockLength(code) < 0x4000_0000 && NoFarWrap(code, BlockLength(code))
    requires InOneBlock(mem, base, BlockLength(code))
    requires IsFaithful(mem, mem.Contents(), base, BlockLength(code), before, 0)
    requires forall t :: 0 <= t <= BlockLength(code) ==> before(t) == null
    modifies TableOf(mem, base)
    ensures BlockLength(code) == 0 ==> first == null && order == [] && unchanged(TableOf(mem, base))
    ensures BlockLength(code) > 0 ==> IsReady(mem, base, code, chain, before, order) && first == order[0]
    ensures BlockLength(code) > 0 ==> SameOutside(mem, mem.Contents(), old(mem.Contents()), base, BlockLength(code))
    ensures forall s :: s in chain ==> fresh(s)
  {
    hide IsReady, NoFarWrap, SameOutside;
    ghost var contents := mem.Contents();
    var n := ScanBlock(code);
    assert mem.Contents() == contents;
    order, chain := [], [];
    if n == 0 {
      assert mem.Look(mem.Contents(), base + 4 * 0) == before(0);
      first := mem.GetSegmentAt(base);
    } else {
      first, order, chain := CompileWords(mem, base, code, n, before);
    }
  }

  /** The work of CompileCodeAt behind the scan. */
  method CompileWords(mem: MemState, base: nat, code: seq<MipsWord>, n: nat, ghost before: int -> Segment?)
    returns (first: Segment?, order: seq<Segment>, ghost chain: seq<Segment>)
    requires n == BlockLength(code) && HasShortOffsets(code) && 0 < n < 0x4000_0000 && NoFarWrap(code, n)
    requires InOneBlock(mem, base, n) && IsFaithful(mem, mem.Contents(), base, n, before, 0)
    modifies TableOf(mem, base)
    ensures IsReady(mem, base, code, chain, before, order) && order != [] && first == order[0]
    ensures SameOutside(mem, mem.Contents(), old(mem.Contents()), base, n)
    ensures forall s :: s in chain ==> fresh(s)
  {
    hide IsMapped, WordsLeadToSegments, CutFrom, NoFarWrap, Pieces, SameOutside, IsFaithful;
    ghost var was, old' := TableOf(mem, base)[..], mem.Contents();
    chain := MakeSegments(mem, base, code, n, before);
    ghost var contents := mem.Contents();
    BuiltIsCompiled(mem, base, code, before, was, chain);
    OnlyOneTable(mem, base, n, was, old', chain, Cut(code));
    forall t | !(0 <= t < n) ensures SegmentOfWord(mem, contents, base, t) !in chain {
      OutsideIsUnchanged(mem, contents, old', base, n, n, t);
      assert forall s :: s in chain ==> fresh(s);
    }
    first := mem.GetSegmentAt(base);
    order := TranslateChain(first, chain, Cut(code), base, |Cut(code)| - |Pieces(code)|);
    assert mem.Contents() == contents;
  }

  /** The segments of a super block are compiled, none has been emitted, and order holds those to
      translate. */
  ghost predicate IsReady(mem: MemState, base: nat, code: seq<MipsWord>, chain: seq<Segment>, before: int -> Segment?,
                          order: seq<Segment>)
    requires InOneBlock(mem, base, BlockLength(code))
    reads chain, mem.Tables()
  {
    && IsCompiled(mem, base, code, chain, before) && NoneEmitted(chain)
    && |Pieces(code)| > 0 && order == Reached(code, chain)
    && OnlyWordsLead(mem, mem.Contents(), base, BlockLength(code), chain)
  }

  /** No word outside the super block leads to one of the segments. */
  ghost predicate OnlyWordsLead(mem: MemState, c: seq<seq<Segment?>>, base: nat, n: nat, chain: seq<Segment>)
    requires |c| == |mem.blocks|
  {
    forall t {:trigger SegmentOfWord(mem, c, base, t)} :: !(0 <= t < n) ==> SegmentOfWord(mem, c, base, t) !in chain
  }

  lemma OnlyOneTable(mem: MemState, base: nat, n: nat, was: seq<Segment?>, before: seq<seq<Segment?>>,
                     chain: seq<Segment>, ps: seq<Piece>)
    requires InOneBlock(mem, base, n) && |before| == |mem.blocks| && was == before[mem.BlockOf(base)]
    requires IsMapped(TableOf(mem, base)[..], was, SlotOf(mem, base), chain, ps, n)
    requires forall i :: 0 <= i < |before| && i != mem.BlockOf(base) ==> mem.Contents()[i] == before[i]
    ensures SameOutside(mem, mem.Contents(), before, base, n)
  {
    DiffersInOneTable(mem, mem.Contents(), before, base, n);
  }

  lemma BuiltIsCompiled(mem: MemState, base: nat, code: seq<MipsWord>, before: int -> Segment?, was: seq<Segment?>,
                        chain: seq<Segment>)
    requires HasShortOffsets(code) && 0 < BlockLength(code) < 0x4000_0000 && NoFarWrap(code, BlockLength(code))
    requires InOneBlock(mem, base, BlockLength(code))
    requires IsBuilt(mem, base, BlockLength(code), before, was, chain, Cut(code), BlockLength(code))
    ensures IsChain(chain, Cut(code), base) && |chain| == |Cut(code)| >= |Pieces(code)| > 0
    ensures mem.SegmentAt(base) == chain[|Cut(code)| - |Pieces(code)|]
    ensures IsCompiled(mem, base, code, chain, before) && NoneEmitted(chain)
  {
    hide IsChain, IsMapped, NoForwardBranch, IsRecorded, CutFrom;
    var (ps, n) := (Cut(code), BlockLength(code));
    MappedWords(mem, base, n, was, chain, ps);
    PiecesArePartition(code);
    FirstPiece(Pieces(code), n);
    var e := |ps| - |Pieces(code)|;
    assert ps[e] == Pieces(code)[0];
    assert ps[e].start <= 0 && SegmentOfWord(mem, mem.Contents(), base, 0) == chain[e];
  }
}
