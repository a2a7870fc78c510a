/** delSegment: it takes a segment and the segments that continue into it out of the map, and on
    the way reads a segment it has already freed.
 */
module SegmentDeletion {
  import opened Segments
  import opened SegmentMap
  import opened SegmentChain

  /** The first k + 1 segments are alive and follow one another; each has its predecessor as its
      only caller. */
  ghost predicate IsLinkedUpTo(chain: seq<Segment>, ps: seq<Piece>, base: nat, k: nat)
    requires k < |chain|
    reads chain`code, chain`len, chain`callers, chain`dead, chain`continueNext
  {
    && |chain| == |ps|
    && (forall i, j :: 0 <= i < j < |chain| ==> chain[i] != chain[j])
    && (forall i {:trigger chain[i].code} {:trigger chain[i].len} {:trigger chain[i].callers}
          {:trigger chain[i].dead} ::
        0 <= i <= k ==>
        && chain[i].code == base + 4 * ps[i].start && chain[i].len == ps[i].len && !chain[i].dead
        && chain[i].callers == (if i == 0 then [] else [chain[i - 1]]))
    && (forall i {:trigger chain[i].continueNext} :: 0 <= i < k ==> chain[i].continueNext == chain[i + 1])
  }

  /** How far down deleting segment k goes: to the first segment whose predecessor branches to it
      instead of only continuing into it. */
  ghost function Lowest(chain: seq<Segment>, k: nat): (i: nat)
    requires k < |chain|
    reads chain`branchNext
    ensures i <= k
    decreases k
  {
    if k == 0 || chain[k - 1].branchNext == chain[k] then k else Lowest(chain, k - 1)
  }

  function Upto(chain: seq<Segment>, k: nat): set<Segment>
    requires k < |chain|
  {
    set i | 0 <= i <= k :: chain[i]
  }

  /** The words up to the end of segment k. */
  function EndOf(ps: seq<Piece>, k: nat): int
    requires k < |ps|
  {
    ps[k].start + ps[k].len
  }

  /** Segment k lies in a super block of n words, begins where the one in front of it ends, and is not empty
      unless it is the first. */
  predicate IsPlaced(ps: seq<Piece>, n: nat, k: nat)
    requires k < |ps|
  {
    && 0 <= ps[k].start && EndOf(ps, k) <= n
    && if k == 0 then ps[0].start == 0 else ps[k].len > 0 && ps[k].start == EndOf(ps, k - 1)
  }

  /** The segments of a super block of n words follow one another. */
  ghost predicate IsContiguous(ps: seq<Piece>, n: nat) {
    forall k :: 0 <= k < |ps| ==> IsPlaced(ps, n, k)
  }

  lemma ContiguousBounds(ps: seq<Piece>, n: nat, k: nat)
    requires IsContiguous(ps, n) && k < |ps|
    ensures 0 <= ps[k].start <= EndOf(ps, k) <= n
    ensures if k == 0 then ps[k].start == 0 else ps[k].len > 0 && ps[k].start == EndOf(ps, k - 1)
  {
    assert IsPlaced(ps, n, k);
  }

  /** The segments from the e-th on cover the block; one in front of them is empty. */
  lemma CoveredIsPlaced(ps: seq<Piece>, n: nat, e: nat, k: nat)
    requires e <= 1 && e <= |ps| && Covers(ps[e..], 0, n) && (e == 1 ==> ps[0].start == ps[0].len == 0) && k < |ps|
    ensures IsPlaced(ps, n, k)
  {
    hide Covers;
    if k >= e {
      CoversBounds(ps[e..], 0, n, k - e);
      if k > e {
        CoversBounds(ps[e..], 0, n, k - e - 1);
      }
    }
  }

  lemma CoveredAreContiguous(ps: seq<Piece>, n: nat, e: nat)
    requires e <= 1 && e <= |ps| && Covers(ps[e..], 0, n) && (e == 1 ==> ps[0].start == ps[0].len == 0)
    ensures IsContiguous(ps, n)
  {
    hide Covers, IsPlaced;
    forall k | 0 <= k < |ps| ensures IsPlaced(ps, n, k) {
      CoveredIsPlaced(ps, n, e, k);
    }
  }

  lemma CutIsContiguous(code: seq<MipsWord>)
    requires HasShortOffsets(code) && 0 < BlockLength(code) < 0x4000_0000 && NoFarWrap(code, BlockLength(code))
    ensures IsContiguous(Cut(code), BlockLength(code))
  {
    hide *;
    PiecesArePartition(code);
    EmptyIsFirst(code);
    var ps := Cut(code);
    assert ps[0..] == ps;
    CoveredAreContiguous(ps, BlockLength(code), if Pieces(code) == ps then 0 else 1);
  }

  /** A segment that is left out because it is empty is the first one, at word 0. */
  lemma EmptyIsFirst(code: seq<MipsWord>)
    requires HasShortOffsets(code) && 0 < BlockLength(code) < 0x4000_0000 && NoFarWrap(code, BlockLength(code))
    ensures var (ps, qs) := (Cut(code), Pieces(code));
      || qs == ps
      || (ps != [] && qs == ps[1..] && ps[0].start == ps[0].len == 0)
    ensures Cut(code) != [] && Cut(code)[0].start == 0
  {
    hide CutFrom, BlockLength, FirstControl, NoFarWrap;
    var (n, x) := (BlockLength(code), FirstControl(code, BlockLength(code), 0));
    PiecesArePartition(code);
    if code[x].Branch? && x + code[x].offset == -1 {
      FirstWordLoop(code);
    } else {
      NotFirstWordLoop(code, n);
      FirstPiece(Cut(code), n);
    }
  }

  /** delSegment of segment k. usesFreed tells whether freeCallers reads a freed segment. */
  method DelSegment(mem: MemState, seg: Segment, ghost base: nat, ghost n: nat, ghost chain: seq<Segment>,
                    ghost ps: seq<Piece>, ghost k: nat) returns (ghost usesFreed: bool)
    requires InOneBlock(mem, base, n) && IsContiguous(ps, n) && |chain| == |ps|
    requires k < |chain| && seg == chain[k] && IsLinkedUpTo(chain, ps, base, k)
    modifies Upto(chain, k), TableOf(mem, base)
    ensures forall i :: 0 <= i <= k ==> (chain[i].dead <==> old(Lowest(chain, k)) <= i)
    ensures 0 <= ps[old(Lowest(chain, k))].start <= EndOf(ps, k) <= n
    ensures forall j :: 0 <= j < TableOf(mem, base).Length ==>
      TableOf(mem, base)[j] ==
        if ps[old(Lowest(chain, k))].start <= j - SlotOf(mem, base) < EndOf(ps, k) then null
        else old(TableOf(mem, base)[j])
    ensures usesFreed <==> old(Lowest(chain, k)) < k
    ensures forall i {:trigger chain[i].branchNext} :: 0 <= i <= k ==>
      chain[i].branchNext == if i + 1 == old(Lowest(chain, k)) then null else old(chain[i].branchNext)
    decreases k
  {
    hide InOneBlock, SlotOf, TableOf, IsContiguous;
    ContiguousBounds(ps, n, k);
    usesFreed := false;
    if seg.callers != [] {
      var caller := seg.callers[0];
      assert caller == chain[k - 1];
      if caller.branchNext == seg {
        caller.branchNext := null;
      } else if caller.continueNext == seg {
        ghost var _ := DelSegment(mem, caller, base, n, chain, ps, k - 1);
      }
      usesFreed := caller.dead;
      seg.callers := [];
    }
    TakeOut(mem, seg, base, n, ps[k]);
  }

  /** The end of delSegment: clear the map and free the segment. */
  method TakeOut(mem: MemState, seg: Segment, ghost base: nat, ghost n: nat, ghost p: Piece)
    requires InOneBlock(mem, base, n) && 0 <= p.start && p.start + p.len <= n && (p.start > 0 ==> p.len > 0)
    requires seg.code == base + 4 * p.start && seg.len == p.len
    modifies seg`dead, TableOf(mem, base)
    ensures seg.dead
    ensures forall j :: 0 <= j < TableOf(mem, base).Length ==>
      TableOf(mem, base)[j] ==
        if p.start <= j - SlotOf(mem, base) < p.start + p.len then null else old(TableOf(mem, base)[j])
  {
    if p.len > 0 {
      WordSlot(mem, base, n, p.start);
      WordSlot(mem, base, n, p.start + p.len - 1);
    }
    var ok := mem.SetMemState(seg.code, seg.len, null);
    seg.dead := true;
  }

  /** Segment i is the first from k down whose predecessor branches to it. */
  lemma {:induction false} LowestExactly(chain: seq<Segment>, k: nat)
    requires k < |chain|
    ensures
      var i := Lowest(chain, k);
      && (i > 0 ==> chain[i - 1].branchNext == chain[i])
      && (forall j {:trigger chain[j]} :: i < j <= k ==> chain[j - 1].branchNext != chain[j])
    decreases k
  {
    if k > 0 && chain[k - 1].branchNext != chain[k] {
      LowestExactly(chain, k - 1);
    }
  }

  lemma {:induction false} FreshGoesToStart(chain: seq<Segment>, k: nat)
    requires k < |chain| && NoForwardBranch(chain)
    ensures Lowest(chain, k) == 0
    decreases k
  {
    if k > 0 {
      assert chain[k - 1].branchNext != chain[k];
      FreshGoesToStart(chain, k - 1);
    }
  }

  /** Deleting segment k of what CompileCodeAt has just built: exactly the segments 0 to k leave
      the map and are freed; the later ones stay as they are, in the map and in the chain, the
      first of them with a freed segment as its caller. */
  method DeleteFromFreshChain(mem: MemState, base: nat, code: seq<MipsWord>, ghost before: int -> Segment?,
                              chain: seq<Segment>, k: nat) returns (ghost usesFreed: bool)
    requires HasShortOffsets(code) && 0 < BlockLength(code) < 0x4000_0000 && NoFarWrap(code, BlockLength(code))
    requires InOneBlock(mem, base, BlockLength(code)) && IsCompiled(mem, base, code, chain, before) && k < |chain|
    modifies Upto(chain, k), TableOf(mem, base)
    ensures forall i :: 0 <= i < |chain| ==> (chain[i].dead <==> i <= k)
    ensures IsTakenOut(mem, mem.Contents(), base, chain, Cut(code), k)
    ensures k + 1 < |chain| ==> chain[k + 1].callers == [chain[k]]
    ensures usesFreed <==> k > 0
  {
    hide CutFrom, Cut, Pieces, Lowest, IsContiguous, NoFarWrap, IsRecorded, IsFaithful, BlockLength, IsTakenOut,
      WordsLeadToSegments;
    var n := BlockLength(code);
    ghost var (ps, was) := (Cut(code), mem.Contents());
    CutIsContiguous(code);
    FreshGoesToStart(chain, k);
    EmptyIsFirst(code);
    assert k + 1 < |chain| ==> chain[k + 1].callers == [chain[k]];
    assert forall i :: k < i < |chain| ==> !chain[i].dead;
    usesFreed := DelSegment(mem, chain[k], base, n, chain, ps, k);
    AfterDeletion(mem, mem.Contents(), was, base, n, chain, ps, k);
  }

  /** The map without segments 0 to k. */
  ghost predicate IsTakenOut(mem: MemState, c: seq<seq<Segment?>>, base: nat, chain: seq<Segment>, ps: seq<Piece>,
                             k: nat)
    requires |c| == |mem.blocks| && k < |chain| == |ps|
  {
    && (forall w {:trigger SegmentOfWord(mem, c, base, w)} :: 0 <= w < EndOf(ps, k) ==>
        SegmentOfWord(mem, c, base, w) == null)
    && (forall i, w {:trigger ps[i], SegmentOfWord(mem, c, base, w)} ::
        k < i < |chain| && ps[i].start <= w < EndOf(ps, i) ==> SegmentOfWord(mem, c, base, w) == chain[i])
  }

  lemma AfterDeletion(mem: MemState, now: seq<seq<Segment?>>, was: seq<seq<Segment?>>, base: nat, n: nat,
                      chain: seq<Segment>, ps: seq<Piece>, k: nat)
    requires InOneBlock(mem, base, n) && IsContiguous(ps, n) && k < |chain| == |ps| && |now| == |was| == |mem.blocks|
    requires WordsLeadToSegments(mem, was, base, chain, ps)
    requires
      var (i, slot) := (mem.BlockOf(base), SlotOf(mem, base));
      |now[i]| == |was[i]| == mem.blocks[i].size
      && forall j :: 0 <= j < |now[i]| ==> now[i][j] == if 0 <= j - slot < EndOf(ps, k) then null else was[i][j]
    ensures IsTakenOut(mem, now, base, chain, ps, k)
  {
    hide IsContiguous;
    ContiguousBounds(ps, n, k);
    forall w {:trigger SegmentOfWord(mem, now, base, w)} | 0 <= w < EndOf(ps, k)
      ensures SegmentOfWord(mem, now, base, w) == null
    {
      WordSlot(mem, base, n, w);
    }
    forall i, w {:trigger ps[i], SegmentOfWord(mem, now, base, w)} | k < i < |chain| && ps[i].start <= w < EndOf(ps, i)
      ensures SegmentOfWord(mem, now, base, w) == chain[i]
    {
      LaterWord(ps, n, k, i);
      ContiguousBounds(ps, n, i);
      WordSlot(mem, base, n, w);
      assert SegmentOfWord(mem, was, base, w) == chain[i];
    }
  }

  lemma {:induction false} LaterWord(ps: seq<Piece>, n: nat, k: nat, i: nat)
    requires IsContiguous(ps, n) && k < i < |ps|
    ensures EndOf(ps, k) <= ps[i].start
    decreases i
  {
    ContiguousBounds(ps, n, i);
    if k < i - 1 {
      ContiguousBounds(ps, n, i - 1);
      LaterWord(ps, n, k, i - 1);
    }
  }
}
