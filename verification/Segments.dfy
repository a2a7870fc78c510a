/** How CompileCodeAt cuts a super block of MIPS code into segments: the scan for its length and
    the cutting at jumps, branches and internal loops.
 */
module Segments {
  import opened Ir
  import opened Bits

  /** What the cutting looks at in a word of MIPS code. Branch offsets count words from the word
      behind the branch. */
  datatype MipsWord = Invalid | Plain | Jump(link: bool) | Branch(offset: int)

  datatype SegType = Alone | Start | End | Sandwich

  /** A segment: its first word relative to the super block, its length and its type. The length
      is kept modulo 2^32 as the source keeps it. For a branch out of the segment, look is the word
      whose segment is recorded as the one branched to. */
  datatype Piece = Piece(start: int, len: nat, kind: SegType, look: Option<int>)

  /** Does the scan stop behind this word? */
  predicate Stops(w: MipsWord) {
    w.Invalid? || (w.Jump? && !w.link)
  }

  /** The length of the super block at the front of the code: up to and including the first
      unconditional jump that does not link, or nothing if an invalid word comes first. */
  function BlockLength(code: seq<MipsWord>): (n: nat)
    ensures n <= |code|
    ensures n > 0 ==> code[n - 1] == Jump(false) && forall i :: 0 <= i < n - 1 ==> !Stops(code[i])
  {
    if code == [] || code[0].Invalid? then 0
    else if Stops(code[0]) then 1
    else
      var rest := BlockLength(code[1..]);
      if rest == 0 then 0 else rest + 1
  }

  /** The source's test for a branch back into the piece that is being cut; x + offset is unsigned
      and wraps. */
  predicate IsInternal(x: nat, offset: int, start: nat) {
    offset < 0 && (x + offset) % WORD >= start
  }

  function FirstOr(start: nat, kind: SegType): SegType {
    if start == 0 then Start else kind
  }

  /** The pieces made for the branch at x when the piece being cut starts at start. */
  function BranchPieces(x: nat, offset: int, start: nat): seq<Piece> {
    if IsInternal(x, offset, start) then
      [ Piece(start, (x + offset - start + 1) % WORD, FirstOr(start, Sandwich), None),
        Piece(x + 1 + offset, -offset, Sandwich, None) ]
    else
      [ Piece(start, (x - start + 1) % WORD, FirstOr(start, Sandwich), Some(start + offset)) ]
  }

  /** Cut the super block of n words from word x on; the current piece starts at start. */
  function CutFrom(code: seq<MipsWord>, n: nat, x: nat, start: nat): seq<Piece>
    requires n <= |code|
    decreases n - x
  {
    if x >= n then []
    else match code[x]
      case Jump(link) =>
        [ Piece(start, (x - start + 1) % WORD, FirstOr(start, End), None) ]
        + (if link then CutFrom(code, n, x + 1, x + 1) else [])
      case Branch(offset) => BranchPieces(x, offset, start) + CutFrom(code, n, x + 1, x + 1)
      case _ => CutFrom(code, n, x + 1, start)
  }

  function Cut(code: seq<MipsWord>): seq<Piece> {
    CutFrom(code, BlockLength(code), 0, 0)
  }

  // ---------------------------------------------------------------------------------------
  // A partition

  /** The pieces are not empty, follow one another and cover the words from a up to b. */
  predicate Covers(ps: seq<Piece>, a: int, b: int) {
    if ps == [] then a == b
    else ps[0].start == a && ps[0].len > 0 && Covers(ps[1..], a + ps[0].len, b)
  }

  /** No branch at word x or behind it has x + offset < 0. */
  predicate NoWrap(code: seq<MipsWord>, n: nat, x: nat)
    requires n <= |code|
  {
    forall k :: x <= k < n && code[k].Branch? ==> k + code[k].offset >= 0
  }

  /** Offsets come from sixteen-bit fields. */
  predicate HasShortOffsets(code: seq<MipsWord>) {
    forall k :: 0 <= k < |code| && code[k].Branch? ==> -0x8000 <= code[k].offset < 0x8000
  }

  /** The words of a super block: it ends with its only stop. */
  predicate IsBlock(code: seq<MipsWord>, n: nat) {
    && 0 < n <= |code| && n < 0x4000_0000 && HasShortOffsets(code)
    && code[n - 1] == Jump(false) && forall i :: 0 <= i < n - 1 ==> !Stops(code[i])
  }

  predicate AllPlain(code: seq<MipsWord>, a: int, b: int)
    requires 0 <= a && b <= |code|
  {
    forall i :: a <= i < b ==> code[i].Plain?
  }

  lemma CoversAppend(p: Piece, ps: seq<Piece>, a: int, b: int)
    ensures Covers([p] + ps, a, b) <==> p.start == a && p.len > 0 && Covers(ps, a + p.len, b)
  {
    assert ([p] + ps)[1..] == ps;
  }

  lemma CoversPair(p: Piece, q: Piece, ps: seq<Piece>, a: int, b: int)
    ensures Covers([p, q] + ps, a, b) <==>
      p.start == a && p.len > 0 && q.start == a + p.len && q.len > 0 && Covers(ps, q.start + q.len, b)
  {
    assert [p, q] + ps == [p] + ([q] + ps);
    CoversAppend(p, [q] + ps, a, b);
    CoversAppend(q, ps, a + p.len, b);
  }

  lemma BranchCovers(x: nat, offset: int, start: nat, rest: seq<Piece>, n: nat)
    requires start <= x < n < 0x4000_0000 && -0x8000 <= offset < 0x8000
    ensures Covers(BranchPieces(x, offset, start) + rest, start, n) <==> x + offset >= 0 && Covers(rest, x + 1, n)
  {
    var ps := BranchPieces(x, offset, start);
    if IsInternal(x, offset, start) {
      CoversPair(ps[0], ps[1], rest, start, n);
    } else {
      CoversAppend(ps[0], rest, start, n);
    }
  }

  lemma NothingCovered(code: seq<MipsWord>, n: nat)
    requires n <= |code|
    ensures Covers([], n, n) && NoWrap(code, n, n)
  {
  }

  lemma NoWrapStep(code: seq<MipsWord>, n: nat, x: nat)
    requires x < n <= |code|
    ensures NoWrap(code, n, x) <==> (code[x].Branch? ==> x + code[x].offset >= 0) && NoWrap(code, n, x + 1)
  {
  }

  /** The pieces made at a word of control flow. */
  function PiecesAt(w: MipsWord, x: nat, start: nat): seq<Piece> {
    match w
    case Jump(_) => [Piece(start, (x - start + 1) % WORD, FirstOr(start, End), None)]
    case Branch(offset) => BranchPieces(x, offset, start)
    case _ => []
  }

  lemma CutStep(code: seq<MipsWord>, n: nat, x: nat, start: nat)
    requires IsBlock(code, n) && x < n
    ensures !code[x].Invalid? && (code[x] == Jump(false) <==> x == n - 1)
    ensures CutFrom(code, n, x, start) ==
      if code[x].Plain? then CutFrom(code, n, x + 1, start)
      else PiecesAt(code[x], x, start) + CutFrom(code, n, x + 1, x + 1)
  {
    assert Stops(Invalid) && Stops(Jump(false));
    NothingLeft(code, n);
  }

  lemma NothingLeft(code: seq<MipsWord>, n: nat)
    requires n <= |code|
    ensures CutFrom(code, n, n, n) == []
  {
  }

  lemma PiecesAtCover(w: MipsWord, x: nat, start: nat, rest: seq<Piece>, n: nat)
    requires start <= x < n < 0x4000_0000 && (w.Branch? || w.Jump?) && (w.Branch? ==> -0x8000 <= w.offset < 0x8000)
    ensures Covers(PiecesAt(w, x, start) + rest, start, n) <==>
      (w.Branch? ==> x + w.offset >= 0) && Covers(rest, x + 1, n)
  {
    if w.Branch? {
      BranchCovers(x, w.offset, start, rest, n);
    } else {
      CoversAppend(Piece(start, (x - start + 1) % WORD, FirstOr(start, End), None), rest, start, n);
    }
  }

  lemma {:induction false} CutFromCovers(code: seq<MipsWord>, n: nat, x: nat, start: nat)
    requires IsBlock(code, n) && start <= x <= n && (x == n ==> start == n)
    ensures Covers(CutFrom(code, n, x, start), start, n) <==> NoWrap(code, n, x)
    decreases n - x
  {
    hide CutFrom, Covers, NoWrap, PiecesAt;
    if x == n {
      NothingCovered(code, n);
      NothingLeft(code, n);
    } else {
      CutStep(code, n, x, start);
      NoWrapStep(code, n, x);
      if code[x].Plain? {
        CutFromCovers(code, n, x + 1, start);
      } else {
        CutFromCovers(code, n, x + 1, x + 1);
        PiecesAtCover(code[x], x, start, CutFrom(code, n, x + 1, x + 1), n);
      }
    }
  }

  /** The segments of a super block form a partition of it, none of them empty, exactly when every
      branch has x + offset >= 0, which also excludes a branch back to the first word. */
  lemma CutIsPartition(code: seq<MipsWord>)
    requires HasShortOffsets(code) && 0 < BlockLength(code) < 0x4000_0000
    ensures Covers(Cut(code), 0, BlockLength(code)) <==> NoWrap(code, BlockLength(code), 0)
  {
    CutFromCovers(code, BlockLength(code), 0, 0);
  }

  // ---------------------------------------------------------------------------------------
  // A loop back to the first word

  /** The first word of control flow from word x on. */
  function FirstControl(code: seq<MipsWord>, n: nat, x: nat): (y: nat)
    requires IsBlock(code, n) && x < n
    ensures x <= y < n && !code[y].Plain? && AllPlain(code, x, y)
    decreases n - x
  {
    if !code[x].Plain? then x else FirstControl(code, n, x + 1)
  }

  lemma {:induction false} CutSkipsPlain(code: seq<MipsWord>, n: nat, x: nat, start: nat)
    requires IsBlock(code, n) && x < n
    ensures
      var y := FirstControl(code, n, x);
      CutFrom(code, n, x, start) == PiecesAt(code[y], y, start) + CutFrom(code, n, y + 1, y + 1)
    decreases n - x
  {
    hide CutFrom, PiecesAt;
    CutStep(code, n, x, start);
    if code[x].Plain? {
      CutSkipsPlain(code, n, x + 1, start);
    }
  }

  /** The segments that are not empty. The first one is empty when the first branch leads back to
      the first word: its target is taken for one behind the start, x + offset having wrapped. */
  function Pieces(code: seq<MipsWord>): seq<Piece> {
    var ps := Cut(code);
    if ps != [] && ps[0].len == 0 then ps[1..] else ps
  }

  /** Every branch has x + offset >= 0, or is the first one and leads back to the first word. */
  predicate NoFarWrap(code: seq<MipsWord>, n: nat)
    requires n <= |code|
  {
    forall k :: 0 <= k < n && code[k].Branch? ==>
      k + code[k].offset >= 0 || (k + code[k].offset == -1 && AllPlain(code, 0, k))
  }

  /** A super block whose first branch leads back to its first word: an empty START segment, which
      no word of the map leads to, and the loop as a SANDWICH one, in front of the others. */
  lemma FirstWordLoop(code: seq<MipsWord>)
    requires HasShortOffsets(code) && 0 < BlockLength(code) < 0x4000_0000
    requires
      var x := FirstControl(code, BlockLength(code), 0);
      code[x].Branch? && x + code[x].offset == -1
    ensures
      var (n, x) := (BlockLength(code), FirstControl(code, BlockLength(code), 0));
      && Cut(code) == [Piece(0, 0, Start, None), Piece(0, x + 1, Sandwich, None)] + CutFrom(code, n, x + 1, x + 1)
      && Pieces(code) == [Piece(0, x + 1, Sandwich, None)] + CutFrom(code, n, x + 1, x + 1)
  {
    hide BlockLength, FirstControl;
    var (n, x) := (BlockLength(code), FirstControl(code, BlockLength(code), 0));
    var ps := BranchPieces(x, code[x].offset, 0);
    CutSkipsPlain(code, n, 0, 0);
    LoopPieces(x, code[x].offset);
    assert Cut(code) == ps + CutFrom(code, n, x + 1, x + 1);
    assert Cut(code)[1..] == [Piece(0, x + 1, Sandwich, None)] + CutFrom(code, n, x + 1, x + 1);
  }

  lemma LoopPieces(x: nat, offset: int)
    requires x + offset == -1 && x < 0x4000_0000
    ensures BranchPieces(x, offset, 0) == [Piece(0, 0, Start, None), Piece(0, x + 1, Sandwich, None)]
  {
    assert IsInternal(x, offset, 0);
  }

  /** A block with such a loop: two words, then two more. */
  lemma FirstWordLoopExample()
    ensures
      var code := [MipsWord.Plain, Branch(-2), MipsWord.Plain, Jump(false)];
      Cut(code) == [Piece(0, 0, Start, None), Piece(0, 2, Sandwich, None), Piece(2, 2, End, None)]
  {
    var code := [MipsWord.Plain, Branch(-2), MipsWord.Plain, Jump(false)];
    assert code[1..][1..][1..][1..] == [];
    assert BlockLength(code[1..][1..][1..]) == 1 && BlockLength(code[1..][1..]) == 2 && BlockLength(code[1..]) == 3;
    assert BlockLength(code) == 4;
    assert FirstControl(code, 4, 0) == 1;
    FirstWordLoop(code);
    assert CutFrom(code, 4, 2, 2) == CutFrom(code, 4, 3, 2) == [Piece(2, 2, End, None)];
  }

  lemma NotFirstWordLoop(code: seq<MipsWord>, n: nat)
    requires IsBlock(code, n) && n == BlockLength(code)
    requires var x := FirstControl(code, n, 0); !(code[x].Branch? && x + code[x].offset == -1)
    ensures Pieces(code) == Cut(code) && (NoFarWrap(code, n) <==> NoWrap(code, n, 0))
  {
    hide CutFrom, FirstControl, BlockLength;
    var x := FirstControl(code, n, 0);
    CutSkipsPlain(code, n, 0, 0);
    CutStep(code, n, x, 0);
    FirstIsNotEmpty(code[x], x);
    assert Cut(code) != [] && Cut(code)[0] == PiecesAt(code[x], x, 0)[0];
    assert forall k :: 0 <= k < n && code[k].Branch? && AllPlain(code, 0, k) ==> k == x;
  }

  lemma FirstIsNotEmpty(w: MipsWord, x: nat)
    requires (w.Branch? || w.Jump?) && x < 0x4000_0000 &&
      (w.Branch? ==> -0x8000 <= w.offset < 0x8000 && x + w.offset != -1)
    ensures PiecesAt(w, x, 0) != [] && PiecesAt(w, x, 0)[0].len != 0
  {
  }

  /** The segments that are not empty form a partition exactly when no branch leads to before the
      first word, but for the first one leading back to it. */
  lemma PiecesArePartition(code: seq<MipsWord>)
    requires HasShortOffsets(code) && 0 < BlockLength(code) < 0x4000_0000
    ensures Covers(Pieces(code), 0, BlockLength(code)) <==> NoFarWrap(code, BlockLength(code))
  {
    var n := BlockLength(code);
    var x := FirstControl(code, n, 0);
    hide *;
    if code[x].Branch? && x + code[x].offset == -1 {
      LoopIsPartition(code, n, x);
    } else {
      NotFirstWordLoop(code, n);
      CutIsPartition(code);
    }
  }

  lemma LoopIsPartition(code: seq<MipsWord>, n: nat, x: nat)
    requires IsBlock(code, n) && n == BlockLength(code) && x == FirstControl(code, n, 0)
    requires code[x].Branch? && x + code[x].offset == -1
    ensures Covers(Pieces(code), 0, n) <==> NoFarWrap(code, n)
  {
    hide CutFrom, BranchPieces, NoFarWrap, Covers, Pieces, BlockLength, FirstControl;
    FirstWordLoop(code);
    assert x + 1 < n by { assert code[n - 1] == Jump(false); }
    CutFromCovers(code, n, x + 1, x + 1);
    CoversAppend(Piece(0, x + 1, Sandwich, None), CutFrom(code, n, x + 1, x + 1), 0, n);
    LoopedWrap(code, n, x);
  }

  lemma LoopedWrap(code: seq<MipsWord>, n: nat, x: nat)
    requires IsBlock(code, n) && x == FirstControl(code, n, 0) && code[x].Branch? && x + code[x].offset == -1
    ensures NoFarWrap(code, n) <==> NoWrap(code, n, x + 1)
  {
    assert forall k :: x < k < n ==> !AllPlain(code, 0, k);
    assert forall k :: 0 <= k < n && code[k].Branch? && k <= x ==> k == x;
  }

  // ---------------------------------------------------------------------------------------
  // What is inside a segment

  /** The word the branch at the end of a segment leads to. */
  function Target(code: seq<MipsWord>, n: nat, p: Piece): int
    requires n <= |code| && 0 <= p.start && 0 < p.len && p.start + p.len <= n && code[p.start + p.len - 1].Branch?
  {
    p.start + p.len + code[p.start + p.len - 1].offset
  }

  /** The segment is a loop: the branch at its end leads to its first word, and there is no control flow in
      front of that. */
  predicate IsSelfLoop(code: seq<MipsWord>, n: nat, p: Piece)
    requires n <= |code| && 0 <= p.start && 0 < p.len && p.start + p.len <= n && code[p.start + p.len - 1].Branch?
  {
    Target(code, n, p) == p.start && (p.start == 0 || code[p.start - 1].Plain?)
  }

  /** A segment lies in the block and has control flow in its last word at most. If a branch at its
      end leads into the segment itself, then to its first word. Where a branch leads is recorded unless the
      segment is a loop, at the word its offset leads to from the start of the segment. */
  predicate HasShape(code: seq<MipsWord>, n: nat, p: Piece)
    requires n <= |code|
  {
    && 0 <= p.start && p.len > 0 && p.start + p.len <= n
    && AllPlain(code, p.start, p.start + p.len - 1)
    && var last := code[p.start + p.len - 1];
    && !last.Invalid?
    && (last.Branch? && p.start <= Target(code, n, p) < p.start + p.len ==> Target(code, n, p) == p.start)
    && p.look == if last.Branch? && !IsSelfLoop(code, n, p) then Some(p.start + last.offset) else None
  }

  /** Its type is START exactly if it is the first one, and otherwise END exactly if it ends in a
      jump. */
  predicate HasKind(code: seq<MipsWord>, n: nat, p: Piece)
    requires n <= |code| && HasShape(code, n, p)
  {
    && (p.kind == Start <==> p.start == 0)
    && (p.start > 0 ==> p.kind == if code[p.start + p.len - 1].Jump? then End else Sandwich)
  }

  predicate IsSound(code: seq<MipsWord>, n: nat, p: Piece)
    requires n <= |code|
  {
    HasShape(code, n, p) && HasKind(code, n, p)
  }

  /** The pieces made at a branch that does not wrap. */
  lemma PiecesOfBranch(x: nat, offset: int, start: nat)
    requires start <= x < 0x4000_0000 && -0x8000 <= offset < 0x8000 && x + offset >= 0
    ensures IsInternal(x, offset, start) <==> offset < 0 && x + offset >= start
    ensures BranchPieces(x, offset, start) ==
      if offset < 0 && x + offset >= start then
        [ Piece(start, x + offset - start + 1, FirstOr(start, Sandwich), None),
          Piece(x + 1 + offset, -offset, Sandwich, None) ]
      else [ Piece(start, x - start + 1, FirstOr(start, Sandwich), Some(start + offset)) ]
  {
  }

  /** Where a piece starts: in front of the block or behind a word of control flow. */
  predicate IsFresh(code: seq<MipsWord>, start: nat) {
    start == 0 || (start <= |code| && !code[start - 1].Plain?)
  }

  lemma BranchIsSound(code: seq<MipsWord>, n: nat, x: nat, start: nat)
    requires IsBlock(code, n) && start <= x < n && AllPlain(code, start, x) && code[x].Branch? &&
      x + code[x].offset >= 0
    requires IsFresh(code, start)
    ensures forall p :: p in BranchPieces(x, code[x].offset, start) ==> IsSound(code, n, p)
  {
    hide BranchPieces, IsInternal;
    PiecesOfBranch(x, code[x].offset, start);
  }

  lemma PiecesAtAreSound(code: seq<MipsWord>, n: nat, x: nat, start: nat)
    requires IsBlock(code, n) && start <= x < n && AllPlain(code, start, x) && (code[x].Branch? || code[x].Jump?)
    requires IsFresh(code, start) && (code[x].Branch? ==> x + code[x].offset >= 0)
    ensures forall p :: p in PiecesAt(code[x], x, start) ==> IsSound(code, n, p)
  {
    if code[x].Branch? {
      BranchIsSound(code, n, x, start);
    }
  }

  lemma {:induction false} CutFromIsSound(code: seq<MipsWord>, n: nat, x: nat, start: nat)
    requires IsBlock(code, n) && start <= x <= n && (x == n ==> start == n) && AllPlain(code, start, x) &&
      NoWrap(code, n, x) && IsFresh(code, start)
    ensures forall p :: p in CutFrom(code, n, x, start) ==> IsSound(code, n, p)
    decreases n - x
  {
    hide CutFrom, IsSound, NoWrap, PiecesAt;
    if x == n {
      NothingLeft(code, n);
    } else {
      CutStep(code, n, x, start);
      NoWrapStep(code, n, x);
      if code[x].Plain? {
        CutFromIsSound(code, n, x + 1, start);
      } else {
        CutFromIsSound(code, n, x + 1, x + 1);
        PiecesAtAreSound(code, n, x, start);
      }
    }
  }

  lemma SegmentsAreSound(code: seq<MipsWord>)
    requires HasShortOffsets(code) && 0 < BlockLength(code) < 0x4000_0000 && NoWrap(code, BlockLength(code), 0)
    ensures forall p :: p in Cut(code) ==> IsSound(code, BlockLength(code), p)
  {
    CutFromIsSound(code, BlockLength(code), 0, 0);
  }

  /** The segments that are not empty are sound, but that a loop from the first word on is a
      SANDWICH one. */
  lemma PiecesAreSound(code: seq<MipsWord>)
    requires HasShortOffsets(code) && 0 < BlockLength(code) < 0x4000_0000 && NoFarWrap(code, BlockLength(code))
    ensures forall p :: p in Pieces(code) ==>
      && HasShape(code, BlockLength(code), p)
      && (if p.start > 0 then HasKind(code, BlockLength(code), p) else p.kind == Start || p.kind == Sandwich)
  {
    hide CutFrom, BranchPieces, IsSound, HasShape, HasKind, NoFarWrap, Cut, Pieces, FirstControl, BlockLength;
    var n := BlockLength(code);
    var x := FirstControl(code, n, 0);
    if code[x].Branch? && x + code[x].offset == -1 {
      FirstWordLoop(code);
      LoopedWrap(code, n, x);
      CutFromIsSound(code, n, x + 1, x + 1);
      LoopIsShaped(code, n, x);
    } else {
      NotFirstWordLoop(code, n);
      CutFromIsSound(code, n, 0, 0);
      WholeCut(code);
    }
    SoundParts(code, n);
  }

  lemma SoundParts(code: seq<MipsWord>, n: nat)
    requires n <= |code|
    ensures forall p {:trigger IsSound(code, n, p)} :: IsSound(code, n, p) ==>
      HasShape(code, n, p) && HasKind(code, n, p) && (p.start <= 0 ==> p.kind == Start)
  {
  }

  lemma LoopIsShaped(code: seq<MipsWord>, n: nat, x: nat)
    requires IsBlock(code, n) && x < n && AllPlain(code, 0, x) && code[x].Branch? && x + code[x].offset == -1
    ensures HasShape(code, n, Piece(0, x + 1, Sandwich, None))
  {
  }

  /** A segment that was cut off in front of a loop. */
  predicate EndsPlain(code: seq<MipsWord>, n: nat, p: Piece)
    requires n <= |code| && HasShape(code, n, p)
  {
    code[p.start + p.len - 1].Plain?
  }

  predicate EndsInLoop(code: seq<MipsWord>, n: nat, p: Piece)
    requires n <= |code| && HasShape(code, n, p)
  {
    code[p.start + p.len - 1].Branch? && IsSelfLoop(code, n, p)
  }

  /** In front of each branch or jump its segment has another word. */
  predicate HasWords(code: seq<MipsWord>, n: nat, p: Piece)
    requires n <= |code|
  {
    HasShape(code, n, p) && (EndsPlain(code, n, p) || p.len >= 2)
  }

  /** Segments that have words in front of their branches, and each one that was cut off in front of a
      loop followed by that loop, which is not recorded. */
  predicate LoopsFollow(code: seq<MipsWord>, n: nat, ps: seq<Piece>)
    requires n <= |code|
  {
    forall k {:trigger ps[k]} :: 0 <= k < |ps| ==>
      && HasWords(code, n, ps[k])
      && (EndsPlain(code, n, ps[k]) ==>
          k + 1 < |ps| && HasWords(code, n, ps[k + 1]) && EndsInLoop(code, n, ps[k + 1]))
  }

  /** Delay slots are plain words, no branch leads to itself, and the first word is plain. */
  predicate HasPlainSlots(code: seq<MipsWord>, n: nat)
    requires n <= |code|
  {
    && (n > 0 ==> code[0].Plain?)
    && forall i :: 0 <= i < n && code[i].Branch? ==> code[i].offset != -1 && i + 1 < n && code[i + 1].Plain?
  }

  lemma LoopsFollowAppend(code: seq<MipsWord>, n: nat, ps: seq<Piece>, qs: seq<Piece>)
    requires n <= |code| && LoopsFollow(code, n, ps) && LoopsFollow(code, n, qs)
    ensures LoopsFollow(code, n, ps + qs)
  {
    var rs := ps + qs;
    forall k | 0 <= k < |rs|
      ensures HasWords(code, n, rs[k])
      ensures EndsPlain(code, n, rs[k]) ==>
        k + 1 < |rs| && HasWords(code, n, rs[k + 1]) && EndsInLoop(code, n, rs[k + 1])
    {
      if k < |ps| {
        assert rs[k] == ps[k] && HasWords(code, n, ps[k]);
        assert k + 1 < |ps| ==> rs[k + 1] == ps[k + 1];
      } else {
        assert rs[k] == qs[k - |ps|] && HasWords(code, n, qs[k - |ps|]);
        assert k + 1 < |rs| ==> rs[k + 1] == qs[k + 1 - |ps|];
      }
    }
  }

  lemma BranchHasWords(code: seq<MipsWord>, n: nat, x: nat, start: nat)
    requires IsBlock(code, n) && start < x < n && AllPlain(code, start, x) && code[x].Branch?
    requires IsFresh(code, start) && x + code[x].offset >= 0 && code[x].offset != -1
    ensures LoopsFollow(code, n, BranchPieces(x, code[x].offset, start))
  {
    hide LoopsFollow;
    var (offset, ps) := (code[x].offset, BranchPieces(x, code[x].offset, start));
    BranchIsSound(code, n, x, start);
    if IsInternal(x, offset, start) {
      var (p, q) := (ps[0], ps[1]);
      assert p in ps && q in ps && ps == [p, q];
      assert IsSound(code, n, p) && IsSound(code, n, q) && q.len == -offset >= 2;
      assert q.start + q.len - 1 == x && EndsPlain(code, n, p) && EndsInLoop(code, n, q);
      TwoFollow(code, n, p, q);
    } else {
      var p := ps[0];
      assert p in ps && ps == [p];
      assert IsSound(code, n, p) && p.start + p.len - 1 == x && !EndsPlain(code, n, p);
      OneFollows(code, n, p);
    }
  }

  lemma OneFollows(code: seq<MipsWord>, n: nat, p: Piece)
    requires n <= |code| && HasWords(code, n, p) && !EndsPlain(code, n, p)
    ensures LoopsFollow(code, n, [p])
  {
  }

  lemma TwoFollow(code: seq<MipsWord>, n: nat, p: Piece, q: Piece)
    requires n <= |code| && HasWords(code, n, p) && HasWords(code, n, q) && EndsInLoop(code, n, q)
    ensures LoopsFollow(code, n, [p, q])
  {
    hide HasWords, IsSelfLoop;
  }

  lemma PiecesAtHaveWords(code: seq<MipsWord>, n: nat, x: nat, start: nat)
    requires IsBlock(code, n) && start < x < n && AllPlain(code, start, x) &&
      (code[x].Branch? || code[x] == Jump(false))
    requires IsFresh(code, start) && (code[x].Branch? ==> x + code[x].offset >= 0 && code[x].offset != -1)
    ensures LoopsFollow(code, n, PiecesAt(code[x], x, start))
  {
    hide LoopsFollow;
    if code[x].Branch? {
      BranchHasWords(code, n, x, start);
    } else {
      var p := PiecesAt(code[x], x, start)[0];
      assert p.start + p.len - 1 == x && !EndsPlain(code, n, p);
      OneFollows(code, n, p);
    }
  }

  lemma {:induction false} CutFromHasWords(code: seq<MipsWord>, n: nat, x: nat, start: nat)
    requires IsBlock(code, n) && start <= x <= n && (x == n ==> start == n) && AllPlain(code, start, x) &&
      NoWrap(code, n, x) && IsFresh(code, start)
    requires HasPlainSlots(code, n) && (start < n ==> code[start].Plain?)
    requires forall i :: 0 <= i < n ==> code[i] != Jump(true)
    ensures LoopsFollow(code, n, CutFrom(code, n, x, start))
    decreases n - x
  {
    hide CutFrom, LoopsFollow, NoWrap, PiecesAt;
    if x == n {
      NothingLeft(code, n);
      NothingFollows(code, n);
    } else {
      CutStep(code, n, x, start);
      NoWrapStep(code, n, x);
      if code[x].Plain? {
        CutFromHasWords(code, n, x + 1, start);
      } else {
        CutFromHasWords(code, n, x + 1, x + 1);
        PiecesAtHaveWords(code, n, x, start);
        LoopsFollowAppend(code, n, PiecesAt(code[x], x, start), CutFrom(code, n, x + 1, x + 1));
      }
    }
  }

  lemma NothingFollows(code: seq<MipsWord>, n: nat)
    requires n <= |code|
    ensures LoopsFollow(code, n, [])
  {
  }

  /** The segments of a block whose delay slots are plain have words in front of their branches. */
  lemma PiecesHaveWords(code: seq<MipsWord>)
    requires HasShortOffsets(code) && 0 < BlockLength(code) < 0x4000_0000 && NoFarWrap(code, BlockLength(code))
    requires HasPlainSlots(code, BlockLength(code)) && forall i :: 0 <= i < BlockLength(code) ==> code[i] != Jump(true)
    ensures LoopsFollow(code, BlockLength(code), Pieces(code))
  {
    hide CutFrom, BranchPieces, LoopsFollow, NoFarWrap, Cut, Pieces, FirstControl, BlockLength;
    var n := BlockLength(code);
    var x := FirstControl(code, n, 0);
    if code[x].Branch? && x + code[x].offset == -1 {
      FirstWordLoop(code);
      LoopedWrap(code, n, x);
      CutFromHasWords(code, n, x + 1, x + 1);
      LoopHasWords(code, n, x);
      LoopsFollowAppend(code, n, [Piece(0, x + 1, Sandwich, None)], CutFrom(code, n, x + 1, x + 1));
    } else {
      NotFirstWordLoop(code, n);
      CutFromHasWords(code, n, 0, 0);
      WholeCut(code);
    }
  }

  lemma WholeCut(code: seq<MipsWord>)
    ensures Cut(code) == CutFrom(code, BlockLength(code), 0, 0)
  {
  }

  lemma LoopHasWords(code: seq<MipsWord>, n: nat, x: nat)
    requires IsBlock(code, n) && 0 < x < n && AllPlain(code, 0, x) && code[x].Branch? && x + code[x].offset == -1
    ensures LoopsFollow(code, n, [Piece(0, x + 1, Sandwich, None)])
  {
    LoopIsShaped(code, n, x);
    var p := Piece(0, x + 1, Sandwich, None);
    assert HasShape(code, n, p);
    assert !EndsPlain(code, n, p);
    assert HasWords(code, n, p);
  }

  lemma ShapeOfLook(code: seq<MipsWord>, n: nat, p: Piece)
    requires n <= |code| && HasShape(code, n, p) && p.look.Some?
    ensures p.look.value == Target(code, n, p) - p.len
  {
  }

  /** The segment recorded for a branch out of a segment is looked up at the wrong word: the
      offset is added to the start of the segment instead of its end. */
  lemma RecordedTargetIsOff(code: seq<MipsWord>, p: Piece)
    requires HasShortOffsets(code) && 0 < BlockLength(code) < 0x4000_0000 && NoFarWrap(code, BlockLength(code))
    requires p in Cut(code) && p.look.Some?
    ensures IsSound(code, BlockLength(code), p) && p.look.value == Target(code, BlockLength(code), p) - p.len
  {
    hide CutFrom, BlockLength, FirstControl, NoFarWrap, HasShape, HasKind, Cut, Pieces, Covers;
    var (n, x) := (BlockLength(code), FirstControl(code, BlockLength(code), 0));
    if code[x].Branch? && x + code[x].offset == -1 {
      FirstWordLoop(code);
      PiecesAreSound(code);
      PiecesArePartition(code);
      var k :| 0 <= k < |Cut(code)| && p == Cut(code)[k];
      assert k > 1 && Pieces(code)[k - 1] == p;
      CoversBounds(Pieces(code), 0, n, k - 1);
      ShapeOfLook(code, n, p);
    } else {
      NotFirstWordLoop(code, n);
      SegmentsAreSound(code);
      ShapeOfLook(code, n, p);
    }
  }

  // ---------------------------------------------------------------------------------------
  // Looking words up

  /** The position of the piece that holds word i. */
  function PieceAt(ps: seq<Piece>, a: int, b: int, i: int): (k: nat)
    requires Covers(ps, a, b) && a <= i < b
    ensures k < |ps| && ps[k].start <= i < ps[k].start + ps[k].len
  {
    if i < a + ps[0].len then 0 else PieceAt(ps[1..], a + ps[0].len, b, i) + 1
  }

  lemma {:induction false} CoversBounds(ps: seq<Piece>, a: int, b: int, k: nat)
    requires Covers(ps, a, b) && k < |ps|
    ensures a <= ps[k].start && 0 < ps[k].len && ps[k].start + ps[k].len <= b
    ensures k == 0 <==> ps[k].start == a
    ensures k + 1 < |ps| ==> ps[k + 1].start == ps[k].start + ps[k].len
    ensures k + 1 == |ps| ==> ps[k].start + ps[k].len == b
    decreases k
  {
    CoversOrder(ps, a, b);
    if k > 0 {
      CoversBounds(ps[1..], a + ps[0].len, b, k - 1);
    }
  }

  lemma {:induction false} CoversOrder(ps: seq<Piece>, a: int, b: int)
    requires Covers(ps, a, b)
    ensures a <= b && (ps != [] ==> a + ps[0].len <= b)
  {
    if ps != [] {
      CoversOrder(ps[1..], a + ps[0].len, b);
    }
  }

  /** Each word belongs to exactly one segment. */
  lemma {:induction false} PieceAtIsUnique(ps: seq<Piece>, a: int, b: int, i: int, k: nat)
    requires Covers(ps, a, b) && k < |ps| && ps[k].start <= i < ps[k].start + ps[k].len
    ensures a <= i < b && PieceAt(ps, a, b, i) == k
    decreases k
  {
    CoversBounds(ps, a, b, k);
    if k > 0 {
      CoversBounds(ps, a, b, k);
      PieceAtIsUnique(ps[1..], a + ps[0].len, b, i, k - 1);
    }
  }
}
