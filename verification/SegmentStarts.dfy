/** Where the segments of a super block begin, told from the words alone: together with their being a
    partition this determines the cut.
 */
module SegmentStarts {
  import opened Ir
  import opened Segments

  /** A super block of n words: it ends with its only unconditional jump that does not link, and has no
      invalid word. */
  ghost predicate IsSuperBlock(code: seq<MipsWord>, n: nat) {
    && 0 < n <= |code| && code[n - 1] == Jump(false)
    && forall i :: 0 <= i < n - 1 ==> code[i] != Jump(false) && code[i] != Invalid
  }

  /** The scan finds the length of the super block at the front, if there is one. */
  lemma {:induction false} BlockLengthExactly(code: seq<MipsWord>)
    ensures forall n: nat :: IsSuperBlock(code, n) ==> BlockLength(code) == n
    ensures BlockLength(code) > 0 ==> IsSuperBlock(code, BlockLength(code))
  {
    if code != [] {
      BlockLengthExactly(code[1..]);
      forall n: nat | IsSuperBlock(code, n) ensures BlockLength(code) == n {
        assert n > 1 ==> IsSuperBlock(code[1..], n - 1);
      }
    }
  }

  /** The branch at word x leads back to word w, and there is no control flow between the word in front of w
      and x. */
  predicate LeadsBack(code: seq<MipsWord>, n: nat, w: nat, x: nat)
    requires n <= |code|
  {
    0 < w <= x < n && code[x].Branch? && x + 1 + code[x].offset == w && AllPlain(code, w - 1, x)
  }

  /** Word w is the first behind a word of control flow, or the first of a loop. */
  ghost predicate IsBoundary(code: seq<MipsWord>, n: nat, w: nat)
    requires n <= |code|
  {
    0 < w < n && (!code[w - 1].Plain? || exists x :: LeadsBack(code, n, w, x))
  }

  ghost predicate Begins(ps: seq<Piece>, w: int) {
    exists k :: 0 <= k < |ps| && ps[k].start == w
  }

  lemma BeginsAppend(ps: seq<Piece>, qs: seq<Piece>, w: int)
    ensures Begins(ps + qs, w) <==> Begins(ps, w) || Begins(qs, w)
  {
    if k :| 0 <= k < |qs| && qs[k].start == w {
      assert (ps + qs)[|ps| + k] == qs[k];
    }
    if k :| 0 <= k < |ps| && ps[k].start == w {
      assert (ps + qs)[k] == ps[k];
    }
  }

  /** No word up to the first one of control flow, at x, is a boundary, but for the target of a branch. */
  lemma BoundaryUpTo(code: seq<MipsWord>, n: nat, start: nat, x: nat, w: nat)
    requires IsBlock(code, n) && start < w <= x < n && AllPlain(code, start, x) && !code[x].Plain?
    ensures IsBoundary(code, n, w) <==> code[x].Branch? && x + 1 + code[x].offset == w
  {
    if code[x].Branch? && x + 1 + code[x].offset == w {
      assert LeadsBack(code, n, w, x);
    }
    if y :| LeadsBack(code, n, w, y) {
      assert y == x;
    }
  }

  lemma PiecesAtBegin(w: MipsWord, x: nat, start: nat, v: nat)
    requires (w.Branch? || w.Jump?) && start <= x < 0x4000_0000
    requires w.Branch? ==> -0x8000 <= w.offset < 0x8000 && x + w.offset >= 0
    ensures Begins(PiecesAt(w, x, start), v) <==>
      v == start || (w.Branch? && start < v <= x && x + 1 + w.offset == v)
  {
    hide IsInternal;
    var ps := PiecesAt(w, x, start);
    assert ps[0].start == start;
    if w.Branch? {
      PiecesOfBranch(x, w.offset, start);
      if IsInternal(x, w.offset, start) {
        assert ps[1].start == x + 1 + w.offset;
      }
    }
  }

  /** The segments cut from word x on, the current one having begun at start. */
  lemma {:induction false} CutBegins(code: seq<MipsWord>, n: nat, x: nat, start: nat, w: nat)
    requires IsBlock(code, n) && start <= x < n && AllPlain(code, start, x) && NoWrap(code, n, x) && start <= w < n
    ensures Begins(CutFrom(code, n, x, start), w) <==> w == start || IsBoundary(code, n, w)
    decreases n - x
  {
    hide CutFrom, NoWrap, PiecesAt, Begins, IsBoundary;
    CutStep(code, n, x, start);
    NoWrapStep(code, n, x);
    if code[x].Plain? {
      CutBegins(code, n, x + 1, start, w);
    } else {
      PiecesAtBegin(code[x], x, start, w);
      BeginsAppend(PiecesAt(code[x], x, start), CutFrom(code, n, x + 1, x + 1), w);
      if w <= x {
        if start < w {
          BoundaryUpTo(code, n, start, x, w);
        }
        LaterBegins(code, n, x + 1, w);
      } else {
        CutBegins(code, n, x + 1, x + 1, w);
        BehindControl(code, n, x);
      }
    }
  }

  lemma BehindControl(code: seq<MipsWord>, n: nat, x: nat)
    requires x + 1 < n <= |code| && !code[x].Plain?
    ensures IsBoundary(code, n, x + 1)
  {
  }

  lemma LaterBegins(code: seq<MipsWord>, n: nat, y: nat, w: nat)
    requires IsBlock(code, n) && w < y <= n && NoWrap(code, n, y)
    ensures !Begins(CutFrom(code, n, y, y), w)
  {
    CutFromCovers(code, n, y, y);
    if k :| 0 <= k < |CutFrom(code, n, y, y)| && CutFrom(code, n, y, y)[k].start == w {
      CoversBounds(CutFrom(code, n, y, y), y, n, k);
    }
  }

  /** A segment begins at a word exactly if it is the first, follows a word of control flow, or is the first
      of a loop behind a plain word. */
  lemma PiecesBeginExactly(code: seq<MipsWord>, w: nat)
    requires HasShortOffsets(code) && 0 < BlockLength(code) < 0x4000_0000 && NoFarWrap(code, BlockLength(code))
    requires w < BlockLength(code)
    ensures Begins(Pieces(code), w) <==> w == 0 || IsBoundary(code, BlockLength(code), w)
  {
    hide BlockLength, CutFrom, NoFarWrap, NoWrap, Pieces, FirstControl, Begins, IsBoundary, PiecesAt;
    var n := BlockLength(code);
    var x := FirstControl(code, n, 0);
    if code[x].Branch? && x + code[x].offset == -1 {
      FirstWordLoop(code);
      LoopedWrap(code, n, x);
      LoopBegins(code, n, x, w);
    } else {
      NotFirstWordLoop(code, n);
      WholeCut(code);
      CutBegins(code, n, 0, 0, w);
    }
  }

  lemma LoopBegins(code: seq<MipsWord>, n: nat, x: nat, w: nat)
    requires IsBlock(code, n) && x < n && w < n && AllPlain(code, 0, x) && NoWrap(code, n, x + 1)
    requires code[x].Branch? && x + code[x].offset == -1
    ensures Begins([Piece(0, x + 1, Sandwich, None)] + CutFrom(code, n, x + 1, x + 1), w) <==>
      w == 0 || IsBoundary(code, n, w)
  {
    hide CutFrom, NoWrap, IsBoundary;
    var first := [Piece(0, x + 1, Sandwich, None)];
    assert first[0].start == 0;
    assert x + 1 < n by { assert code[n - 1] == Jump(false); }
    BeginsAppend(first, CutFrom(code, n, x + 1, x + 1), w);
    if w <= x {
      if 0 < w {
        BoundaryUpTo(code, n, 0, x, w);
      }
      LaterBegins(code, n, x + 1, w);
    } else {
      CutBegins(code, n, x + 1, x + 1, w);
      BehindControl(code, n, x);
    }
  }
}
