/** The front of the translation of one segment: the list of its words, Translate_CountRegister and
    Translate_Branch, one behind the other on the same list.
 */
module SegmentTranslation {
  import opened Ir
  import opened Segments
  import opened SegmentMap
  import opened LiteralPasses
  import opened BranchConditions
  import opened DelaySlots
  import opened CountRegister
  import opened BranchPass
  import opened BranchTargets
  import opened BranchOfSegment
  import opened SuperBlocks

  /** A new list of instructions. */
  method ListOf(c: seq<Ins>) returns (list: InstrList)
    ensures fresh(list) && list.Valid() && list.Code() == c
    ensures fresh(list.nodes) && forall n :: n in list.nodes ==> n.branchTo == null
  {
    list := new InstrList();
    for i := |c| downto 0
      invariant list.Valid() && list.Code() == c[i..]
      invariant fresh(list.nodes) && forall n :: n in list.nodes ==> n.branchTo == null
    {
      ghost var was := list.Code();
      var n := list.InsertHead(c[i]);
      assert list.Code() == [c[i]] + was;
    }
  }

  /** A list without branches. */
  lemma PlainNodes(list: InstrList, c: seq<Ins>)
    requires list.Valid() && list.Code() == c && forall n :: n in list.nodes ==> n.branchTo == null
    ensures HasNodes(list, BodyNodes(c))
  {
  }

  lemma EntryIsPlain(body: seq<Ins>, x: Ins)
    ensures EntryNodes(body, x) == BodyNodes(body + [x])
  {
  }

  lemma FrontIsSkipped(kind: SegType, body: seq<Ins>)
    requires |body| >= 2
    ensures SkippedNodes(kind, body[..|body| - 1], body[|body| - 1]) == FrontNodes(kind, body)
  {
    hide TestFlag, Blank;
    var (front, last) := (body[..|body| - 1], body[|body| - 1]);
    EntryIsPlain(front, last);
    assert front + [last] == body;
  }

  /** The search for the branch where there is none. */
  method RunToEnd(list: InstrList, start: Instruction, ghost k: nat) returns (cur: Instruction)
    requires list.Valid() && k < |list.nodes| && start == list.nodes[k]
    requires forall i :: k < i < |list.nodes| ==> !IsHandled(list.nodes[i].ins.what.op)
    ensures cur == list.nodes[|list.nodes| - 1]
  {
    hide IsHandled;
    cur := start;
    ghost var i := k;
    while cur.next != null && !IsHandled(cur.next.ins.what.op)
      invariant k <= i < |list.nodes| && cur == list.nodes[i]
      invariant cur.next != null ==> !IsHandled(cur.next.ins.what.op)
      decreases |list.nodes| - i
    {
      assert cur.next == list.nodes[i + 1];
      cur, i := cur.next, i + 1;
    }
  }

  /** Translate_Branch for a segment without a branch: the loop runs to the end of the list. */
  method TranslateFront(list: InstrList, kind: SegType, ghost body: seq<Ins>)
    requires list.Valid() && |body| >= 2 && HasNodes(list, BodyNodes(body))
    requires forall i :: 0 <= i < |body| ==> !IsHandled(body[i].what.op)
    modifies list
    ensures list.Valid() && HasNodes(list, FrontNodes(kind, body))
    ensures forall n :: n in list.nodes ==> n in old(list.nodes) || fresh(n)
  {
    hide HasNodes, IsHandled, FrontNodes, SkippedNodes, EntryNodes, BodyNodes, Skips;
    ghost var (front, last) := (body[..|body| - 1], body[|body| - 1]);
    assert front + [last] == body;
    EntryIsPlain(front, last);
    FrontIsSkipped(kind, body);
    var cur;
    ghost var i;
    cur, i := SkipFirst(list, kind, front, last);
    NoBranchBehind(list, kind, front, last, i);
    cur := RunToEnd(list, cur, i);
  }

  lemma NoBranchBehind(list: InstrList, kind: SegType, body: seq<Ins>, x: Ins, k: nat)
    requires body != [] && HasNodes(list, SkippedNodes(kind, body, x)) && k == (if Skips(kind, body[0]) then 1 else 0)
    requires !IsHandled(x.what.op) && forall i :: 0 <= i < |body| ==> !IsHandled(body[i].what.op)
    ensures k < |list.nodes| && forall i :: k < i < |list.nodes| ==> !IsHandled(list.nodes[i].ins.what.op)
  {
    hide IsHandled, TestFlag, Blank;
    BodyBetween(list, kind, body, x, k);
    NodesAreClosed(list, SkippedNodes(kind, body, x));
  }

  lemma BookkeepingIsUnhandled(b: Program, k: nat)
    requires k < |b.Segs()|
    ensures forall i :: 0 <= i < |Bookkeeping(b, k)| ==> !IsHandled(Bookkeeping(b, k)[i].what.op)
  {
    hide Pieces;
  }

  /** In front of the branch of a segment there is no other one. */
  lemma BodyIsUnhandled(b: Program, k: nat)
    requires IsCut(b) && k < |b.Segs()|
    ensures forall i :: 0 <= i < |Body(b, k)| ==> !IsHandled(Body(b, k)[i].what.op)
    ensures !IsFront(b, k) ==> 0 <= LastWord(b, k) < |b.words| && IsHandled(b.words[LastWord(b, k)].what.op)
  {
    hide IsSegmented, IsSupported, IsFront, IsHandled, IsOrdinary, Update, Pieces, BlockLength;
    var (start, e) := (b.Segs()[k].start, LastWord(b, k));
    SegmentBounds(b, k);
    WordCount(b);
    WordsFit(b, start, e);
    BookkeepingIsUnhandled(b, k);
    var front := SuperBlocks.Front(b, k);
    forall j | 0 <= j < |front| ensures !IsHandled(front[j].what.op) {
      assert front[j] == b.words[start + j];
    }
  }

  /** The list of a segment's words with the update of COUNT. */
  method CountedList(b: Program, k: nat) returns (list: InstrList)
    requires IsCut(b) && k < |b.Segs()|
    ensures fresh(list) && list.Valid() && fresh(list.nodes) && forall n :: n in list.nodes ==> n.branchTo == null
    ensures 0 <= LastWord(b, k) < b.Len() && |b.words| == b.Len() + 1
    ensures list.Code() == if IsFront(b, k) then Body(b, k) else Body(b, k) + [b.words[LastWord(b, k)]]
  {
    hide IsSegmented, IsSupported, IsFront, Pieces, BlockLength, Body, Counted, AllPlain, IsHandled, Update;
    var (start, e) := (b.Segs()[k].start, LastWord(b, k));
    SegmentBounds(b, k);
    WordCount(b);
    BodyIsCounted(b, k);
    list := ListOf(b.words[start..e + 1]);
    var ok := TranslateCountRegister(list, b.Segs()[k].len, b.calls(k).0, b.calls(k).1);
    forall i | 0 <= i < |list.nodes| ensures fresh(list.nodes[i]) {
      assert list.nodes[i] in list.nodes;
    }
  }

  lemma CodeOfFront(b: Program, k: nat, loops: bool, exit: Exit)
    requires IsCut(b) && k < |b.Segs()| && IsFront(b, k)
    ensures |Body(b, k)| >= 2 && CodeFor(b, k, loops, exit) == FrontNodes(b.Segs()[k].kind, Body(b, k))
  {
    hide IsSegmented, IsSupported, IsFront, Pieces, BlockLength, Body, FrontNodes, SegmentNodes, Counted;
    BodyIsCounted(b, k);
  }

  lemma CodeOfBranch(b: Program, k: nat, loops: bool, exit: Exit)
    requires IsCut(b) && k < |b.Segs()| && !IsFront(b, k)
    ensures 0 <= LastWord(b, k) < b.Len() && |b.words| == b.Len() + 1 && Body(b, k) != []
    ensures
      var e := LastWord(b, k);
      CodeFor(b, k, loops, exit) ==
      SegmentNodes(b.Segs()[k].kind, Body(b, k), b.words[e], b.words[e + 1], loops, exit)
  {
    hide IsSegmented, IsSupported, IsFront, Pieces, BlockLength, Body, FrontNodes, SegmentNodes, Counted;
    SegmentBounds(b, k);
    WordCount(b);
    BodyIsCounted(b, k);
  }

  /** The list of a segment with a branch as Translate_Branch gets it. */
  method EntryList(b: Program, k: nat) returns (list: InstrList)
    requires IsCut(b) && k < |b.Segs()| && !IsFront(b, k)
    ensures 0 <= LastWord(b, k) < b.Len() && |b.words| == b.Len() + 1 && Body(b, k) != []
    ensures fresh(list) && list.Valid() && fresh(list.nodes)
    ensures HasNodes(list, EntryNodes(Body(b, k), b.words[LastWord(b, k)]))
  {
    hide IsSegmented, IsSupported, IsFront, Pieces, BlockLength, Body, HasNodes, EntryNodes, CodeFor;
    CodeOfBranch(b, k, false, Exit(0, 0, 0));
    list := CountedList(b, k);
    var x := b.words[LastWord(b, k)];
    EntryIsPlain(Body(b, k), x);
    PlainNodes(list, Body(b, k) + [x]);
  }

  /** The list of a segment with a branch up to Translate_Branch, which leap tells the target of. False where
      addLiteral aborts. */
  method TranslateBranching(b: Program, k: nat, seg: Segment, mem: MemState, pool: LiteralPool, lits: SegmentLiterals,
                            id: nat, leap: Leap, unknown: nat)
    returns (ok: bool, list: InstrList, loops: bool, exit: Exit)
    requires IsCut(b) && k < |b.Segs()| && seg.kind == b.Segs()[k].kind && !IsFront(b, k)
    requires mem.Valid() && pool.Valid()
    modifies pool, pool.table, lits
    ensures pool.Valid() && pool.table == old(pool.table) && (ok ==> |lits.values| <= |old(lits.values)| + 1)
    ensures ok ==> list.Valid() && HasNodes(list, CodeFor(b, k, loops, exit))
    ensures loops == old(LoopsBack(mem, seg, leap))
    ensures loops ==> pool.Value() == old(pool.Value()) && lits.values == old(lits.values)
    ensures ok <==> loops || Literals.AddLiteral(old(pool.Value()), lits.kind, old(lits.values), id).Some?
    ensures ok && !loops ==>
      IsExit(exit, old(EntryOr(mem.SegmentAt(LeapAddress(seg.code + 4 * seg.len, leap)), unknown)),
             Literals.AddLiteral(old(pool.Value()), lits.kind, old(lits.values), id), pool.Value(), lits.values)
  {
    hide IsSegmented, IsSupported, IsFront, IsHandled, Pieces, BlockLength, Body, HasNodes, SegmentNodes, CodeFor;
    hide EntryNodes, LeapAddress, Literals.AddLiteral, LastWord;
    BodyIsUnhandled(b, k);
    list := EntryList(b, k);
    ghost var (body, x) := (Body(b, k), b.words[LastWord(b, k)]);
    var slot := b.words[LastWord(b, k) + 1];
    ok, loops, exit := TranslateSegmentBranch(list, seg, mem, pool, lits, id, slot, leap, unknown, body, x);
    CodeOfBranch(b, k, loops, exit);
  }

  /** The list of a segment in front of a loop. */
  method TranslatePlain(b: Program, k: nat) returns (list: InstrList)
    requires IsCut(b) && k < |b.Segs()| && IsFront(b, k)
    ensures list.Valid() && HasNodes(list, CodeFor(b, k, false, Exit(0, 0, 0)))
  {
    hide IsSegmented, IsSupported, IsFront, IsHandled, Pieces, BlockLength, Body, HasNodes, FrontNodes, CodeFor;
    CodeOfFront(b, k, false, Exit(0, 0, 0));
    BodyIsUnhandled(b, k);
    list := CountedList(b, k);
    PlainNodes(list, Body(b, k));
    TranslateFront(list, b.Segs()[k].kind, Body(b, k));
  }
}
