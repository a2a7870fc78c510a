/** From a super block of MIPS code to its emitted segments: CompileCodeAt makes them, the translation loop
    emits them, and the addresses in their branches form the layout the runs of the block rest on.
 */
module SuperBlockEmission {
  import opened Ir
  import opened Segments
  import opened SegmentMap
  import opened SegmentChain
  import opened Emission
  import opened LiteralPasses
  import opened BranchTargets
  import opened ChainEmission
  import opened SuperBlocks

  /** What the word at the end of segment k says about where it leads; index is the field of the block's J. */
  function LeapOf(b: Program, index: nat, k: nat): Option<Leap>
    requires k < |b.Segs()|
  {
    var e := LastWord(b, k);
    if !(0 <= e < |b.code|) then None
    else match b.code[e]
      case Branch(offset) => Some(ByOffset(offset))
      case Jump(_) => Some(ByIndex(index))
      case _ => None
  }

  function Leaps(b: Program, index: nat): (leaps: seq<Option<Leap>>)
    ensures |leaps| == |b.Segs()| && forall k :: 0 <= k < |leaps| ==> leaps[k] == LeapOf(b, index, k)
  {
    seq(|b.Segs()|, k requires 0 <= k < |b.Segs()| => LeapOf(b, index, k))
  }

  /** The field of the J at the end of the block at base leads to word b.jump, and its delay slot is not the
      last word of a region. */
  predicate IsJump(b: Program, base: nat, index: nat) {
    var end := base + 4 * b.Len();
    base % 4 == 0 && index < 0x400_0000 && end % REGION != REGION - 4 && JumpAddress(end, index) == base + 4 * b.jump
  }

  /** Segment k's branch says where it leads: to word Goes(b, k) of the block at base. */
  predicate SaysWhere(b: Program, base: nat, leaps: seq<Option<Leap>>) {
    && |leaps| == |b.Segs()|
    && forall k :: 0 <= k < |leaps| ==>
        && (leaps[k].Some? <==> Goes(b, k).Some?)
        && (leaps[k].Some? && LastWord(b, k) >= 0 ==>
            LeapAddress(base + 4 * (LastWord(b, k) + 1), leaps[k].value) == base + 4 * Goes(b, k).value)
  }

  /** What the words say is where the program goes. */
  lemma LeapsSayWhere(mem: MemState, b: Program, base: nat, index: nat)
    requires IsCut(b) && InOneBlock(mem, base, b.Len()) && IsJump(b, base, index)
    ensures SaysWhere(b, base, Leaps(b, index))
  {
    hide IsSegmented, LeapAddress, JumpAddress, Pieces, BlockLength;
    WordCount(b);
    forall k | 0 <= k < |b.Segs()|
      ensures LeapOf(b, index, k).Some? <==> Goes(b, k).Some?
      ensures LeapOf(b, index, k).Some? ==>
        LeapAddress(base + 4 * (LastWord(b, k) + 1), LeapOf(b, index, k).value) == base + 4 * Goes(b, k).value
    {
      var e := LastWord(b, k);
      SegmentBounds(b, k);
      match b.code[e]
      case Branch(offset) =>
        OffsetLeadsToTarget(base, e + 1, offset);
      case Jump(_) =>
        JumpIsLast(b, e);
        JumpKeepsRegion(base + 4 * (e + 1), index);
      case _ =>
    }
  }

  /** The segments tables with contents c lead to were emitted in front of address a, or not at all. */
  ghost predicate AllInFront(c: seq<seq<Segment?>>, a: nat)
    reads (set t, s | t in c && s in t && s != null :: s)`entry
  {
    forall t, s :: t in c && s in t && s != null ==> s.entry < a
  }

  lemma RestIsMapped(mem: MemState, c: seq<seq<Segment?>>, base: nat, n: nat, chain: seq<Segment>, ps: seq<Piece>,
                     e: nat)
    requires |chain| == |ps| && e <= |ps| && |c| == |mem.blocks|
    requires WordsLeadToSegments(mem, c, base, chain, ps) && OnlyWordsLead(mem, c, base, n, chain)
    ensures IsMapOf(mem, c, base, n, chain[e..], ps[e..])
  {
    hide SegmentOfWord;
    var (order, qs) := (chain[e..], ps[e..]);
    forall k, w {:trigger qs[k], SegmentOfWord(mem, c, base, w)} |
      0 <= k < |qs| && qs[k].start <= w < qs[k].start + qs[k].len
      ensures SegmentOfWord(mem, c, base, w) == order[k]
    {
      assert qs[k] == ps[e + k] && order[k] == chain[e + k];
    }
  }

  lemma RestOfChain(chain: seq<Segment>, ps: seq<Piece>, base: nat, e: nat)
    requires IsChain(chain, ps, base) && e <= |ps|
    ensures forall i, j :: 0 <= i < j < |chain[e..]| ==> chain[e..][i] != chain[e..][j]
    ensures forall k :: 0 <= k < |chain[e..]| ==>
      && chain[e..][k].code == base + 4 * ps[e..][k].start && chain[e..][k].len == ps[e..][k].len
      && chain[e..][k].kind == ps[e..][k].kind
  {
  }

  /** The segments to translate are those of the partition. */
  lemma OrderIsPieces(mem: MemState, b: Program, base: nat, chain: seq<Segment>, before: int -> Segment?,
                      order: seq<Segment>)
    requires IsSegmented(b) && InOneBlock(mem, base, b.Len()) && IsReady(mem, base, b.code, chain, before, order)
    ensures IsMapOf(mem, mem.Contents(), base, b.Len(), order, b.Segs()) && NoneEmitted(order)
    ensures |order| == |b.Segs()| && forall s :: s in order ==> s in chain
    ensures forall i, j :: 0 <= i < j < |order| ==> order[i] != order[j]
    ensures forall k :: 0 <= k < |order| ==>
      && order[k].code == base + 4 * b.Segs()[k].start && order[k].len == b.Segs()[k].len &&
         order[k].kind == b.Segs()[k].kind
  {
    hide IsSegmented, InOneBlock, IsChain, Cut, BlockLength, AllRecorded, IsFaithful, WordsLeadToSegments;
    hide OnlyWordsLead, IsMapOf;
    var (ps, e) := (Cut(b.code), |Cut(b.code)| - |Pieces(b.code)|);
    SameLength(chain, ps, base);
    RestIsMapped(mem, mem.Contents(), base, b.Len(), chain, ps, e);
    RestOfChain(chain, ps, base, e);
    assert order == chain[e..] && b.Segs() == ps[e..];
  }

  lemma SameLength(chain: seq<Segment>, ps: seq<Piece>, base: nat)
    requires IsChain(chain, ps, base)
    ensures |chain| == |ps|
  {
  }

  /** What EmitChain needs to know of the map: where the branches lead, and that what lies outside the block
      was emitted in front of it. */
  lemma DestinationsAreKnown(mem: MemState, order: seq<Segment>, leaps: seq<Option<Leap>>, unknown: nat, a: nat)
    returns (dests: seq<Segment?>, others: seq<nat>)
    requires |order| == |leaps| && unknown < a
    requires forall k :: 0 <= k < |order| ==>
      var s := Destination(mem, order[k], leaps[k]);
      s != null ==> s.entry < a
    ensures |dests| == |others| == |order| && AreDestinations(mem, order, leaps, dests) &&
      AreEntered(order, dests, others, unknown)
    ensures forall k :: 0 <= k < |others| ==> others[k] < a
  {
    dests := seq(|order|, k requires 0 <= k < |order| reads mem.Tables(), order`code, order`len =>
      Destination(mem, order[k], leaps[k]));
    others := seq(|order|, k requires 0 <= k < |dests| reads dests`entry => EntryOr(dests[k], unknown));
  }

  /** What the branch of segment k leads to has not been emitted, or in front of address a. */
  lemma TargetIsInFront(mem: MemState, b: Program, base: nat, order: seq<Segment>, was: seq<seq<Segment?>>,
                        leaps: seq<Option<Leap>>, k: nat, a: nat)
    requires IsSegmented(b) && InOneBlock(mem, base, b.Len()) &&
      IsMapOf(mem, mem.Contents(), base, b.Len(), order, b.Segs())
    requires NoneEmitted(order) && SaysWhere(b, base, leaps) && k < |order| && leaps[k].Some? && a > 0
    requires order[k].code == base + 4 * b.Segs()[k].start && order[k].len == b.Segs()[k].len
    requires |was| == |mem.blocks| && SameOutside(mem, mem.Contents(), was, base, b.Len()) && AllInFront(was, a)
    ensures Destination(mem, order[k], leaps[k]) == SegmentOfWord(mem, mem.Contents(), base, Goes(b, k).value)
    ensures
      var s := Destination(mem, order[k], leaps[k]);
      s != null ==> s.entry < a
  {
    hide IsSegmented, SameOutside, InOneBlock, AllInFront;
    SegmentBounds(b, k);
    var t := Goes(b, k).value;
    assert LeapAddress(order[k].code + 4 * order[k].len, leaps[k].value) == base + 4 * t;
    if 0 <= t < b.Len() {
      var j := SegmentOf(b, t);
      InSegment(b, t);
      assert SegmentOfWord(mem, mem.Contents(), base, t) == order[j];
    } else {
      OutsideIsUnchanged(mem, mem.Contents(), was, base, b.Len(), b.Len(), t);
      LookIsInTable(mem, was, base + 4 * t, a);
    }
  }

  lemma LookIsInTable(mem: MemState, c: seq<seq<Segment?>>, x: int, a: nat)
    requires |c| == |mem.blocks| && AllInFront(c, a)
    ensures var s := mem.Look(c, x); s != null ==> s.entry < a
  {
    var (s, i) := (mem.Look(c, x), mem.BlockOf(x));
    if s != null {
      assert c[i] in c && s in c[i];
    }
  }

  lemma InSegment(b: Program, t: int)
    requires IsSegmented(b) && 0 <= t < b.Len()
    ensures var p := b.Segs()[SegmentOf(b, t)]; p.start <= t < p.start + p.len
  {
  }

  lemma LayoutIsFound(mem: MemState, c: seq<seq<Segment?>>, b: Program, base: nat, order: seq<Segment>,
                      leaps: seq<Option<Leap>>,
                      parts: seq<Part>, a: nat, dests: seq<Segment?>, others: seq<nat>, targets: seq<nat>, unknown: nat)
    requires IsSegmented(b) && IsMapOf(mem, c, base, b.Len(), order, b.Segs()) && unknown < a
    requires |parts| == |dests| == |others| == |targets| == |leaps| == |b.Segs()|
    requires forall i, j :: 0 <= i < j < |order| ==> order[i] != order[j]
    requires forall k :: 0 <= k < |order| ==> parts[k].code != [] && others[k] < a
    requires forall k :: 0 <= k < |order| ==> (leaps[k].Some? <==> Goes(b, k).Some?)
    requires forall k :: 0 <= k < |order| && leaps[k].Some? ==>
      dests[k] == SegmentOfWord(mem, c, base, Goes(b, k).value)
    requires forall k :: 0 <= k < |order| ==> IsAddress(order, parts, a, k, dests[k], others[k], targets[k], unknown)
    ensures IsLaidOut(b, Layout(EntriesOf(parts, a), unknown, targets))
  {
    hide IsAddress, IsLayout;
    ChainHasLayout(mem, c, base, b.Len(), order, b.Segs(), AllGoes(b), parts, a, dests, others, targets, unknown);
  }

  lemma SupportedStops(b: Program)
    requires IsSupported(b)
    ensures HasShortOffsets(b.code) && 0 < BlockLength(b.code) < 0x4000_0000 && NoFarWrap(b.code, BlockLength(b.code))
    ensures exists i :: 0 <= i < |b.code| && Stops(b.code[i])
  {
    assert Stops(b.code[BlockLength(b.code) - 1]);
  }

  lemma NoTarget(mem: MemState, seg: Segment, leap: Option<Leap>)
    requires leap.None?
    ensures Destination(mem, seg, leap) == null
  {
  }

  /** The segments of a super block whose J has the field index, mapped and ready to be emitted from address a on:
      where their branches lead, and what is entered there. */
  method CompileBlock(b: Program, mem: MemState, base: nat, index: nat, ghost unknown: nat, ghost a: nat,
                      ghost before: int -> Segment?)
    returns (order: seq<Segment>, leaps: seq<Option<Leap>>, ghost dests: seq<Segment?>, ghost others: seq<nat>)
    requires IsCut(b) && InOneBlock(mem, base, b.Len()) && IsJump(b, base, index)
    requires IsFaithful(mem, mem.Contents(), base, b.Len(), before, 0)
    requires forall t :: 0 <= t <= b.Len() ==> before(t) == null
    requires unknown < a && AllInFront(mem.Contents(), a)
    modifies TableOf(mem, base)
    ensures |order| == |leaps| == |dests| == |others| == |b.Segs()| && leaps == Leaps(b, index)
    ensures NoneEmitted(order) && forall s :: s in order ==> fresh(s)
    ensures forall i, j :: 0 <= i < j < |order| ==> order[i] != order[j]
    ensures forall k :: 0 <= k < |order| ==> order[k].kind == b.Segs()[k].kind && others[k] < a
    ensures AreDestinations(mem, order, leaps, dests) && AreEntered(order, dests, others, unknown)
    ensures mem.Valid() && IsMapOf(mem, mem.Contents(), base, b.Len(), order, b.Segs())
    ensures SaysWhere(b, base, leaps)
    ensures forall k :: 0 <= k < |order| && leaps[k].Some? ==>
      dests[k] == SegmentOfWord(mem, mem.Contents(), base, Goes(b, k).value)
  {
    hide IsSegmented, IsReady, IsSupported, AreDestinations, AreEntered;
    hide SameOutside, IsFaithful, IsMapOf, NoFarWrap, AllInFront, Destination;
    ghost var contents := mem.Contents();
    ghost var chain;
    SupportedStops(b);
    LeapsSayWhere(mem, b, base, index);
    leaps := Leaps(b, index);
    var first;
    first, order, chain := CompileCodeAt(mem, base, b.code, before);
    OrderIsPieces(mem, b, base, chain, before, order);
    forall k | 0 <= k < |order|
      ensures leaps[k].Some? ==>
        Destination(mem, order[k], leaps[k]) == SegmentOfWord(mem, mem.Contents(), base, Goes(b, k).value)
      ensures
        var s := Destination(mem, order[k], leaps[k]);
        s != null ==> s.entry < a
    {
      if leaps[k].Some? {
        TargetIsInFront(mem, b, base, order, contents, leaps, k, a);
      } else {
        NoTarget(mem, order[k], leaps[k]);
      }
    }
    dests, others := DestinationsAreKnown(mem, order, leaps, unknown, a);
    DestinationsLead(mem, order, leaps, dests);
  }

  lemma DestinationsLead(mem: MemState, order: seq<Segment>, leaps: seq<Option<Leap>>, dests: seq<Segment?>)
    requires |order| == |leaps| && AreDestinations(mem, order, leaps, dests)
    ensures |dests| == |order| && forall k :: 0 <= k < |order| ==> Destination(mem, order[k], leaps[k]) == dests[k]
  {
    hide Destination;
  }

  /** Compile a super block and emit its segments with their finished lists: the addresses in the branches
      form a layout of the block. */
  method CompileAndEmit(b: Program, mem: MemState, buf: CodeBuffer, base: nat, index: nat, lists: seq<InstrList>,
                        lits: seq<seq<nat>>, encode: (Ins, nat) -> nat, unknown: nat,
                        ghost before: int -> Segment?, ghost parts: seq<Part>)
    returns (order: seq<Segment>, targets: seq<nat>)
    requires IsSupported(b) && IsSegmented(b) && InOneBlock(mem, base, b.Len()) && IsJump(b, base, index)
    requires IsFaithful(mem, mem.Contents(), base, b.Len(), before, 0)
    requires forall t :: 0 <= t <= b.Len() ==> before(t) == null
    requires buf.Valid() && unknown < buf.Address() && AllInFront(mem.Contents(), buf.Address())
    requires |lists| == |lits| == |parts| == |b.Segs()|
    requires forall k :: 0 <= k < |parts| ==> IsFinished(lists[k], parts[k])
    requires forall k :: 0 <= k < |parts| ==>
      parts[k].kind == b.Segs()[k].kind && parts[k].lits == lits[k] && parts[k].code != []
    requires Begin(parts, buf.Address(), |parts|) <= buf.start + 4 * buf.words.Length
    modifies TableOf(mem, base), buf`pos, buf.words
    ensures buf.Valid() && |order| == |targets| == |b.Segs()|
    ensures
      var a := old(buf.Address());
      && buf.words[..buf.pos] == old(buf.words[..buf.pos]) + EmittedAll(encode, parts, a, |parts|)
      && EmittedUpTo(order, parts, a, |order|)
      && IsLaidOut(b, Layout(EntriesOf(parts, a), unknown, targets))
  {
    hide IsSegmented, IsSupported, EmittedAll, EmittedUpTo, IsFinished, Begin, AreDestinations, AreEntered, IsLayout;
    hide IsFaithful, IsMapOf, IsAddress, AllInFront, SaysWhere, NoneEmitted;
    ghost var a := buf.Address();
    ghost var dests, others;
    var leaps;
    order, leaps, dests, others := CompileBlock(b, mem, base, index, unknown, a, before);
    ghost var now := mem.Contents();
    forall k | 0 <= k < |order| ensures fresh(order[k]) {
      assert order[k] in order;
    }
    targets := EmitChain(mem, buf, order, lists, lits, leaps, encode, unknown, parts, dests, others);
    LeapsHaveTargets(b, base, leaps);
    LayoutIsFound(mem, now, b, base, order, leaps, parts, a, dests, others, targets, unknown);
  }

  lemma LeapsHaveTargets(b: Program, base: nat, leaps: seq<Option<Leap>>)
    requires SaysWhere(b, base, leaps)
    ensures |leaps| == |b.Segs()| && forall k :: 0 <= k < |leaps| ==> (leaps[k].Some? <==> Goes(b, k).Some?)
  {
  }
}
