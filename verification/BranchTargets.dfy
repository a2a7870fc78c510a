/** Where the branch out of a segment goes: getTgtAddress looks up the segment that holds the target
    and takes its ARM entry point, if it has been emitted already. That is the code of the first
    word of that segment, whichever of its words is the target.
 */
module BranchTargets {
  import opened Ir
  import opened Bits
  import opened Segments
  import opened SegmentMap

  /** How a segment says where it leads: an offset counted from its end, or the index field of J. */
  datatype Leap = ByOffset(offset: int) | ByIndex(index: nat)

  const REGION: nat := 0x1000_0000

  /** The address getTgtAddress or getTgtJAddress looks up for a segment that ends at an address. */
  function LeapAddress(end: nat, leap: Leap): nat {
    match leap
    case ByOffset(offset) => (end + 4 * offset) % WORD
    case ByIndex(index) => ((end + 4) / REGION * REGION + 4 * index) % WORD
  }

  /** MIPS IV Instruction Set, section A: J keeps the upper bits of the address of its delay slot, which
      is the word behind the segment. */
  function JumpAddress(end: nat, index: nat): nat {
    (end / REGION * REGION + 4 * index) % WORD
  }

  /** J is looked up at its target unless its delay slot is the last word of a region of 2^28 bytes. */
  lemma JumpKeepsRegion(end: nat, index: nat)
    requires end % 4 == 0 && end + 4 < WORD && index < 0x400_0000
    ensures LeapAddress(end, ByIndex(index)) == JumpAddress(end, index) <==> end % REGION != REGION - 4
  {
    var (q, r) := (end / REGION, end % REGION);
    assert end == q * REGION + r && q < 16;
    if r == REGION - 4 {
      assert (end + 4) / REGION == q + 1;
    } else {
      assert (end + 4) / REGION == q;
    }
  }

  /** A branch is looked up at its target as long as that is in the address space. */
  lemma OffsetLeadsToTarget(base: nat, end: nat, offset: int)
    requires 0 <= base + 4 * (end + offset) < WORD
    ensures LeapAddress(base + 4 * end, ByOffset(offset)) == base + 4 * (end + offset)
  {
  }

  /** The entry point of a segment, or the address of the code that handles unknown branches. */
  function EntryOr(s: Segment?, unknown: nat): nat
    reads (if s == null then {} else {s})`entry
  {
    if s != null && s.entry != 0 then s.entry else unknown
  }

  /** getTgtAddress and getTgtJAddress. */
  method GetTgtAddress(mem: MemState, seg: Segment, leap: Leap, unknown: nat) returns (a: nat)
    requires mem.Valid()
    ensures a == EntryOr(mem.SegmentAt(LeapAddress(seg.code + 4 * seg.len, leap)), unknown)
  {
    var s := mem.GetSegmentAt(LeapAddress(seg.code + 4 * seg.len, leap));
    a := if s != null && s.entry != 0 then s.entry else unknown;
  }

  // ---------------------------------------------------------------------------------------
  // The branches of a super block

  /** The entry points of the segments of a super block, the address of the code for unknown branches,
      and the address each segment's branch goes to. */
  datatype Layout = Layout(entries: seq<nat>, unknown: nat, targets: seq<nat>)

  /** The segment entered at an address, or the number of segments. */
  function EntryAt(entries: seq<nat>, a: nat): (j: nat)
    ensures j <= |entries| && (j < |entries| ==> entries[j] == a)
    ensures forall i :: 0 <= i < j ==> entries[i] != a
  {
    if entries == [] || entries[0] == a then 0 else EntryAt(entries[1..], a) + 1
  }

  /** The address for a branch of segment k to word t of the block: segments are translated in order, so
      that those in front have an entry point. */
  function BlockTarget(ps: seq<Piece>, n: nat, lay: Layout, k: nat, t: int): nat
    requires Covers(ps, 0, n) && 0 <= t < n && |lay.entries| == |ps|
  {
    var j := PieceAt(ps, 0, n, t);
    if j < k then lay.entries[j] else lay.unknown
  }

  /** goes[k] is the word segment k branches to, relative to the block. Entry points are distinct, and
      neither the code for unknown branches nor what lies outside the block is entered through one. */
  ghost predicate IsLayout(ps: seq<Piece>, n: nat, goes: seq<Option<int>>, lay: Layout)
    requires Covers(ps, 0, n)
  {
    && |lay.entries| == |lay.targets| == |goes| == |ps|
    && (forall i, j :: 0 <= i < j < |ps| ==> lay.entries[i] != lay.entries[j])
    && lay.unknown !in lay.entries
    && (forall k :: 0 <= k < |ps| && goes[k].Some? ==>
        var t := goes[k].value;
        if 0 <= t < n then lay.targets[k] == BlockTarget(ps, n, lay, k, t) else lay.targets[k] !in lay.entries)
  }

  lemma EntryIsFound(ps: seq<Piece>, n: nat, goes: seq<Option<int>>, lay: Layout, j: nat)
    requires Covers(ps, 0, n) && IsLayout(ps, n, goes, lay) && j < |ps|
    ensures EntryAt(lay.entries, lay.entries[j]) == j
  {
  }

  /** The word whose code an address enters. */
  function WordEntered(ps: seq<Piece>, lay: Layout, a: nat): Option<int>
    requires |lay.entries| == |ps|
  {
    var j := EntryAt(lay.entries, a);
    if j < |ps| then Some(ps[j].start) else None
  }

  /** A branch of segment k to word t of the block reaches t if and only if t is the first word of an
      earlier segment. Inside an earlier segment it reaches that segment's first word instead; a later
      segment, or the segment itself, has no entry point yet. */
  lemma BranchReachesTarget(ps: seq<Piece>, n: nat, goes: seq<Option<int>>, lay: Layout, k: nat)
    requires Covers(ps, 0, n) && IsLayout(ps, n, goes, lay) && k < |ps| && goes[k].Some? && 0 <= goes[k].value < n
    ensures
      var (t, j) := (goes[k].value, PieceAt(ps, 0, n, goes[k].value));
      && WordEntered(ps, lay, lay.targets[k]) == (if j < k then Some(ps[j].start) else None)
      && (WordEntered(ps, lay, lay.targets[k]) == Some(t) <==> j < k && ps[j].start == t)
  {
    var j := PieceAt(ps, 0, n, goes[k].value);
    if j < k {
      EntryIsFound(ps, n, goes, lay, j);
    } else {
      assert EntryAt(lay.entries, lay.unknown) == |ps|;
    }
  }

  /** A super block with a branch into the middle of an earlier segment. */
  const INTO_MIDDLE: seq<MipsWord> :=
    [Plain, Plain, Branch(5), Plain, Plain, Plain, Plain, Branch(-7), Plain, Jump(false)]

  lemma IntoMiddleIsCut()
    ensures HasShortOffsets(INTO_MIDDLE) && BlockLength(INTO_MIDDLE) == 10 && NoWrap(INTO_MIDDLE, 10, 0)
    ensures Pieces(INTO_MIDDLE)
      == [Piece(0, 3, Start, Some(5)), Piece(3, 5, Sandwich, Some(-4)), Piece(8, 2, End, None)]
  {
    hide BlockLength;
    var code := INTO_MIDDLE;
    BlockEndsAt(code, 10);
    assert CutFrom(code, 10, 8, 8) == CutFrom(code, 10, 9, 8) == [Piece(8, 2, End, None)];
    assert CutFrom(code, 10, 7, 3) == [Piece(3, 5, Sandwich, Some(-4)), Piece(8, 2, End, None)];
    assert CutFrom(code, 10, 5, 3) == CutFrom(code, 10, 6, 3) == CutFrom(code, 10, 7, 3);
    assert CutFrom(code, 10, 3, 3) == CutFrom(code, 10, 4, 3) == CutFrom(code, 10, 5, 3);
    assert CutFrom(code, 10, 2, 0) ==
      [Piece(0, 3, Start, Some(5)), Piece(3, 5, Sandwich, Some(-4)), Piece(8, 2, End, None)];
    assert CutFrom(code, 10, 0, 0) == CutFrom(code, 10, 1, 0) == CutFrom(code, 10, 2, 0);
  }

  lemma {:induction false} BlockEndsAt(code: seq<MipsWord>, n: nat)
    requires 0 < n <= |code| && code[n - 1] == Jump(false) && forall i :: 0 <= i < n - 1 ==> !Stops(code[i])
    ensures BlockLength(code) == n
    decreases n
  {
    if n > 1 {
      BlockEndsAt(code[1..], n - 1);
    }
  }

  /** The branch at word 7 leads to word 1, and the address in it enters word 0. */
  lemma BranchIntoMiddle(goes: seq<Option<int>>, lay: Layout)
    requires
      var ps := Pieces(INTO_MIDDLE);
      Covers(ps, 0, 10) && IsLayout(ps, 10, goes, lay) && goes[1] == Some(7 + 1 - 7)
    ensures Covers(Pieces(INTO_MIDDLE), 0, 10)
    ensures WordEntered(Pieces(INTO_MIDDLE), lay, lay.targets[1]) == Some(0)
  {
    hide Pieces;
    IntoMiddleIsCut();
    BranchReachesTarget(Pieces(INTO_MIDDLE), 10, goes, lay, 1);
  }
}
