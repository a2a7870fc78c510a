/** The translation loop of CompileCodeAt: segment after segment, the branch gets the address
    getTgtAddress finds at that time, and emit_arm_code writes the finished code and sets the entry
    point.
 */
module ChainEmission {
  import opened Ir
  import opened Segments
  import opened SegmentMap
  import opened SegmentChain
  import opened Emission
  import opened LiteralPasses
  import opened BranchTargets

  /** The finished list of a segment is the code of a part that is not empty. */
  ghost predicate IsFinished(list: InstrList, p: Part)
    reads list, list.nodes
  {
    list.Valid() && list.Code() == p.code != []
  }

  /** The segments before k have been emitted at the entry points of the parts, the others not. */
  ghost predicate EmittedUpTo(order: seq<Segment>, parts: seq<Part>, base: nat, k: nat)
    requires |order| == |parts|
    reads order
  {
    forall j :: 0 <= j < |order| ==> order[j].entry == if j < k then Entry(parts, base, j) else 0
  }

  /** The address in the branch of segment k, whose target is in segment s: the entry point of an earlier
      segment of the chain, the address for unknown branches if s is one that has not been emitted yet,
      and otherwise other, what the map led to before. */
  ghost predicate IsAddress(order: seq<Segment>, parts: seq<Part>, base: nat, k: nat, s: Segment?, other: nat, a: nat,
                            unknown: nat)
    requires |order| == |parts|
  {
    && (forall j :: 0 <= j < |order| && s == order[j] ==> a == if j < k then Entry(parts, base, j) else unknown)
    && (s !in order ==> a == other)
  }

  /** The segment that holds the target of a segment's branch; one in front of a loop has none. */
  ghost function Destination(mem: MemState, seg: Segment, leap: Option<Leap>): Segment?
    reads mem.Tables(), seg`code, seg`len
  {
    if leap.Some? then mem.SegmentAt(LeapAddress(seg.code + 4 * seg.len, leap.value)) else null
  }

  lemma {:induction false} NothingEmitted(encode: (Ins, nat) -> nat, order: seq<Segment>, parts: seq<Part>, base: nat)
    requires |order| == |parts| && NoneEmitted(order)
    ensures EmittedUpTo(order, parts, base, 0) && EmittedAll(encode, parts, base, 0) == [] &&
      Begin(parts, base, 0) == base
  {
  }

  /** Emit one segment: its words are put behind the ones written, and its entry point is set. */
  method EmitSegment(buf: CodeBuffer, seg: Segment, list: InstrList, lits: seq<nat>, encode: (Ins, nat) -> nat)
    requires buf.Valid() && list.Valid() && list.Code() != []
    requires buf.pos + Part(seg.kind, list.Code(), lits).Length() <= buf.words.Length
    modifies buf`pos, buf.words, seg`entry
    ensures buf.Valid()
    ensures buf.words[..buf.pos] == old(buf.words[..buf.pos])
      + Emitted(encode, seg.kind, list.Code(), lits, old(buf.Address()))
    ensures seg.entry == InstructionAddress(seg.kind, lits, old(buf.Address()), 0)
  {
    EmittedParts(encode, seg.kind, list.Code(), lits, buf.Address());
    seg.entry := EmitArmCode(buf, seg.kind, list, lits, encode);
  }

  /** The address found for segment k when the ones before it have been emitted. */
  lemma AddressIsFound(order: seq<Segment>, parts: seq<Part>, base: nat, k: nat, s: Segment?, other: nat, unknown: nat)
    requires k <= |order| == |parts| && EmittedUpTo(order, parts, base, k) && base > 0
    requires forall i, j :: 0 <= i < j < |order| ==> order[i] != order[j]
    requires forall j :: 0 <= j < |parts| ==> parts[j].code != []
    requires s !in order ==> EntryOr(s, unknown) == other
    ensures IsAddress(order, parts, base, k, s, other, EntryOr(s, unknown), unknown)
  {
    forall j | 0 <= j < |order| && s == order[j]
      ensures EntryOr(s, unknown) == if j < k then Entry(parts, base, j) else unknown
    {
      BeginsAtBase(parts, base, j);
    }
  }

  /** Emit segment k behind the ones before it. */
  method EmitNext(buf: CodeBuffer, order: seq<Segment>, k: nat, list: InstrList, lits: seq<nat>,
                  encode: (Ins, nat) -> nat, ghost parts: seq<Part>, ghost base: nat)
    requires buf.Valid() && k < |order| == |parts| && EmittedUpTo(order, parts, base, k)
    requires forall i, j :: 0 <= i < j < |order| ==> order[i] != order[j]
    requires IsFinished(list, parts[k]) && parts[k].kind == order[k].kind && parts[k].lits == lits
    requires buf.Address() == Begin(parts, base, k) && Begin(parts, base, k + 1) <= buf.start + 4 * buf.words.Length
    modifies buf`pos, buf.words, order`entry
    ensures buf.Valid() && buf.Address() == Begin(parts, base, k + 1) && EmittedUpTo(order, parts, base, k + 1)
    ensures buf.words[..buf.pos] == old(buf.words[..buf.pos])
      + Emitted(encode, parts[k].kind, parts[k].code, parts[k].lits, Begin(parts, base, k))
  {
    hide Emitted;
    EmitSegment(buf, order[k], list, lits, encode);
    EmittedIsLong(encode, parts[k], Begin(parts, base, k));
  }

  lemma EmittedIsLong(encode: (Ins, nat) -> nat, p: Part, address: nat)
    ensures |Emitted(encode, p.kind, p.code, p.lits, address)| == p.Length()
  {
  }

  lemma {:induction false} BeginsIncrease(parts: seq<Part>, base: nat, j: nat, k: nat)
    requires j <= k <= |parts|
    ensures Begin(parts, base, j) <= Begin(parts, base, k)
    decreases k
  {
    if j < k {
      BeginsIncrease(parts, base, j, k - 1);
    }
  }

  /** The segments that hold the targets. */
  ghost predicate AreDestinations(mem: MemState, order: seq<Segment>, leaps: seq<Option<Leap>>, dests: seq<Segment?>)
    requires |order| == |leaps|
    reads mem.Tables(), order`code, order`len
  {
    |dests| == |order| && forall i {:trigger dests[i]} :: 0 <= i < |order| ==>
      Destination(mem, order[i], leaps[i]) == dests[i]
  }

  /** What those outside the chain are entered at. */
  ghost predicate AreEntered(order: seq<Segment>, dests: seq<Segment?>, others: seq<nat>, unknown: nat)
    reads dests`entry
  {
    |others| == |dests| && forall i {:trigger dests[i]} :: 0 <= i < |dests| && dests[i] !in order ==>
      EntryOr(dests[i], unknown) == others[i]
  }

  method FindTarget(mem: MemState, order: seq<Segment>, k: nat, leaps: seq<Option<Leap>>, unknown: nat,
                    ghost parts: seq<Part>,
                    ghost base: nat, ghost dests: seq<Segment?>, ghost others: seq<nat>) returns (target: nat)
    requires mem.Valid() && k < |order| == |parts| == |leaps| && EmittedUpTo(order, parts, base, k) && base > 0
    requires forall i, j :: 0 <= i < j < |order| ==> order[i] != order[j]
    requires forall j :: 0 <= j < |parts| ==> parts[j].code != []
    requires AreDestinations(mem, order, leaps, dests) && AreEntered(order, dests, others, unknown)
    ensures IsAddress(order, parts, base, k, dests[k], others[k], target, unknown)
  {
    hide Entry, IsAddress, EmittedUpTo;
    target := unknown;
    if leaps[k].Some? {
      target := GetTgtAddress(mem, order[k], leaps[k].value, unknown);
    }
    AddressIsFound(order, parts, base, k, dests[k], others[k], unknown);
  }

  /** Translate and emit segment k. */
  method TranslateNext(mem: MemState, buf: CodeBuffer, order: seq<Segment>, k: nat, list: InstrList, lits: seq<nat>,
                       leaps: seq<Option<Leap>>, encode: (Ins, nat) -> nat, unknown: nat, ghost parts: seq<Part>,
                       ghost base: nat, ghost dests: seq<Segment?>, ghost others: seq<nat>) returns (target: nat)
    requires mem.Valid() && buf.Valid() && k < |order| == |parts| == |leaps| && EmittedUpTo(order, parts, base, k) &&
      base > 0
    requires forall i, j :: 0 <= i < j < |order| ==> order[i] != order[j]
    requires (forall j :: 0 <= j < |parts| ==> parts[j].code != []) && AreDestinations(mem, order, leaps, dests) &&
      AreEntered(order, dests, others, unknown)
    requires IsFinished(list, parts[k]) && parts[k].kind == order[k].kind && parts[k].lits == lits
    requires buf.Address() == Begin(parts, base, k) && Begin(parts, base, k + 1) <= buf.start + 4 * buf.words.Length
    modifies buf`pos, buf.words, order`entry
    ensures buf.Valid() && buf.Address() == Begin(parts, base, k + 1) && EmittedUpTo(order, parts, base, k + 1)
    ensures buf.words[..buf.pos] == old(buf.words[..buf.pos])
      + Emitted(encode, parts[k].kind, parts[k].code, parts[k].lits, Begin(parts, base, k))
    ensures AreDestinations(mem, order, leaps, dests) && AreEntered(order, dests, others, unknown)
    ensures IsAddress(order, parts, base, k, dests[k], others[k], target, unknown)
  {
    hide Emitted, Entry, Begin, IsAddress, EmittedUpTo, AreDestinations;
    target := FindTarget(mem, order, k, leaps, unknown, parts, base, dests, others);
    assert forall i :: 0 <= i < |mem.blocks| ==> mem.blocks[i].table as object != buf.words as object;
    assert (buf.words as object) !in mem.Tables();
    EmitNext(buf, order, k, list, lits, encode, parts, base);
  }

  /** Translate and emit the segments in order, each with its finished list. leaps tells how a segment's
      branch says where it leads; targets are the addresses put into the branches. */
  method EmitChain(mem: MemState, buf: CodeBuffer, order: seq<Segment>, lists: seq<InstrList>, lits: seq<seq<nat>>,
                   leaps: seq<Option<Leap>>, encode: (Ins, nat) -> nat, unknown: nat, ghost parts: seq<Part>,
                   ghost dests: seq<Segment?>, ghost others: seq<nat>)
    returns (targets: seq<nat>)
    requires mem.Valid() && buf.Valid() && buf.Address() > 0 && NoneEmitted(order)
    requires |order| == |lists| == |lits| == |leaps| == |parts| == |dests| == |others|
    requires AreDestinations(mem, order, leaps, dests) && AreEntered(order, dests, others, unknown)
    requires forall i, j :: 0 <= i < j < |order| ==> order[i] != order[j]
    requires forall k :: 0 <= k < |parts| ==> IsFinished(lists[k], parts[k])
    requires forall k :: 0 <= k < |parts| ==>
      parts[k].kind == order[k].kind && parts[k].lits == lits[k] && parts[k].code != []
    requires Begin(parts, buf.Address(), |parts|) <= buf.start + 4 * buf.words.Length
    modifies buf`pos, buf.words, order`entry
    ensures buf.Valid() && |targets| == |order|
    ensures
      var base := old(buf.Address());
      && buf.words[..buf.pos] == old(buf.words[..buf.pos]) + EmittedAll(encode, parts, base, |parts|)
      && EmittedUpTo(order, parts, base, |order|)
      && (forall k :: 0 <= k < |order| ==> IsAddress(order, parts, base, k, dests[k], others[k], targets[k], unknown))
  {
    hide Emitted, Entry, Begin, IsAddress, EmittedUpTo, IsFinished, AreDestinations, AreEntered;
    targets := [];
    ghost var base, before := buf.Address(), buf.words[..buf.pos];
    NothingEmitted(encode, order, parts, base);
    assert before + [] == before;
    assert |dests| == |others| == |order|;
    for k := 0 to |order|
      invariant |targets| == k && |dests| == |others| == |order| && buf.Valid() && EmittedUpTo(order, parts, base, k)
      invariant buf.words[..buf.pos] == before + EmittedAll(encode, parts, base, k)
      invariant buf.Address() == Begin(parts, base, k) && AreDestinations(mem, order, leaps, dests) &&
        AreEntered(order, dests, others, unknown)
      invariant forall i :: k <= i < |parts| ==> IsFinished(lists[i], parts[i]) && parts[i].kind == order[i].kind
      invariant forall i :: 0 <= i < k ==> IsAddress(order, parts, base, i, dests[i], others[i], targets[i], unknown)
    {
      BeginsIncrease(parts, base, k + 1, |parts|);
      var a := TranslateNext(mem, buf, order, k, lists[k], lits[k], leaps, encode, unknown, parts, base, dests, others);
      targets := targets + [a];
    }
  }

  // ---------------------------------------------------------------------------------------
  // The layout of a super block

  function EntriesOf(parts: seq<Part>, base: nat): (entries: seq<nat>)
    ensures |entries| == |parts| && forall k :: 0 <= k < |entries| ==> entries[k] == Entry(parts, base, k)
  {
    seq(|parts|, k requires 0 <= k < |parts| => Entry(parts, base, k))
  }

  /** The map of the block leads each word to its segment, and no other word to one of them. */
  ghost predicate IsMapOf(mem: MemState, c: seq<seq<Segment?>>, base: nat, n: nat, order: seq<Segment>, ps: seq<Piece>)
  {
    && |c| == |mem.blocks| && |order| == |ps|
    && WordsLeadToSegments(mem, c, base, order, ps) && OnlyWordsLead(mem, c, base, n, order)
  }

  /** What EmitChain leaves is a layout of the block, when all that was emitted before and the code for
      unknown branches lie in front of it. */
  lemma ChainHasLayout(mem: MemState, c: seq<seq<Segment?>>, base: nat, n: nat, order: seq<Segment>, ps: seq<Piece>,
                       goes: seq<Option<int>>, parts: seq<Part>, start: nat, dests: seq<Segment?>, others: seq<nat>,
                       targets: seq<nat>, unknown: nat)
    requires Covers(ps, 0, n) && IsMapOf(mem, c, base, n, order, ps)
    requires |parts| == |goes| == |dests| == |others| == |targets| == |ps| && unknown < start
    requires forall i, j :: 0 <= i < j < |order| ==> order[i] != order[j]
    requires forall k :: 0 <= k < |ps| ==> parts[k].code != [] && others[k] < start
    requires forall k :: 0 <= k < |ps| && goes[k].Some? ==> dests[k] == SegmentOfWord(mem, c, base, goes[k].value)
    requires forall k :: 0 <= k < |ps| ==> IsAddress(order, parts, start, k, dests[k], others[k], targets[k], unknown)
    ensures IsLayout(ps, n, goes, Layout(EntriesOf(parts, start), unknown, targets))
  {
    hide Entry;
    var lay := Layout(EntriesOf(parts, start), unknown, targets);
    forall j | 0 <= j < |ps| ensures lay.entries[j] >= start {
      EntryIsBehind(parts, start, j);
    }
    forall i, j | 0 <= i < j < |ps| ensures lay.entries[i] != lay.entries[j] {
      EntriesIncrease(parts, start, i, j);
    }
    forall k | 0 <= k < |ps| && goes[k].Some?
      ensures
        var t := goes[k].value;
        if 0 <= t < n then targets[k] == BlockTarget(ps, n, lay, k, t) else targets[k] !in lay.entries
    {
      var t := goes[k].value;
      assert dests[k] == SegmentOfWord(mem, c, base, t);
      if 0 <= t < n {
        var j := PieceAt(ps, 0, n, t);
        assert ps[j].start <= t < ps[j].start + ps[j].len;
        assert dests[k] == order[j];
      }
    }
  }

  lemma EntryIsBehind(parts: seq<Part>, base: nat, k: nat)
    requires k < |parts|
    ensures Entry(parts, base, k) >= base
  {
    BeginsAtBase(parts, base, k);
  }
}
