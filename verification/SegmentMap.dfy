/** The map from addresses to segments: blocks of memory with a table entry for each word. */
module SegmentMap {
  import opened Segments

  /** A compiled stretch of MIPS code. entry is its ARM entry point, 0 until it is emitted; dead is
      set when the segment has been freed. */
  class Segment {
    var code: nat
    var len: nat
    var kind: SegType
    var continueNext: Segment?
    var branchNext: Segment?
    var callers: seq<Segment>
    var entry: nat
    ghost var dead: bool

    constructor ()
      ensures code == 0 && len == 0 && kind == Alone && continueNext == null && branchNext == null
      ensures callers == [] && entry == 0 && !dead
    {
      code, len, kind, continueNext, branchNext, callers, entry, dead := 0, 0, Alone, null, null, [], 0, false;
    }
  }

  /** A block of memory and its table, which the source makes four times as long as it needs. */
  datatype Block = Block(address: nat, size: nat, table: array<Segment?>)
  {
    predicate Contains(a: int) {
      address <= a < address + size
    }

    function Slot(a: nat): nat
      requires Contains(a)
    {
      (a - address) / 4
    }
  }

  class MemState {
    const blocks: seq<Block>

    /** Tables are long enough and not shared, and blocks do not overlap. */
    ghost predicate Valid() {
      && (forall i :: 0 <= i < |blocks| ==> blocks[i].table.Length == blocks[i].size)
      && (forall i, j :: 0 <= i < j < |blocks| ==> blocks[i].table != blocks[j].table)
      && (forall i, j, a :: 0 <= i < j < |blocks| && blocks[i].Contains(a) ==> !blocks[j].Contains(a))
    }

    ghost function Tables(): set<object> {
      set i | 0 <= i < |blocks| :: blocks[i].table
    }

    /** initMemState: empty tables for the given blocks. */
    constructor (ranges: seq<(nat, nat)>)
      requires forall i, j :: 0 <= i < j < |ranges| ==>
        ranges[i].0 + ranges[i].1 <= ranges[j].0 || ranges[j].0 + ranges[j].1 <= ranges[i].0
      ensures Valid() && fresh(Tables())
      ensures |blocks| == |ranges| && forall i :: 0 <= i < |ranges| ==>
        blocks[i].address == ranges[i].0 && blocks[i].size == ranges[i].1
      ensures forall a :: SegmentAt(a) == null
    {
      var bs: seq<Block> := [];
      for i := 0 to |ranges|
        invariant |bs| == i && forall j :: 0 <= j < i ==>
          && bs[j].address == ranges[j].0 && bs[j].size == ranges[j].1 && bs[j].table.Length == bs[j].size
          && fresh(bs[j].table) && forall s :: 0 <= s < bs[j].size ==> bs[j].table[s] == null
        invariant forall j, k :: 0 <= j < k < i ==> bs[j].table != bs[k].table
      {
        var table := new Segment?[ranges[i].1](_ => null);
        bs := bs + [Block(ranges[i].0, ranges[i].1, table)];
      }
      blocks := bs;
    }

    /** The first block that contains the address, or the number of blocks. */
    function BlockOf(a: int): (i: nat)
      ensures i <= |blocks| && (i < |blocks| ==> blocks[i].Contains(a))
      ensures forall j :: 0 <= j < i ==> !blocks[j].Contains(a)
    {
      FirstContaining(blocks, a)
    }

    /** The contents of the tables. */
    ghost function Contents(): (c: seq<seq<Segment?>>)
      reads Tables()
      ensures |c| == |blocks| && forall i :: 0 <= i < |blocks| ==> c[i] == blocks[i].table[..]
    {
      seq(|blocks|, i requires 0 <= i < |blocks| reads Tables() =>
        assert blocks[i].table in Tables(); blocks[i].table[..])
    }

    /** What tables with the given contents say about the word at an address. */
    ghost function Look(c: seq<seq<Segment?>>, a: int): Segment?
      requires |c| == |blocks|
    {
      var i := BlockOf(a);
      if i < |blocks| && blocks[i].Slot(a) < |c[i]| then c[i][blocks[i].Slot(a)] else null
    }

    /** What the map says about the word at an address. */
    ghost function SegmentAt(a: int): Segment?
      reads Tables()
    {
      Look(Contents(), a)
    }

    method GetSegmentAt(a: nat) returns (s: Segment?)
      requires Valid()
      ensures s == SegmentAt(a)
    {
      for x := 0 to |blocks|
        invariant forall j :: 0 <= j < x ==> !blocks[j].Contains(a)
      {
        if blocks[x].Contains(a) {
          assert BlockOf(a) == x;
          return blocks[x].table[blocks[x].Slot(a)];
        }
      }
      s := null;
    }

    /** setMemState: length table entries from the one of address a on. False where the original
        aborts: the address is in no block. */
    method SetMemState(a: nat, length: nat, s: Segment?) returns (ok: bool)
      requires Valid()
      requires BlockOf(a) < |blocks| ==> blocks[BlockOf(a)].Slot(a) + length <= blocks[BlockOf(a)].size
      modifies if BlockOf(a) < |blocks| then {blocks[BlockOf(a)].table} else {}
      ensures ok <==> BlockOf(a) < |blocks|
      ensures ok ==>
        var b := blocks[BlockOf(a)];
        forall j :: 0 <= j < b.size ==> b.table[j] == if b.Slot(a) <= j < b.Slot(a) + length then s else old(b.table[j])
    {
      var x := 0;
      while x < |blocks| && !blocks[x].Contains(a)
        invariant x <= BlockOf(a)
      {
        x := x + 1;
      }
      ok := x < |blocks|;
      if ok {
        var b := blocks[x];
        for i := 0 to length
          invariant forall j :: 0 <= j < b.size ==>
            b.table[j] == if b.Slot(a) <= j < b.Slot(a) + i then s else old(b.table[j])
        {
          b.table[b.Slot(a) + i] := s;
        }
      }
    }
  }

  function FirstContaining(bs: seq<Block>, a: int): (i: nat)
    ensures i <= |bs| && (i < |bs| ==> bs[i].Contains(a))
    ensures forall j :: 0 <= j < i ==> !bs[j].Contains(a)
  {
    if bs == [] || bs[0].Contains(a) then 0 else FirstContaining(bs[1..], a) + 1
  }
}
