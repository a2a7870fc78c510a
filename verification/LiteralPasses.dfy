/** addLiteral, Translate_Literals and emit_arm_code on the objects they work on.
 */
module LiteralPasses {
  import opened Ir
  import opened Segments
  import opened Literals
  import opened Emission

  /** The words below the frame pointer: slot x is the word at fp - 4x. */
  class LiteralPool {
    var table: array<nat>
    var count: nat

    ghost predicate Valid()
      reads this
    {
      table.Length == SLOTS + 1 && count <= SLOTS
    }

    ghost function Value(): (g: Pool)
      reads this, table
      requires Valid()
      ensures |g.slots| == SLOTS + 1 && g.count <= SLOTS
    {
      Pool(table[..], count)
    }

    constructor ()
      ensures Valid() && fresh(table) && IsPool(Value()) && Value().count == 0
    {
      table := new nat[SLOTS + 1](_ => 0);
      count := 0;
    }
  }

  /** The literals of one segment, in the order they were added. */
  class SegmentLiterals {
    const kind: SegType
    var values: seq<nat>

    constructor (kind: SegType)
      ensures this.kind == kind && values == []
    {
      this.kind, values := kind, [];
    }
  }

  /** addLiteral. The result is false where the original aborts. */
  method AddLiteral(pool: LiteralPool, seg: SegmentLiterals, value: nat) returns (ok: bool, place: Place)
    requires pool.Valid()
    modifies pool, pool.table, seg
    ensures pool.Valid() && pool.table == old(pool.table)
    ensures Literals.AddLiteral(old(pool.Value()), seg.kind, old(seg.values), value) ==
      if ok then Some(Added(pool.Value(), seg.values, place)) else None
  {
    ghost var g := pool.Value();
    var x := 1;
    while x < SLOTS
      invariant 1 <= x <= SLOTS && FindSlot(g.slots, value, 1) == FindSlot(g.slots, value, x)
    {
      if pool.table[x] == value {
        return true, Global(x, false);
      }
      x := x + 1;
    }
    if seg.kind == Sandwich {
      if pool.count >= SLOTS {
        return false, Local(0);
      }
      pool.count := pool.count + 1;
      pool.table[pool.count] := value;
      return true, Global(pool.count, true);
    }
    var offset := AddToSegment(seg, value);
    return true, Local(offset);
  }

  /** The part of addLiteral for a segment's own literals. */
  method AddToSegment(seg: SegmentLiterals, value: nat) returns (offset: nat)
    modifies seg
    ensures (seg.values, offset) == AddLocal(old(seg.values), value)
  {
    if seg.values == [] {
      assert [] + [value] == [value];
      seg.values := [value];
      return 0;
    }
    var index, nxt := 4, 0;
    while nxt + 1 < |seg.values|
      invariant nxt < |seg.values| && index == 4 * (nxt + 1)
      invariant forall q :: 0 <= q < nxt ==> seg.values[q] != value
    {
      if seg.values[nxt] == value {
        break;
      }
      index := index + 4;
      nxt := nxt + 1;
    }
    offset := index;
    if seg.values[nxt] != value {
      seg.values := seg.values + [value];
    }
  }

  /** Translate_Literals for a segment of the given kind with count literals. */
  method TranslateLiterals(list: InstrList, kind: SegType, literals: seq<nat>)
    requires list.Valid()
    modifies list.nodes
    ensures list.Valid() && list.nodes == old(list.nodes)
    ensures list.Code() == Displace(kind, old(list.Code()), |literals|)
  {
    hide Displaced;
    var len := ListLength(list);
    var ins := list.head;
    ghost var c := list.Code();
    var x := 0;
    while ins != null
      invariant list.Valid() && list.nodes == old(list.nodes) && x <= |list.nodes| && ins == list.NodeAt(x)
      invariant forall j {:trigger list.nodes[j]} :: 0 <= j < |c| ==>
        list.nodes[j].ins == if j < x then Displace(kind, c, |literals|)[j] else c[j]
      decreases |list.nodes| - x
    {
      ins.ins := Displaced(kind, ins.ins, x, len, |literals|);
      ins := ins.next;
      x := x + 1;
    }
  }

  method ListLength(list: InstrList) returns (len: nat)
    requires list.Valid()
    ensures len == |list.nodes|
  {
    len := 0;
    var ins := list.head;
    while ins != null
      invariant len <= |list.nodes| && ins == list.NodeAt(len)
      decreases |list.nodes| - len
    {
      ins := ins.next;
      len := len + 1;
    }
  }

  /** The output buffer: words from address start on, of which the first pos are written. */
  class CodeBuffer {
    const start: nat
    const words: array<nat>
    var pos: nat

    ghost predicate Valid()
      reads this
    {
      pos <= words.Length
    }

    /** The address of the next word. */
    function Address(): nat
      reads this
    {
      start + 4 * pos
    }

    method Write(w: nat)
      requires Valid() && pos < words.Length
      modifies this`pos, words
      ensures Valid() && pos == old(pos) + 1 && words[..pos] == old(words[..pos]) + [w]
    {
      words[pos] := w;
      pos := pos + 1;
    }

    method WriteAll(ws: seq<nat>)
      requires Valid() && pos + |ws| <= words.Length
      modifies this`pos, words
      ensures Valid() && pos == old(pos) + |ws| && words[..pos] == old(words[..pos]) + ws
    {
      for i := 0 to |ws|
        invariant Valid() && pos == old(pos) + i && words[..pos] == old(words[..pos]) + ws[..i]
      {
        assert ws[..i + 1] == ws[..i] + [ws[i]];
        Write(ws[i]);
      }
    }
  }

  /** emit_arm_code: the words of a segment at the next address; returns its entry point. */
  method EmitArmCode(buf: CodeBuffer, kind: SegType, list: InstrList, lits: seq<nat>, encode: (Ins, nat) -> nat)
    returns (entry: nat)
    requires buf.Valid() && list.Valid()
    requires buf.pos + |Emitted(encode, kind, list.Code(), lits, buf.Address())| <= buf.words.Length
    modifies buf`pos, buf.words
    ensures buf.Valid()
    ensures buf.words[..buf.pos] == old(buf.words[..buf.pos])
      + Emitted(encode, kind, list.Code(), lits, old(buf.Address()))
    ensures list.Code() != [] ==> entry == InstructionAddress(kind, lits, old(buf.Address()), 0)
  {
    hide CodeWords, Emitted;
    ghost var (c, address, before) := (list.Code(), buf.Address(), buf.words[..buf.pos]);
    EmittedParts(encode, kind, c, lits, address);
    entry := buf.Address();
    if list.head == null {
      assert c == [] && before + [] == before;
      return;
    }
    ghost var lead := LeadingLiterals(kind, lits);
    if kind == Start || kind == Alone {
      buf.WriteAll(lits);
    }
    assert buf.words[..buf.pos] == before + lead && buf.Address() == address + 4 * |lead|;
    entry := buf.Address();
    ghost var code := CodeWords(encode, c, entry);
    EmitCode(buf, list, encode, code);
    assert c != [];
    if kind == End {
      buf.WriteAll(lits);
    }
    AssociateFour(before, lead, code, TrailingLiterals(kind, lits));
  }

  lemma EmittedParts(encode: (Ins, nat) -> nat, kind: SegType, c: seq<Ins>, lits: seq<nat>, address: nat)
    ensures
      var lead := LeadingLiterals(kind, lits);
      var words := Emitted(encode, kind, c, lits, address);
      && (c == [] ==> words == [])
      && (c != [] ==> words == lead + CodeWords(encode, c, address + 4 * |lead|) + TrailingLiterals(kind, lits)
                      && |words| == |lead| + |c| + |TrailingLiterals(kind, lits)|)
  {
  }

  /** The instructions of the list, encoded where they come to lie. */
  method EmitCode(buf: CodeBuffer, list: InstrList, encode: (Ins, nat) -> nat, ghost code: seq<nat>)
    requires buf.Valid() && list.Valid() && code == CodeWords(encode, list.Code(), buf.Address())
    requires buf.pos + |code| <= buf.words.Length
    modifies buf`pos, buf.words
    ensures buf.Valid() && buf.pos == old(buf.pos) + |code|
    ensures buf.words[..buf.pos] == old(buf.words[..buf.pos]) + code
  {
    var ins := list.head;
    ghost var i: nat := 0;
    while ins != null
      invariant buf.Valid() && i <= |list.nodes| && ins == list.NodeAt(i) && buf.pos == old(buf.pos) + i
      invariant buf.words[..buf.pos] == old(buf.words[..buf.pos]) + code[..i]
      decreases |list.nodes| - i
    {
      assert code[..i + 1] == code[..i] + [code[i]];
      buf.Write(encode(ins.ins, buf.Address()));
      ins := ins.next;
      i := i + 1;
    }
    assert code[..i] == code;
  }
}
