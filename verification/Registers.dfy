/** Translate_Registers and its helpers as they run on the linked list of a segment, proved
    against the functions of RegisterAllocation.
 */
module Registers {
  import opened Ir
  import opened RegisterAllocation
  import opened RegisterCaching

  /** The distance to the next use of reg behind ins, which is node k of the list. */
  method FindRegNextUsedAgain(list: InstrList, ins: Instruction, ghost k: nat, reg: Reg) returns (d: int)
    requires list.Valid() && k < |list.nodes| && ins == list.nodes[k]
    ensures d == NextUse(list.Code(), k + 1, reg, 0)
  {
    var cur := ins.next;
    var x := 0;
    while cur != null && cur.ins.what.op != IntBranch
      invariant k + 1 + x <= |list.nodes| && cur == list.NodeAt(k + 1 + x)
      invariant NextUse(list.Code(), k + 1, reg, 0) == NextUse(list.Code(), k + 1 + x, reg, x)
      decreases |list.nodes| - x
    {
      if cur.ins.Reads(reg) {
        return x;
      }
      if x > 0 && cur.ins.Overwrites(reg) {
        return -1;
      }
      x := x + 1;
      cur := cur.next;
    }
    d := -2;
  }

  /** Rename from to to in ins, which is node k of the list, and in everything behind it. */
  method UpdateRegWithReg(list: InstrList, ins: Instruction, ghost k: nat, from: Reg, to: Reg)
    requires list.Valid() && k < |list.nodes| && ins == list.nodes[k]
    modifies list.nodes
    ensures list.Valid() && list.nodes == old(list.nodes)
    ensures list.Code() == Renamed(old(list.Code()), k, from, to)
  {
    var cur: Instruction? := ins;
    ghost var i := k;
    ghost var was := list.Code();
    while cur != null
      invariant k <= i <= |list.nodes| && cur == list.NodeAt(i)
      invariant list.Valid() && list.nodes == old(list.nodes)
      invariant forall j :: 0 <= j < |list.nodes| ==>
        list.nodes[j].ins == if k <= j < i then RenamedIns(was[j], from, to) else was[j]
      decreases |list.nodes| - i
    {
      cur.ins := RenamedIns(cur.ins, from, to);
      cur := cur.next;
      i := i + 1;
    }
  }

  /** Move on to the first host register that is free behind ins; false when every one is in
      use and the original would abort. */
  method GetNextRegister(list: InstrList, ins: Instruction, ghost k: nat, start: nat) returns (ok: bool, idx: nat)
    requires list.Valid() && k < |list.nodes| && ins == list.nodes[k] && start < |AVAILABLE|
    ensures Probe(list.Code(), k, start, 0) == if ok then Some(idx) else None
    ensures idx < |AVAILABLE|
  {
    idx := start;
    ghost var tried := 0;
    while true
      invariant tried < |AVAILABLE| && idx == Round(start, tried)
      invariant Probe(list.Code(), k, start, 0) == Probe(list.Code(), k, start, tried)
      decreases |AVAILABLE| - tried
    {
      var d := FindRegNextUsedAgain(list, ins, k, Candidate(idx));
      if d < 0 {
        return true, idx;
      }
      idx := idx + 1;
      if idx >= |AVAILABLE| {
        idx := 0;
      }
      if idx == start {
        return false, idx;
      }
      tried := tried + 1;
    }
  }

  /** Visit one register field of ins. */
  method TranslateField(list: InstrList, ins: Instruction, ghost k: nat, reg: Reg, ghost f: nat, idx: nat)
    returns (ok: bool, next: nat)
    requires list.Valid() && k < |list.nodes| && ins == list.nodes[k] && idx < |AVAILABLE|
    requires f < 6 && reg == Field(ins.ins, f)
    modifies list.nodes
    ensures list.Valid() && list.nodes == old(list.nodes) && next < |AVAILABLE|
    ensures VisitField(Progress(old(list.Code()), idx), k, f) ==
            if ok then Some(Progress(list.Code(), next)) else None
  {
    ok, next := true, idx;
    if reg < REG_HOST {
      if reg < REG_TEMP || reg > REG_TEMP_SCRATCH3 {
        UpdateRegWithReg(list, ins, k, reg, Candidate(idx));
        ok, next := GetNextRegister(list, ins, k, idx);
      } else {
        UpdateRegWithReg(list, ins, k, reg, REG_HOST + reg - REG_TEMP);
      }
    }
  }

  /** Visit the six register fields of ins in turn. */
  method TranslateIns(list: InstrList, ins: Instruction, ghost k: nat, idx: nat)
    returns (ok: bool, next: nat)
    requires list.Valid() && k < |list.nodes| && ins == list.nodes[k] && idx < |AVAILABLE|
    modifies list.nodes
    ensures list.Valid() && list.nodes == old(list.nodes) && next < |AVAILABLE|
    ensures VisitIns(Progress(old(list.Code()), idx), k, 0) ==
            if ok then Some(Progress(list.Code(), next)) else None
  {
    ok, next := true, idx;
    ghost var start := Progress(list.Code(), idx);
    for f := 0 to 6
      invariant list.Valid() && list.nodes == old(list.nodes) && next < |AVAILABLE| && ok
      invariant VisitIns(start, k, 0) == VisitIns(Progress(list.Code(), next), k, f)
    {
      ok, next := TranslateField(list, ins, k, Field(ins.ins, f), f, next);
      if !ok {
        return;
      }
    }
  }

  /** Translate_Registers: replace every emulated register of a non-empty segment by a host
      register; false when the original would abort for want of one. */
  method TranslateRegisters(list: InstrList) returns (ok: bool)
    requires list.Valid() && list.head != null
    modifies list.nodes
    ensures list.Valid() && list.nodes == old(list.nodes)
    ensures Allocate(old(list.Code())) == if ok then Some(list.Code()) else None
  {
    hide VisitIns, Probe;
    var ins := list.head;
    var idx: nat;
    ok, idx := GetNextRegister(list, list.head, 0, 0);
    if !ok {
      return;
    }
    ghost var k: nat := 0;
    ghost var was := list.Code();
    while ins != null
      invariant k <= |list.nodes| && ins == list.NodeAt(k) && ok && idx < |AVAILABLE|
      invariant list.Valid() && list.nodes == old(list.nodes)
      invariant Allocate(was) == VisitFrom(Progress(list.Code(), idx), k)
      decreases |list.nodes| - k
    {
      ok, idx := TranslateIns(list, ins, k, idx);
      if !ok {
        return;
      }
      ins := ins.next;
      k := k + 1;
    }
  }

  // ---------------------------------------------------------------------------------------
  // Translate_LoadCachedRegisters

  /** The registers marked in RegLoaded. */
  ghost function Marked(flags: seq<bool>): (s: set<Reg>)
    requires |flags| == REG_TEMP
    ensures forall r: Reg :: r in s <==> r < REG_TEMP && flags[r]
  {
    set r: Reg | 0 <= r < REG_TEMP && flags[r]
  }

  /** Overwrite ins, node k, by a load of r and put a copy of it behind. */
  method LoadBefore(list: InstrList, ins: Instruction, ghost k: nat, r: Reg) returns (copy: Instruction)
    requires list.Valid() && k < |list.nodes| && ins == list.nodes[k] && r < REG_TEMP
    modifies list`nodes, ins
    ensures list.Valid() && fresh(copy) && list.nodes == Inserted(old(list.nodes), k + 1, copy)
    ensures list.Code() == Inserted(old(list.Code())[k := LoadIns(old(ins.ins), r)], k + 1, old(ins.ins))
  {
    var x, target := ins.ins, ins.branchTo;
    copy := list.InsertAfter(ins, k, x);
    copy.branchTo := target;
    ins.ins := LoadIns(x, r);
  }

  /** Load one source register of ins unless it is loaded already. */
  method LoadSource(list: InstrList, ins: Instruction, ghost k: nat, r: Reg, loaded: array<bool>)
    returns (cur: Instruction, ghost j: nat)
    requires list.Valid() && k < |list.nodes| && ins == list.nodes[k] && loaded.Length == REG_TEMP
    modifies list`nodes, ins, loaded
    ensures list.Valid() && j < |list.nodes| && cur == list.nodes[j] && cur.ins == old(ins.ins)
    ensures cur == ins || fresh(cur)
    ensures forall n :: n in list.nodes ==> n in old(list.nodes) || fresh(n)
    ensures var load := r < REG_TEMP && !old(loaded[..])[r];
      && list.Code()[..j] == old(list.Code())[..k] + (if load then [LoadIns(old(ins.ins), r)] else [])
      && list.Code()[j + 1..] == old(list.Code())[k + 1..]
      && Marked(loaded[..]) == Marked(old(loaded[..])) + IfEmulated(r)
  {
    cur, j := ins, k;
    if r < REG_TEMP && !loaded[r] {
      cur := LoadBefore(list, ins, k, r);
      j := k + 1;
      loaded[r] := true;
    }
  }

  lemma LoadsForStep(x: Ins, rs: seq<Reg>, f: nat, marked: set<Reg>)
    requires f < |rs|
    ensures LoadsFor(x, rs[f..], marked) ==
      (if rs[f] < REG_TEMP && rs[f] !in marked then [LoadIns(x, rs[f])] else [])
      + LoadsFor(x, rs[f + 1..], marked + IfEmulated(rs[f]))
    ensures SourceSet(rs[f..]) == IfEmulated(rs[f]) + SourceSet(rs[f + 1..])
  {
    assert rs[f..][1..] == rs[f + 1..];
    if rs[f] < REG_TEMP && rs[f] !in marked {
    } else {
      assert marked + IfEmulated(rs[f]) == marked;
    }
  }

  /** Load the source registers of ins in turn. */
  method LoadSources(list: InstrList, ins: Instruction, ghost k: nat, loaded: array<bool>)
    returns (cur: Instruction, ghost j: nat)
    requires list.Valid() && k < |list.nodes| && ins == list.nodes[k] && loaded.Length == REG_TEMP
    modifies list`nodes, ins, loaded
    ensures list.Valid() && j < |list.nodes| && cur == list.nodes[j] && cur.ins == old(ins.ins)
    ensures forall n :: n in list.nodes ==> n in old(list.nodes) || fresh(n)
    ensures list.Code()[..j] == old(list.Code())[..k]
      + LoadsFor(old(ins.ins), Sources(old(ins.ins)), Marked(old(loaded[..])))
    ensures list.Code()[j + 1..] == old(list.Code())[k + 1..]
    ensures Marked(loaded[..]) == Marked(old(loaded[..])) + SourceSet(Sources(old(ins.ins)))
  {
    hide LoadsFor, SourceSet, IfEmulated, LoadIns;
    cur, j := ins, k;
    var rs := Sources(ins.ins);
    ghost var x, marked := ins.ins, Marked(loaded[..]);
    for f := 0 to 4
      invariant list.Valid() && j < |list.nodes| && cur == list.nodes[j] && cur.ins == x
      invariant cur == ins || fresh(cur)
      invariant forall n :: n in list.nodes ==> n in old(list.nodes) || fresh(n)
      invariant list.Code()[..j] + LoadsFor(x, rs[f..], Marked(loaded[..])) == old(list.Code())[..k]
        + LoadsFor(x, rs, marked)
      invariant list.Code()[j + 1..] == old(list.Code())[k + 1..]
      invariant Marked(loaded[..]) + SourceSet(rs[f..]) == marked + SourceSet(rs)
    {
      ghost var done, m := list.Code()[..j], Marked(loaded[..]);
      LoadsForStep(x, rs, f, m);
      Associate(done, if rs[f] < REG_TEMP && rs[f] !in m then [LoadIns(x, rs[f])] else [],
                LoadsFor(x, rs[f + 1..], m + IfEmulated(rs[f])));
      cur, j := LoadSource(list, cur, j, rs[f], loaded);
    }
    assert rs[4..] == [];
    NoSources(x, Marked(loaded[..]));
    assert list.Code()[..j] + [] == list.Code()[..j];
  }

  lemma NoSources(x: Ins, marked: set<Reg>)
    ensures LoadsFor(x, [], marked) == [] && SourceSet([]) == {}
  {
  }

  lemma LoadCachedFirst(c: seq<Ins>, k: nat, marked: set<Reg>)
    requires k < |c|
    ensures LoadCached(c[k..], marked) ==
      LoadsFor(c[k], Sources(c[k]), marked) + [c[k]]
      + LoadCached(c[k + 1..], marked + SourceSet(Sources(c[k])) + IfEmulated(c[k].rd1) + IfEmulated(c[k].rd2))
  {
    EmulatedParts(c[k]);
    assert c[k..][1..] == c[k + 1..];
    assert marked + SourceSet(Sources(c[k])) + IfEmulated(c[k].rd1) + IfEmulated(c[k].rd2) == marked + Emulated(c[k]);
  }

  method MarkLoaded(loaded: array<bool>, r: Reg)
    requires loaded.Length == REG_TEMP
    modifies loaded
    ensures Marked(loaded[..]) == Marked(old(loaded[..])) + IfEmulated(r)
  {
    if r < REG_TEMP {
      loaded[r] := true;
    }
  }

  /** The list c, loaded up to instruction k, becomes d, loaded up to j + 1, when the loads for
      instruction k are put in front of it. */
  lemma LoadStepCode(c: seq<Ins>, k: nat, d: seq<Ins>, j: nat, marked: set<Reg>, marked': set<Reg>)
    requires k < |c| && j < |d| && d[j] == c[k] && d[j + 1..] == c[k + 1..]
    requires d[..j] == c[..k] + LoadsFor(c[k], Sources(c[k]), marked)
    requires marked' == marked + SourceSet(Sources(c[k])) + IfEmulated(c[k].rd1) + IfEmulated(c[k].rd2)
    ensures d[..j + 1] + LoadCached(d[j + 1..], marked') == c[..k] + LoadCached(c[k..], marked)
  {
    hide LoadsFor, LoadCached, SourceSet, Sources;
    var loads, tail := LoadsFor(c[k], Sources(c[k]), marked), LoadCached(d[j + 1..], marked');
    LoadCachedFirst(c, k, marked);
    assert d[..j + 1] == c[..k] + loads + [c[k]];
    AssociateFour(c[..k], loads, [c[k]], tail);
  }

  /** Load the sources of ins and mark its destinations. */
  method LoadStep(list: InstrList, ins: Instruction, ghost k: nat, loaded: array<bool>)
    returns (next: Instruction?, ghost j: nat)
    requires list.Valid() && k < |list.nodes| && ins == list.nodes[k] && loaded.Length == REG_TEMP
    modifies list`nodes, ins, loaded
    ensures list.Valid() && j <= |list.nodes| && next == list.NodeAt(j)
    ensures |list.nodes| - j == |old(list.nodes)| - k - 1
    ensures forall n :: n in list.nodes ==> n in old(list.nodes) || fresh(n)
    ensures list.Code()[..j] + LoadCached(list.Code()[j..], Marked(loaded[..])) ==
            old(list.Code())[..k] + LoadCached(old(list.Code())[k..], Marked(old(loaded[..])))
  {
    hide LoadsFor, LoadCached, SourceSet, Sources, IfEmulated;
    var cur;
    cur, j := LoadSources(list, ins, k, loaded);
    next := cur.next;
    ghost var d := list.Code();
    assert d[j + 1..] == old(list.Code())[k + 1..];
    MarkLoaded(loaded, cur.ins.rd1);
    MarkLoaded(loaded, cur.ins.rd2);
    LoadStepCode(old(list.Code()), k, d, j, Marked(old(loaded[..])), Marked(loaded[..]));
    assert list.Code() == d;
    j := j + 1;
  }

  method TranslateLoadCachedRegisters(list: InstrList)
    requires list.Valid()
    modifies list`nodes, list.nodes
    ensures list.Valid()
    ensures list.Code() == LoadCached(old(list.Code()), {})
  {
    var loaded := new bool[REG_TEMP](_ => false);
    var ins := list.head;
    ghost var k: nat := 0;
    assert Marked(loaded[..]) == {};
    assert list.Code()[..0] == [] && list.Code()[0..] == list.Code();
    while ins != null
      invariant k <= |list.nodes| && ins == list.NodeAt(k) && list.Valid()
      invariant forall n :: n in list.nodes ==> n in old(list.nodes) || fresh(n)
      invariant list.Code()[..k] + LoadCached(list.Code()[k..], Marked(loaded[..])) == LoadCached(old(list.Code()), {})
      decreases |list.nodes| - k
    {
      assert ins in list.nodes;
      ins, k := LoadStep(list, ins, k, loaded);
    }
  }

  // ---------------------------------------------------------------------------------------
  // Translate_StoreCachedRegisters

  /** Is reg named by an unconditional instruction behind ins, node k of the list? */
  method FindRegNextUpdated(list: InstrList, ins: Instruction, ghost k: nat, reg: Reg) returns (d: int)
    requires list.Valid() && k < |list.nodes| && ins == list.nodes[k]
    ensures d == if NextUpdated(list.Code()[k + 1..], reg) then -1 else -2
  {
    var cur := ins.next;
    ghost var i := k + 1;
    while cur != null
      invariant i <= |list.nodes| && cur == list.NodeAt(i)
      invariant NextUpdated(list.Code()[k + 1..], reg) == NextUpdated(list.Code()[i..], reg)
      decreases |list.nodes| - i
    {
      assert list.Code()[i..][1..] == list.Code()[i + 1..];
      if cur.ins.Overwrites(reg) {
        return -1;
      }
      cur := cur.next;
      i := i + 1;
    }
    d := -2;
  }

  lemma {:induction false} NextUseSuffix(c: seq<Ins>, k: nat, i: nat, r: Reg, x: nat)
    requires k + i <= |c|
    ensures NextUse(c, k + i, r, x) == NextUse(c[k..], i, r, x)
    decreases |c| - k - i
  {
    if k + i < |c| {
      assert c[k..][i] == c[k + i];
      NextUseSuffix(c, k, i + 1, r, x + 1);
    }
  }

  /** Put a store of r behind cur, node k, when store holds. */
  method StoreBehind(list: InstrList, cur: Instruction, ghost k: nat, r: Reg, store: bool)
    returns (last: Instruction, ghost j: nat)
    requires list.Valid() && k < |list.nodes| && cur == list.nodes[k] && (store ==> r < REG_TEMP)
    modifies list`nodes, cur`next
    ensures list.Valid() && j < |list.nodes| && last == list.nodes[j]
    ensures last == cur || fresh(last)
    ensures forall n :: n in list.nodes ==> n in old(list.nodes) || fresh(n)
    ensures list.Code()[..j + 1] == old(list.Code())[..k + 1] + if store then [StoreIns(r)] else []
    ensures list.Code()[j + 1..] == old(list.Code())[k + 1..]
  {
    last, j := cur, k;
    if store {
      last := list.InsertAfter(cur, k, StoreIns(r));
      j := k + 1;
    }
  }

  /** The store for the first destination. */
  method StoreFirst(list: InstrList, ins: Instruction, ghost k: nat) returns (last: Instruction, ghost j: nat)
    requires list.Valid() && k < |list.nodes| && ins == list.nodes[k]
    modifies list`nodes, ins`next
    ensures list.Valid() && j < |list.nodes| && last == list.nodes[j]
    ensures last == ins || fresh(last)
    ensures forall n :: n in list.nodes ==> n in old(list.nodes) || fresh(n)
    ensures var x := old(ins.ins); var rest := old(list.Code())[k + 1..];
      && list.Code()[..j + 1] == old(list.Code())[..k + 1]
          + (if x.rd1 < REG_TEMP && !IsFileLoad(x) && !NextUpdated(rest, x.rd1) then [StoreIns(x.rd1)] else [])
      && list.Code()[j + 1..] == rest
  {
    hide NextUpdated, IsFileLoad, StoreIns;
    var x, store := ins.ins, false;
    if x.rd1 < REG_TEMP && !IsFileLoad(x) {
      var d := FindRegNextUpdated(list, ins, k, x.rd1);
      store := d == -2;
    }
    last, j := StoreBehind(list, ins, k, x.rd1, store);
  }

  /** The store for the second destination, behind cur. */
  method StoreSecond(list: InstrList, cur: Instruction, ghost k: nat, x: Ins) returns (last: Instruction, ghost j: nat)
    requires list.Valid() && k < |list.nodes| && cur == list.nodes[k]
    modifies list`nodes, cur`next
    ensures list.Valid() && j < |list.nodes| && last == list.nodes[j]
    ensures forall n :: n in list.nodes ==> n in old(list.nodes) || fresh(n)
    ensures var rest := old(list.Code())[k + 1..];
      && list.Code()[..j + 1] == old(list.Code())[..k + 1]
          + (if x.rd2 < REG_TEMP && !IsFileLoad(x) && NextUse(rest, 0, x.rd2, 0) == -2 then [StoreIns(x.rd2)] else [])
      && list.Code()[j + 1..] == rest
  {
    hide NextUse, IsFileLoad, StoreIns;
    var store := false;
    if x.rd2 < REG_TEMP && !IsFileLoad(x) {
      var d := FindRegNextUsedAgain(list, cur, k, x.rd2);
      NextUseSuffix(list.Code(), k + 1, 0, x.rd2, 0);
      store := d == -2;
    }
    last, j := StoreBehind(list, cur, k, x.rd2, store);
  }

  /** Put the stores for the destinations of ins behind it. */
  method StoreStep(list: InstrList, ins: Instruction, ghost k: nat) returns (next: Instruction?, ghost j: nat)
    requires list.Valid() && k < |list.nodes| && ins == list.nodes[k]
    modifies list`nodes, ins`next
    ensures list.Valid() && j <= |list.nodes| && next == list.NodeAt(j)
    ensures forall n :: n in list.nodes ==> n in old(list.nodes) || fresh(n)
    ensures list.Code()[..j] == old(list.Code())[..k + 1] + StoresFor(old(ins.ins), old(list.Code())[k + 1..])
    ensures list.Code()[j..] == old(list.Code())[k + 1..]
  {
    hide NextUpdated, NextUse, IsFileLoad, StoreIns;
    var x := ins.ins;
    var cur;
    cur, j := StoreFirst(list, ins, k);
    cur, j := StoreSecond(list, cur, j, x);
    next := cur.next;
    j := j + 1;
  }

  method TranslateStoreCachedRegisters(list: InstrList)
    requires list.Valid()
    modifies list`nodes, list.nodes
    ensures list.Valid()
    ensures list.Code() == StoreCached(old(list.Code()))
  {
    hide StoresFor, StoreCached;
    var ins := list.head;
    ghost var k: nat := 0;
    assert list.Code()[..0] == [] && list.Code()[0..] == list.Code();
    while ins != null
      invariant k <= |list.nodes| && ins == list.NodeAt(k) && list.Valid()
      invariant forall n :: n in list.nodes ==> n in old(list.nodes) || fresh(n)
      invariant list.Code()[..k] + StoreCached(list.Code()[k..]) == StoreCached(old(list.Code()))
      decreases |list.Code()[k..]|
    {
      assert ins in list.nodes;
      ghost var done, x, rest := list.Code()[..k], ins.ins, list.Code()[k + 1..];
      StoreOne(x, rest);
      assert list.Code()[k..] == [x] + rest;
      assert list.Code()[..k + 1] == done + [x];
      AssociateFour(done, [x], StoresFor(x, rest), StoreCached(rest));
      ins, k := StoreStep(list, ins, k);
    }
    NothingToStore();
    assert list.Code()[k..] == [] && list.Code()[..k] + [] == list.Code();
  }

  lemma NothingToStore()
    ensures StoreCached([]) == []
  {
  }
}
