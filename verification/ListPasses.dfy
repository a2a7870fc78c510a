/** InstrFree, Translate_CleanUp and Translate_InterCode_Branch as they run on the linked list,
    proved against the functions of CleanUp and InterCode.
 */
module ListPasses {
  import opened Ir
  import opened CleanUp
  import opened InterCode

  /** The list as items whose branches lead to nodes. */
  ghost function Items(list: InstrList): (c: seq<Item<Instruction>>)
    reads list, list.nodes
    ensures |c| == |list.nodes|
    ensures forall i :: 0 <= i < |c| ==> c[i] == ItemOf(list.nodes[i])
  {
    seq(|list.nodes|, i requires 0 <= i < |list.nodes| reads list, list.nodes => ItemOf(list.nodes[i]))
  }

  ghost function ItemOf(n: Instruction): Item<Instruction>
    reads n`ins, n`branchTo
  {
    if n.branchTo == null then Item(n.ins, n, None)
    else
      var to: Instruction := n.branchTo;
      Item(n.ins, n, Some(to))
  }

  /** The search of InstrFree for the predecessor of node k, which sends branches to the node on
      to its successor. False where the original aborts. */
  method FindPrevious(list: InstrList, ins: Instruction, ghost k: nat) returns (ok: bool, prev: Instruction?)
    requires list.Valid() && 0 < k < |list.nodes| && ins == list.nodes[k]
    modifies list.nodes`branchTo
    ensures list.Valid()
    ensures ok <==> k + 1 < |list.nodes| || !IsTarget(old(Items(list)), ins)
    ensures ok ==> prev == list.nodes[k - 1]
    ensures ok ==>
      Items(list) ==
      if k + 1 < |list.nodes| then RetargetAll(old(Items(list)), ins, list.nodes[k + 1]) else old(Items(list))
  {
    hide Free;
    prev := null;
    var cur := list.head;
    ghost var i: nat := 0;
    while cur != null
      invariant list.Valid() && i <= |list.nodes| && cur == list.NodeAt(i)
      invariant prev == if i >= k then list.nodes[k - 1] else null
      invariant forall j {:trigger list.nodes[j]} :: 0 <= j < |list.nodes| ==>
        list.nodes[j].branchTo ==
        if j < i then Redirected(old(list.nodes[j].branchTo), ins, ins.next) else old(list.nodes[j].branchTo)
      invariant ins.next == null ==> forall j :: 0 <= j < i ==> old(list.nodes[j].branchTo) != ins
      decreases |list.nodes| - i
    {
      if cur.next == ins {
        prev := cur;
      }
      if cur.branchTo == ins {
        if ins.next == null {
          assert old(Items(list))[i].target == Some(ins);
          return false, null;
        }
        cur.branchTo := ins.next;
      }
      cur := cur.next;
      i := i + 1;
    }
    ok := true;
  }

  /** The pointer p after branches to from have been sent to to. */
  function Redirected(p: Instruction?, from: Instruction, to: Instruction?): Instruction? {
    if p == from then to else p
  }

  lemma SelfOf(list: InstrList)
    ensures forall i :: 0 <= i < |list.nodes| ==> Items(list)[i].self == list.nodes[i]
  {
  }

  /** Unlink node k behind the head. */
  method Unlink(list: InstrList, ins: Instruction, ghost k: nat) returns (ok: bool, next: Instruction?)
    requires list.Valid() && 0 < k < |list.nodes| && ins == list.nodes[k]
    modifies list, list.nodes
    ensures ok <==> Free(old(Items(list)), k).Some?
    ensures ok ==> list.Valid() && Items(list) == Free(old(Items(list)), k).value && next == list.NodeAt(k)
    ensures ok ==> list.nodes == old(list.nodes[..k] + list.nodes[k + 1..])
  {
    hide Retarget, RetargetAll, Free, IsTarget, ItemOf;
    ghost var c := Items(list);
    FreeCases(c, k);
    var prev;
    SelfOf(list);
    ok, prev := FindPrevious(list, ins, k);
    if !ok {
      return false, null;
    }
    ghost var d := Items(list);
    list.RemoveAfter(prev, k);
    ItemsWithout(d, Items(list), k);
    next := prev.next;
  }

  /** InstrFree: unlink node k. False where the original aborts. */
  method InstrFree(list: InstrList, ins: Instruction, ghost k: nat) returns (ok: bool, next: Instruction?)
    requires list.Valid() && k < |list.nodes| && ins == list.nodes[k]
    modifies list, list.nodes
    ensures ok <==> Free(old(Items(list)), k).Some?
    ensures ok ==> list.Valid() && Items(list) == Free(old(Items(list)), k).value && next == list.NodeAt(k)
    ensures ok ==> list.nodes == old(list.nodes[..k] + list.nodes[k + 1..])
  {
    hide Free;
    if list.head == ins {
      ghost var c := Items(list);
      FreeCases(c, k);
      list.RemoveHead();
      assert Items(list) == c[1..];
      ok, next := true, list.head;
    } else {
      ok, next := Unlink(list, ins, k);
    }
  }

  lemma FreeCases<T>(c: seq<Item<T>>, k: nat)
    requires k < |c|
    ensures k == 0 ==> Free(c, k) == Some(c[1..])
    ensures 0 < k && k + 1 < |c| ==>
      var d := RetargetAll(c, c[k].self, c[k + 1].self);
      Free(c, k) == Some(d[..k] + d[k + 1..])
    ensures 0 < k && k + 1 == |c| ==>
      Free(c, k) == if IsTarget(c, c[k].self) then None else Some(c[..k] + c[k + 1..])
  {
    if k + 1 == |c| {
      assert c[..k] + c[k + 1..] == c[..k];
    }
  }

  lemma ItemsWithout<T>(d: seq<T>, e: seq<T>, k: nat)
    requires k < |d| && |e| == |d| - 1
    requires forall j :: 0 <= j < k ==> e[j] == d[j]
    requires forall j :: k <= j < |e| ==> e[j] == d[j + 1]
    ensures e == d[..k] + d[k + 1..]
  {
  }

  /** Delete ins, node k, or pass over it. */
  method CleanStep(list: InstrList, ins: Instruction, ghost k: nat)
    returns (ok: bool, next: Instruction?, ghost k': nat)
    requires list.Valid() && k < |list.nodes| && ins == list.nodes[k]
    modifies list, list.nodes
    ensures ok <==> !Removable(old(ins.ins)) || Free(old(Items(list)), k).Some?
    ensures ok ==>
      list.Valid() && k' <= |list.nodes| && next == list.NodeAt(k') && |list.nodes| - k' < |old(list.nodes)| - k
    ensures ok ==> forall n :: n in list.nodes ==> n in old(list.nodes)
    ensures CleanFrom(old(Items(list)), k) == if ok then CleanFrom(Items(list), k') else None
  {
    hide Removable, Free;
    k' := k;
    if Removable(ins.ins) {
      ok, next := InstrFree(list, ins, k);
    } else {
      ok, next := true, ins.next;
      k' := k + 1;
    }
  }

  /** Translate_CleanUp. False where the original aborts. */
  method TranslateCleanUp(list: InstrList) returns (ok: bool)
    requires list.Valid()
    modifies list, list.nodes
    ensures ok <==> Clean(old(Items(list))).Some?
    ensures ok ==> list.Valid() && Items(list) == Clean(old(Items(list))).value
  {
    var ins := list.head;
    ghost var k: nat := 0;
    ok := true;
    while ins != null
      invariant ok && list.Valid() && k <= |list.nodes| && ins == list.NodeAt(k)
      invariant forall n :: n in list.nodes ==> n in old(list.nodes)
      invariant CleanFrom(Items(list), k) == Clean(old(Items(list)))
      decreases |list.nodes| - k
    {
      assert forall i :: 0 <= i < |list.nodes| ==> list.nodes[i] in list.nodes;
      ok, ins, k := CleanStep(list, ins, k);
      if !ok {
        return;
      }
    }
  }

  /** The position of find in the list, or its length. */
  method FindInstructionIndex(list: InstrList, find: Instruction?) returns (index: nat)
    requires list.Valid()
    ensures index == if find == null then |list.nodes| else IndexOf(Items(list), find)
  {
    index := 0;
    var ins := list.head;
    while ins != null && ins != find
      invariant index <= |list.nodes| && ins == list.NodeAt(index)
      invariant forall j :: 0 <= j < index ==> list.nodes[j] != find
      decreases |list.nodes| - index
    {
      index := index + 1;
      ins := ins.next;
    }
    if find != null && index < |list.nodes| {
      IndexOfUnique(Items(list), find, index);
    }
  }

  /** Resolve ins, the node at position index. */
  method ResolveStep(list: InstrList, ins: Instruction, index: nat)
    requires list.Valid() && index < |list.nodes| && ins == list.nodes[index]
    modifies ins`ins
    ensures list.Valid()
    ensures ins.ins == Resolved(old(ins.ins), index, TargetIndex(old(Items(list)), index), ins.branchTo != null)
  {
    hide Resolved, IndexOf;
    var p := FindInstructionIndex(list, ins.branchTo);
    assert Items(list)[index] == ItemOf(ins);
    ins.ins := Resolved(ins.ins, index, p, ins.branchTo != null);
  }

  /** Translate_InterCode_Branch. */
  method TranslateInterCodeBranch(list: InstrList)
    requires list.Valid()
    modifies list.nodes
    ensures list.Valid() && list.nodes == old(list.nodes)
    ensures list.Code() == Resolve(old(Items(list)))
  {
    hide Resolved, IndexOf;
    ghost var c := Items(list);
    var ins := list.head;
    var index := 0;
    while ins != null
      invariant list.Valid() && list.nodes == old(list.nodes) && index <= |list.nodes| && ins == list.NodeAt(index)
      invariant forall j {:trigger list.nodes[j]} :: 0 <= j < |c| ==>
        list.nodes[j].branchTo == old(list.nodes[j].branchTo)
        && list.nodes[j].ins == if j < index then Resolve(c)[j] else c[j].ins
      decreases |list.nodes| - index
    {
      assert c[index] == old(ItemOf(list.nodes[index])) && Items(list)[index] == ItemOf(ins);
      SameIndex(Items(list), c, ins.branchTo);
      ResolveStep(list, ins, index);
      ins := ins.next;
      index := index + 1;
    }
  }

  /** The search depends on the nodes only. */
  lemma {:induction false} SameIndex(c: seq<Item<Instruction>>, d: seq<Item<Instruction>>, n: Instruction?)
    requires |c| == |d| && forall j :: 0 <= j < |c| ==> c[j].self == d[j].self
    ensures n != null ==> IndexOf(c, n) == IndexOf(d, n)
  {
    if c != [] && n != null && c[0].self != n {
      SameIndex(c[1..], d[1..], n);
    }
  }
}
