/** Translate_Branch on the linked list of a segment.
 */
module BranchPass {
  import opened Ir
  import opened Segments
  import opened BranchConditions
  import opened DelaySlots

  /** The node a branch leads to. */
  ghost function TargetNode(nodes: seq<Instruction>, to: Option<nat>): Instruction? {
    if to.Some? && to.value < |nodes| then nodes[to.value] else null
  }

  /** The pointers of the branches. */
  ghost function Pointers(nodes: seq<Instruction>): (p: seq<Instruction?>)
    reads nodes
    ensures |p| == |nodes| && forall i :: 0 <= i < |p| ==> p[i] == nodes[i].branchTo
  {
    seq(|nodes|, i requires 0 <= i < |nodes| reads nodes => nodes[i].branchTo)
  }

  /** Nodes with the given instructions and pointers form the nodes c. */
  ghost predicate AreNodes(nodes: seq<Instruction>, code: seq<Ins>, pointers: seq<Instruction?>, c: seq<Node>) {
    && |nodes| == |code| == |pointers| == |c|
    && (forall i {:trigger c[i]} :: 0 <= i < |c| ==>
        && code[i] == c[i].ins && pointers[i] == TargetNode(nodes, c[i].to)
        && (c[i].to.Some? ==> c[i].to.value < |c|))
  }

  /** The list consists of the nodes c, with branches as pointers. */
  ghost predicate HasNodes(list: InstrList, c: seq<Node>)
    reads list, list.nodes
  {
    AreNodes(list.nodes, list.Code(), Pointers(list.nodes), c)
  }

  /** The nodes c with a new one at position k; branches to nodes behind it move along. */
  function Put(c: seq<Node>, k: nat, n: Node): (d: seq<Node>)
    requires k <= |c|
    ensures |d| == |c| + 1
  {
    seq(|c| + 1, i requires 0 <= i <= |c| => if i < k then Moved(c[i], k) else if i == k then n else Moved(c[i - 1], k))
  }

  function Moved(n: Node, k: nat): Node {
    if n.to.Some? && n.to.value >= k then n.(to := Some(n.to.value + 1)) else n
  }

  lemma PutIsNodes(nodes: seq<Instruction>, code: seq<Ins>, pointers: seq<Instruction?>, c: seq<Node>,
                   k: nat, n: Instruction, x: Node, pointer: Instruction?)
    requires AreNodes(nodes, code, pointers, c) && k <= |c|
    requires x.to.Some? ==> x.to.value <= |c|
    requires pointer == TargetNode(Inserted(nodes, k, n), x.to)
    ensures AreNodes(Inserted(nodes, k, n), Inserted(code, k, x.ins), Inserted(pointers, k, pointer), Put(c, k, x))
  {
    hide TargetNode, Moved, Inserted;
    var d := Put(c, k, x);
    forall i {:trigger d[i]} | 0 <= i < |d|
      ensures Inserted(code, k, x.ins)[i] == d[i].ins
      ensures Inserted(pointers, k, pointer)[i] == TargetNode(Inserted(nodes, k, n), d[i].to)
      ensures d[i].to.Some? ==> d[i].to.value < |d|
    {
      if i != k {
        TargetMoves(nodes, k, n, c[if i < k then i else i - 1]);
      }
    }
  }

  lemma TargetMoves(nodes: seq<Instruction>, k: nat, n: Instruction, x: Node)
    requires k <= |nodes| && (x.to.Some? ==> x.to.value < |nodes|)
    ensures TargetNode(Inserted(nodes, k, n), Moved(x, k).to) == TargetNode(nodes, x.to)
    ensures Moved(x, k).ins == x.ins && (Moved(x, k).to.Some? ==> Moved(x, k).to.value < |nodes| + 1)
  {
  }

  /** Put a new node behind cur, node k, with a branch to target, the node at position to of the
      new list, or to nothing. */
  method AddNode(list: InstrList, cur: Instruction, ghost k: nat, x: Ins, target: Instruction?, ghost to: Option<nat>,
                 ghost c: seq<Node>)
    returns (n: Instruction)
    requires list.Valid() && HasNodes(list, c) && k < |list.nodes| && cur == list.nodes[k]
    requires to == None ==> target == null
    requires to.Some? ==>
      to.value <= |c| && to.value != k + 1 && target == list.nodes[if to.value <= k then to.value else to.value - 1]
    modifies list`nodes, cur`next
    ensures list.Valid() && fresh(n) && list.nodes == Inserted(old(list.nodes), k + 1, n)
    ensures HasNodes(list, Put(c, k + 1, Node(x, to)))
  {
    assert |c| == |list.nodes|;
    hide AreNodes, Put, Inserted, HasNodes, Pointers, TargetNode;
    ghost var (nodes, code, pointers) := (list.nodes, list.Code(), Pointers(list.nodes));
    NodesOf(list, c);
    n := InsertPlain(list, cur, k, x);
    Point(list, n, k + 1, target);
    NewPointer(nodes, pointers, k + 1, n, target, to);
    PutIsNodes(nodes, code, pointers, c, k + 1, n, Node(x, to), target);
    NodesOf(list, Put(c, k + 1, Node(x, to)));
  }

  lemma NewPointer(nodes: seq<Instruction>, pointers: seq<Instruction?>, k: nat, n: Instruction, target: Instruction?,
                   to: Option<nat>)
    requires |nodes| == |pointers| && k <= |nodes| && (to == None ==> target == null)
    requires to.Some? ==>
      to.value <= |nodes| && to.value != k && target == nodes[if to.value < k then to.value else to.value - 1]
    ensures Inserted(pointers, k, null)[k := target] == Inserted(pointers, k, target)
    ensures target == TargetNode(Inserted(nodes, k, n), to)
  {
  }

  lemma NodesOf(list: InstrList, c: seq<Node>)
    ensures HasNodes(list, c) <==> AreNodes(list.nodes, list.Code(), Pointers(list.nodes), c)
  {
  }

  /** A new node without a branch. */
  method InsertPlain(list: InstrList, cur: Instruction, ghost k: nat, x: Ins) returns (n: Instruction)
    requires list.Valid() && k < |list.nodes| && cur == list.nodes[k]
    modifies list`nodes, cur`next
    ensures list.Valid() && fresh(n) && list.nodes == Inserted(old(list.nodes), k + 1, n)
    ensures list.Code() == Inserted(old(list.Code()), k + 1, x)
    ensures Pointers(list.nodes) == Inserted(old(Pointers(list.nodes)), k + 1, null)
  {
    hide Inserted;
    n := list.InsertAfter(cur, k, x);
  }

  /** Let node n, node i, branch to a target. */
  method Point(list: InstrList, n: Instruction, ghost i: nat, target: Instruction?)
    requires list.Valid() && i < |list.nodes| && n == list.nodes[i]
    modifies n`branchTo
    ensures list.Valid() && list.Code() == old(list.Code())
    ensures Pointers(list.nodes) == old(Pointers(list.nodes))[i := target]
  {
    n.branchTo := target;
  }

  /** ADD_LL_NEXT behind cur, node k. */
  method AddNext(list: InstrList, cur: Instruction, ghost k: nat, x: Ins, ghost c: seq<Node>) returns (n: Instruction)
    requires list.Valid() && HasNodes(list, c) && k < |list.nodes| && cur == list.nodes[k]
    modifies list`nodes, cur`next
    ensures list.Valid() && fresh(n) && list.nodes == Inserted(old(list.nodes), k + 1, n)
    ensures HasNodes(list, Put(c, k + 1, Node(x, None)))
  {
    n := AddNode(list, cur, k, x, null, None, c);
  }

  /** Overwrite the instruction of cur, node k. */
  method Overwrite(list: InstrList, cur: Instruction, ghost k: nat, x: Ins, ghost c: seq<Node>)
    requires list.Valid() && HasNodes(list, c) && k < |list.nodes| && cur == list.nodes[k]
    modifies cur`ins
    ensures list.Valid() && HasNodes(list, c[k := c[k].(ins := x)])
  {
    cur.ins := x;
  }

  // ---------------------------------------------------------------------------------------
  // Adding at the end

  /** Branches stay inside the nodes. */
  predicate IsClosed(c: seq<Node>) {
    forall i :: 0 <= i < |c| && c[i].to.Some? ==> c[i].to.value < |c|
  }

  lemma PutAtEnd(c: seq<Node>, n: Node)
    requires IsClosed(c)
    ensures Put(c, |c|, n) == c + [n]
  {
  }

  /** Put an instruction behind the last node. */
  method Append(list: InstrList, cur: Instruction, x: Ins, ghost c: seq<Node>) returns (n: Instruction)
    requires list.Valid() && HasNodes(list, c) && c != [] && cur == list.nodes[|c| - 1]
    modifies list`nodes, cur`next
    ensures list.Valid() && fresh(n) && list.nodes == old(list.nodes) + [n]
    ensures HasNodes(list, c + [Node(x, None)])
  {
    NodesAreClosed(list, c);
    n := AddNext(list, cur, |c| - 1, x, c);
    PutAtEnd(c, Node(x, None));
    assert list.nodes == old(list.nodes) + [n];
  }

  lemma NodesAreClosed(list: InstrList, c: seq<Node>)
    requires HasNodes(list, c)
    ensures IsClosed(c) && |c| == |list.nodes|
  {
    assert forall i :: 0 <= i < |c| ==> c[i].to.Some? ==> c[i].to.value < |c|;
  }

  /** Put the nodes that leave the segment behind the last one. */
  method AppendLeave(list: InstrList, cur: Instruction, cond: Cond, loops: bool, exit: Exit, ghost c: seq<Node>)
    returns (n: Instruction)
    requires list.Valid() && HasNodes(list, c) && |c| > 1 && cur == list.nodes[|c| - 1]
    modifies list`nodes, cur`next
    ensures list.Valid() && fresh(n) && |list.nodes| > |c| && list.nodes[..|c|] == old(list.nodes)
    ensures n == list.nodes[|list.nodes| - 1]
    ensures HasNodes(list, c + Leave(cond, loops, exit))
  {
    hide HasNodes, Put, Blank, LoadSegment, SaveAddress, BranchTo;
    NodesAreClosed(list, c);
    if loops {
      n := AddNode(list, cur, |c| - 1, Blank(IntBranch, cond), list.head, Some(0), c);
      PutAtEnd(c, Node(Blank(IntBranch, cond), Some(0)));
    } else {
      n := Append(list, cur, LoadSegment(exit), c);
      ghost var c1 := c + [Node(LoadSegment(exit), None)];
      n := Append(list, n, SaveAddress(), c1);
      ghost var c2 := c1 + [Node(SaveAddress(), None)];
      n := Append(list, n, BranchTo(cond, exit.address), c2);
      assert c2 + [Node(BranchTo(cond, exit.address), None)] == c + Leave(cond, loops, exit);
    }
  }

  // ---------------------------------------------------------------------------------------
  // The pass
  /** The nodes on entry: the instructions of the segment, the branch last. */
  function EntryNodes(body: seq<Ins>, x: Ins): seq<Node> {
    BodyNodes(body) + [Node(x, None)]
  }

  /** The nodes once the first instruction is skipped with the flag set; the target is the second
      of the old nodes. */
  function SkippedNodes(kind: SegType, body: seq<Ins>, x: Ins): seq<Node>
    requires body != []
  {
    if Skips(kind, body[0]) then
      [Node(TestFlag(), None), Node(Blank(IntBranch, NE), Some(3))] + EntryNodes(body, x)
    else EntryNodes(body, x)
  }

  /** A node without a branch in front of nodes without branches. */
  lemma PrefixIsNodes(nodes: seq<Instruction>, code: seq<Ins>, pointers: seq<Instruction?>, c: seq<Node>,
                      n: Instruction, x: Ins)
    requires AreNodes(nodes, code, pointers, c) && forall i :: 0 <= i < |c| ==> c[i].to == None
    ensures AreNodes([n] + nodes, [x] + code, [null] + pointers, [Node(x, None)] + c)
  {
    var d := [Node(x, None)] + c;
    forall i {:trigger d[i]} | 0 <= i < |d|
      ensures ([x] + code)[i] == d[i].ins && ([null] + pointers)[i] == TargetNode([n] + nodes, d[i].to)
    {
      if i > 0 {
        assert d[i] == c[i - 1];
      }
    }
  }

  /** Put a new instruction in front of nodes without branches. */
  method AddHead(list: InstrList, x: Ins, ghost c: seq<Node>) returns (n: Instruction)
    requires list.Valid() && HasNodes(list, c) && forall i :: 0 <= i < |c| ==> c[i].to == None
    modifies list
    ensures list.Valid() && fresh(n) && list.nodes == [n] + old(list.nodes)
    ensures HasNodes(list, [Node(x, None)] + c)
  {
    hide AreNodes;
    ghost var (nodes, code, pointers) := (list.nodes, list.Code(), Pointers(list.nodes));
    n := list.InsertHead(x);
    assert list.Code() == [x] + code;
    assert Pointers(list.nodes) == [null] + pointers;
    PrefixIsNodes(nodes, code, pointers, c, n, x);
  }

  lemma SkippedFromEntry(kind: SegType, body: seq<Ins>, x: Ins)
    requires body != []
    ensures
      var c := [Node(TestFlag(), None)] + EntryNodes(body, x);
      && |c| == |body| + 2 && IsClosed(EntryNodes(body, x)) && EntryNodes(body, x)[0] == Node(body[0], None)
      && (forall i :: 0 <= i < |body| + 1 ==> EntryNodes(body, x)[i].to == None)
      && (Skips(kind, body[0]) ==> Put(c, 1, Node(Blank(IntBranch, NE), Some(3))) == SkippedNodes(kind, body, x))
  {
    hide TestFlag, Blank, Skips, Put;
    var c := [Node(TestFlag(), None)] + EntryNodes(body, x);
    var n := Node(Blank(IntBranch, NE), Some(3));
    PutBefore(c, 1, n);
    assert c[..1] + [n] == [Node(TestFlag(), None), n] && c[1..] == EntryNodes(body, x);
  }

  /** Put the flag test in front of the list where it is needed; returns the node to go on from. */
  method SkipFirst(list: InstrList, kind: SegType, ghost body: seq<Ins>, ghost x: Ins)
    returns (cur: Instruction, ghost k: nat)
    requires list.Valid() && body != [] && HasNodes(list, EntryNodes(body, x))
    modifies list
    ensures list.Valid() && HasNodes(list, SkippedNodes(kind, body, x))
    ensures forall n :: n in list.nodes ==> n in old(list.nodes) || fresh(n)
    ensures k == (if Skips(kind, body[0]) then 1 else 0) && cur == list.nodes[k]
  {
    k := 0;
    cur := list.head;
    ghost var c := EntryNodes(body, x);
    SkippedFromEntry(kind, body, x);
    assert list.nodes[0].ins == list.Code()[0] == body[0];
    if (kind == Sandwich || kind == End) && !IsNop(cur.ins) {
      hide TestFlag, Blank, HasNodes, EntryNodes, Put, SkippedNodes;
      NodesAreClosed(list, c);
      ghost var nodes := list.nodes;
      cur := AddHead(list, TestFlag(), c);
      var second := cur.next.next;
      assert second == list.nodes[2];
      cur := AddNode(list, cur, 0, Blank(IntBranch, NE), second, Some(3), [Node(TestFlag(), None)] + c);
      k := 1;
    }
  }

  lemma FrontParts(front: seq<Node>, n: Node, m: Node)
    ensures (front + [n])[|front| := m] == front + [m]
  {
  }

  /** The end of a segment with a jump: control is the node of the jump. */
  method EndJump(list: InstrList, control: Instruction, x: Ins, exit: Exit, ghost front: seq<Node>)
    requires list.Valid() && HasNodes(list, front + [Node(x, None)]) && control == list.nodes[|front|] && front != []
    modifies list`nodes, control
    ensures list.Valid()
    ensures
      var bic := InstrI(x, ArmBic, AL, REG_EMU_FLAGS, REG_EMU_FLAGS, REG_NOT_USED, 1);
      HasNodes(list, front + ([Node(bic, None)] + Leave(AL, false, exit) + [Node(SetFlag(), None)]))
  {
    hide HasNodes, Leave, SetFlag, InstrI;
    NodesAreClosed(list, front + [Node(x, None)]);
    var bic := InstrI(x, ArmBic, AL, REG_EMU_FLAGS, REG_EMU_FLAGS, REG_NOT_USED, 1);
    Overwrite(list, control, |front|, bic, front + [Node(x, None)]);
    FrontParts(front, Node(x, None), Node(bic, None));
    ghost var c := front + [Node(bic, None)];
    var n := AppendLeave(list, control, AL, false, exit, c);
    NodesAreClosed(list, c + Leave(AL, false, exit));
    n := Append(list, n, SetFlag(), c + Leave(AL, false, exit));
    AssociateFour(front, [Node(bic, None)], Leave(AL, false, exit), [Node(SetFlag(), None)]);
  }

  /** The comparisons and the clearing of the flag. */
  method Comparisons(list: InstrList, control: Instruction, x: Ins, ghost front: seq<Node>) returns (low: Instruction)
    requires list.Valid() && HasNodes(list, front + [Node(x, None)]) && control == list.nodes[|front|]
    modifies list`nodes, control
    ensures list.Valid() && fresh(low) && |list.nodes| == |front| + 2 && low == list.nodes[|front| + 1]
    ensures HasNodes(list, front + [Node(CompareHigh(x), None), Node(CompareLow(x), None)])
  {
    hide HasNodes, CompareHigh, CompareLow;
    NodesAreClosed(list, front + [Node(x, None)]);
    Overwrite(list, control, |front|, CompareHigh(x), front + [Node(x, None)]);
    FrontParts(front, Node(x, None), Node(CompareHigh(x), None));
    ghost var c := front + [Node(CompareHigh(x), None)];
    low := Append(list, control, CompareLow(x), c);
    assert c + [Node(CompareLow(x), None)] == front + [Node(CompareHigh(x), None), Node(CompareLow(x), None)];
  }

  /** The nodes behind the comparisons and the delay slot. */
  function TailNodes(cond: Cond, loops: bool, exit: Exit): seq<Node> {
    [Node(ClearFlag(), None)] + Leave(cond, loops, exit) + [Node(SetFlag(), None)]
  }

  method AppendTail(list: InstrList, cur: Instruction, cond: Cond, loops: bool, exit: Exit, ghost c: seq<Node>)
    returns (n: Instruction)
    requires list.Valid() && HasNodes(list, c) && c != [] && cur == list.nodes[|c| - 1]
    modifies list`nodes, cur`next
    ensures list.Valid() && fresh(n) && |list.nodes| > |c| && list.nodes[..|c|] == old(list.nodes)
    ensures n == list.nodes[|list.nodes| - 1]
    ensures HasNodes(list, c + TailNodes(cond, loops, exit))
  {
    hide HasNodes, ClearFlag, SetFlag, Leave;
    ghost var l := Leave(cond, loops, exit);
    NodesAreClosed(list, c);
    n := Append(list, cur, ClearFlag(), c);
    ghost var c1 := c + [Node(ClearFlag(), None)];
    NodesAreClosed(list, c1);
    n := AppendLeave(list, n, cond, loops, exit, c1);
    NodesAreClosed(list, c1 + l);
    n := Append(list, n, SetFlag(), c1 + l);
    AssociateFour(c, [Node(ClearFlag(), None)], l, [Node(SetFlag(), None)]);
  }

  method EndConditional(list: InstrList, control: Instruction, x: Ins, loops: bool, exit: Exit, ghost front: seq<Node>)
    requires list.Valid() && HasNodes(list, front + [Node(x, None)]) && control == list.nodes[|front|] && front != []
    modifies list`nodes, control
    ensures list.Valid()
    ensures HasNodes(list, front + ([Node(CompareHigh(x), None), Node(CompareLow(x), None)]
      + TailNodes(TakenIf(x.what.op), loops, exit)))
  {
    hide HasNodes, CompareHigh, CompareLow, TailNodes, TakenIf;
    ghost var p := [Node(CompareHigh(x), None), Node(CompareLow(x), None)];
    var low := Comparisons(list, control, x, front);
    var n := AppendTail(list, low, TakenIf(x.what.op), loops, exit, front + p);
    assert front + p + TailNodes(TakenIf(x.what.op), loops, exit) ==
      front + (p + TailNodes(TakenIf(x.what.op), loops, exit));
  }

  lemma PutBefore(c: seq<Node>, k: nat, n: Node)
    requires k <= |c| && forall i :: 0 <= i < |c| && c[i].to.Some? ==> c[i].to.value < k
    ensures Put(c, k, n) == c[..k] + [n] + c[k..]
  {
  }

  /** The end of a segment with a likely branch; the branch over the delay slot comes last. */
  method EndLikely(list: InstrList, control: Instruction, x: Ins, slot: Ins, loops: bool, exit: Exit,
                   ghost front: seq<Node>)
    requires list.Valid() && HasNodes(list, front + [Node(x, None)]) && control == list.nodes[|front|] && front != []
    requires IsLikely(x.what.op) && IsClosed(front + [Node(x, None)])
    modifies list`nodes, control
    ensures list.Valid() && HasNodes(list, front + BranchNodes(x, slot, loops, exit, |front|))
  {
    hide HasNodes, CompareHigh, CompareLow, TailNodes, Blank, NotTakenIf, BranchNodes;
    var low := Comparisons(list, control, x, front);
    ghost var p := [Node(CompareHigh(x), None), Node(CompareLow(x), None)];
    var n := low;
    if !IsNop(slot) {
      n := Append(list, n, slot, front + p);
    }
    ghost var c1 := front + p + SlotNodes(slot);
    assert IsNop(slot) ==> c1 == front + p;
    NodesAreClosed(list, c1);
    n := AppendTail(list, n, AL, loops, exit, c1);
    ghost var c2 := c1 + TailNodes(AL, loops, exit);
    NodesAreClosed(list, c2);
    LikelyNodes(front, x, slot, loops, exit);
    if !IsNop(slot) {
      assert low == list.nodes[|front| + 1];
      var _ := AddNode(list, low, |front| + 1, Blank(IntBranch, NotTakenIf(x.what.op)), n, Some(|c2|), c2);
    }
  }

  lemma TargetsInFront(front: seq<Node>, x: Ins, c: seq<Node>)
    requires IsClosed(front + [Node(x, None)]) && |front| <= |c| && c[..|front|] == front
    requires forall i :: |front| <= i < |c| && c[i].to.Some? ==> c[i].to.value == 0
    ensures forall i :: 0 <= i < |c| && c[i].to.Some? ==> c[i].to.value < |front| + 2
  {
    forall i | 0 <= i < |c| && c[i].to.Some? ensures c[i].to.value < |front| + 2 {
      if i < |front| {
        assert c[i] == front[i] == (front + [Node(x, None)])[i];
      }
    }
  }

  lemma LikelyNodes(front: seq<Node>, x: Ins, slot: Ins, loops: bool, exit: Exit)
    requires IsLikely(x.what.op) && IsClosed(front + [Node(x, None)]) && front != []
    ensures
      var p := [Node(CompareHigh(x), None), Node(CompareLow(x), None)];
      var c := front + p + SlotNodes(slot) + TailNodes(AL, loops, exit);
      var skip := Node(Blank(IntBranch, NotTakenIf(x.what.op)), Some(|c|));
      front + BranchNodes(x, slot, loops, exit, |front|) == if IsNop(slot) then c else Put(c, |front| + 2, skip)
  {
    hide CompareHigh, CompareLow, ClearFlag, SetFlag, Blank, LoadSegment, SaveAddress, BranchTo, Put;
    var p := [Node(CompareHigh(x), None), Node(CompareLow(x), None)];
    var rest := SlotNodes(slot) + [Node(ClearFlag(), None)] + Leave(AL, loops, exit);
    var e := [Node(SetFlag(), None)];
    var c := front + p + SlotNodes(slot) + TailNodes(AL, loops, exit);
    assert c == front + p + (rest + e);
    var skip := Node(Blank(IntBranch, NotTakenIf(x.what.op)), Some(|c|));
    if IsNop(slot) {
      assert BranchNodes(x, slot, loops, exit, |front|) == p + rest + e;
      assert front + (p + rest + e) == front + p + (rest + e);
    } else {
      assert BranchNodes(x, slot, loops, exit, |front|) == p + [skip] + rest + e;
      assert front + (p + [skip] + rest + e) == front + p + [skip] + (rest + e);
      TargetsInFront(front, x, c);
      PutBefore(c, |front| + 2, skip);
      assert c[..|front| + 2] == front + p && c[|front| + 2..] == rest + e;
    }
  }

  /** Go to the instruction in front of the branch. */
  method FindBranch(list: InstrList, start: Instruction, ghost k: nat, ghost m: nat) returns (cur: Instruction)
    requires list.Valid() && k < m < |list.nodes| && start == list.nodes[k]
    requires IsHandled(list.nodes[m].ins.what.op) && forall i :: k < i < m ==> !IsHandled(list.nodes[i].ins.what.op)
    ensures cur == list.nodes[m - 1]
  {
    hide IsHandled;
    cur := start;
    ghost var i := k;
    while cur.next != null && !IsHandled(cur.next.ins.what.op)
      invariant k <= i < m && cur == list.nodes[i]
      decreases m - i
    {
      assert cur.next == list.nodes[i + 1];
      cur := cur.next;
      i := i + 1;
    }
    assert cur.next == list.nodes[i + 1];
  }

  /** The nodes in front of the branch and its delay slot. */
  function Front(kind: SegType, body: seq<Ins>, x: Ins, slot: Ins): seq<Node>
    requires body != []
  {
    SkipNodes(kind, body, x, slot) + BodyNodes(body)
  }

  lemma SkippedParts(kind: SegType, body: seq<Ins>, x: Ins)
    requires body != []
    ensures
      var (c, p) := (SkippedNodes(kind, body, x), if Skips(kind, body[0]) then 2 else 0);
      && |c| == p + |body| + 1 && c[|c| - 1] == Node(x, None)
      && (forall i :: p <= i < |c| - 1 ==> c[i] == Node(body[i - p], None))
      && (Skips(kind, body[0]) ==> c[0] == Node(TestFlag(), None) && c[1] == Node(Blank(IntBranch, NE), Some(3)))
  {
    hide TestFlag, Blank, Skips;
  }

  lemma FrontIsParts(kind: SegType, body: seq<Ins>, x: Ins, slot: Ins)
    requires body != []
    ensures
      var (f, p) := (Front(kind, body, x, slot), if Skips(kind, body[0]) then 2 else 0);
      && |f| == p + |body|
      && (forall i :: p <= i < |f| ==> f[i] == Node(body[i - p], None))
      && (Skips(kind, body[0]) ==>
          f[0] == Node(TestFlag(), None) && f[1] == Node(Blank(IntBranch, NE), Some(SecondNode(body, x, slot))))
  {
    hide TestFlag, Blank, Skips, SecondNode;
  }

  /** With a delay slot put in front of the branch, the skip leads to the second of the old nodes. */
  lemma FrontMoves(kind: SegType, body: seq<Ins>, x: Ins, slot: Ins, i: nat)
    requires body != [] && i < |Front(kind, body, x, slot)| && !IsLikely(x.what.op) && !IsNop(slot)
    ensures |SkippedNodes(kind, body, x)| == |Front(kind, body, x, slot)| + 1
    ensures Moved(SkippedNodes(kind, body, x)[i], |Front(kind, body, x, slot)|) == Front(kind, body, x, slot)[i]
  {
    hide TestFlag, Blank, Skips, SkippedNodes, Front, IsLikely, IsNop;
    SkippedParts(kind, body, x);
    FrontIsParts(kind, body, x, slot);
  }

  lemma SkippedIsFront(kind: SegType, body: seq<Ins>, x: Ins, slot: Ins)
    requires body != []
    ensures
      var c := SkippedNodes(kind, body, x);
      && |c| == |Front(kind, body, x, slot)| + 1 && IsClosed(c)
      && (IsLikely(x.what.op) || IsNop(slot) ==> c == Front(kind, body, x, slot) + [Node(x, None)])
      && (!IsLikely(x.what.op) && !IsNop(slot) ==>
          Put(c, |c| - 1, Node(slot, None)) == Front(kind, body, x, slot) + [Node(slot, None)] + [Node(x, None)])
  {
    hide TestFlag, Blank, Skips, SkippedNodes, Front, IsLikely, IsNop;
    SkippedParts(kind, body, x);
    FrontIsParts(kind, body, x, slot);
    var (c, f) := (SkippedNodes(kind, body, x), Front(kind, body, x, slot));
    if !IsLikely(x.what.op) && !IsNop(slot) {
      var (e, d) := (Put(c, |c| - 1, Node(slot, None)), f + [Node(slot, None)] + [Node(x, None)]);
      forall i | 0 <= i < |e| ensures e[i] == d[i] {
        if i < |f| {
          FrontMoves(kind, body, x, slot, i);
          assert e[i] == Moved(c[i], |f|) && d[i] == f[i];
        } else if i > |f| {
          assert e[i] == Moved(c[|f|], |f|);
        }
      }
    }
  }

  /** Put the delay slot in front of the branch. */
  method InsertSlot(list: InstrList, cur: Instruction, kind: SegType, slot: Ins, ghost body: seq<Ins>, ghost x: Ins)
    returns (control: Instruction)
    requires list.Valid() && body != [] && !IsLikely(x.what.op) && HasNodes(list, SkippedNodes(kind, body, x))
    requires |list.nodes| >= 2 && cur == list.nodes[|list.nodes| - 2]
    modifies list`nodes, cur`next
    ensures list.Valid() && (forall n :: n in list.nodes ==> n in old(list.nodes) || fresh(n))
    ensures HasNodes(list, Front(kind, body, x, slot) + SlotNodes(slot) + [Node(x, None)])
    ensures control == old(cur.next) == list.nodes[|list.nodes| - 1] &&
      |list.nodes| == |Front(kind, body, x, slot) + SlotNodes(slot)| + 1
  {
    hide HasNodes, Front, SkippedNodes, Put;
    ghost var (c, f) := (SkippedNodes(kind, body, x), Front(kind, body, x, slot));
    NodesAreClosed(list, c);
    SkippedIsFront(kind, body, x, slot);
    control := cur.next;
    assert control == list.nodes[|list.nodes| - 1];
    if IsNop(slot) {
      assert f + SlotNodes(slot) == f;
    } else {
      var n := AddNext(list, cur, |c| - 2, slot, c);
    }
    NodesAreClosed(list, f + SlotNodes(slot) + [Node(x, None)]);
  }

  lemma BodyBetween(list: InstrList, kind: SegType, body: seq<Ins>, x: Ins, k: nat)
    requires body != [] && HasNodes(list, SkippedNodes(kind, body, x)) && k == (if Skips(kind, body[0]) then 1 else 0)
    requires forall i :: 0 <= i < |body| ==> !IsHandled(body[i].what.op)
    ensures
      var m := |SkippedNodes(kind, body, x)| - 1;
      && k < m < |list.nodes| && list.nodes[m].ins == x
      && forall i :: k < i < m ==> !IsHandled(list.nodes[i].ins.what.op)
  {
    hide IsHandled, TestFlag, Blank;
    var c := SkippedNodes(kind, body, x);
    var p := if Skips(kind, body[0]) then 2 else 0;
    assert c[|c| - 1] == EntryNodes(body, x)[|body|] == Node(x, None);
    assert list.Code()[|c| - 1] == x;
    forall i | k < i < |c| - 1 ensures !IsHandled(list.nodes[i].ins.what.op) {
      assert c[i] == EntryNodes(body, x)[i - p] == BodyNodes(body)[i - p];
      assert list.Code()[i] == c[i].ins == body[i - p];
    }
  }

  lemma JumpNodes(kind: SegType, body: seq<Ins>, x: Ins, slot: Ins, loops: bool, exit: Exit)
    requires body != [] && x.what.op.MipsJ?
    ensures
      var bic := InstrI(x, ArmBic, AL, REG_EMU_FLAGS, REG_EMU_FLAGS, REG_NOT_USED, 1);
      Front(kind, body, x, slot) + SlotNodes(slot)
        + ([Node(bic, None)] + Leave(AL, false, exit) + [Node(SetFlag(), None)])
        == SegmentNodes(kind, body, x, slot, loops, exit)
  {
    hide Leave, SetFlag, InstrI, SkipNodes;
  }

  lemma ConditionalNodes(kind: SegType, body: seq<Ins>, x: Ins, slot: Ins, loops: bool, exit: Exit)
    requires body != [] && !x.what.op.MipsJ? && !IsLikely(x.what.op)
    ensures Front(kind, body, x, slot) + SlotNodes(slot)
        + ([Node(CompareHigh(x), None), Node(CompareLow(x), None)] + TailNodes(TakenIf(x.what.op), loops, exit))
        == SegmentNodes(kind, body, x, slot, loops, exit)
  {
    hide Leave, SetFlag, ClearFlag, SkipNodes, CompareHigh, CompareLow;
  }

  /** Translate the branch behind cur. */
  method FinishSegment(list: InstrList, cur: Instruction, kind: SegType, slot: Ins, loops: bool, exit: Exit,
                       ghost body: seq<Ins>, ghost x: Ins)
    requires list.Valid() && body != [] && HasNodes(list, SkippedNodes(kind, body, x))
    requires |list.nodes| >= 2 && cur == list.nodes[|list.nodes| - 2] && IsHandled(x.what.op)
    requires list.nodes[|list.nodes| - 1].ins == x
    modifies list`nodes, cur, cur.next
    ensures list.Valid() && HasNodes(list, SegmentNodes(kind, body, x, slot, loops, exit))
  {
    hide HasNodes, SkippedNodes, Front, BranchNodes, SegmentNodes, IsHandled, CompareHigh, CompareLow, Leave, TailNodes;
    var branch := cur.next;
    assert branch == list.nodes[|list.nodes| - 1];
    var op := branch.ins.what.op;
    var x' := branch.ins;
    ghost var front := Front(kind, body, x, slot);
    NodesAreClosed(list, SkippedNodes(kind, body, x));
    SkippedIsFront(kind, body, x, slot);
    FrontIsNotEmpty(kind, body, x, slot);
    if IsLikely(op) {
      EndLikely(list, branch, x', slot, loops, exit, front);
      LikelySegment(kind, body, x, slot, loops, exit);
    } else {
      var control := InsertSlot(list, cur, kind, slot, body, x);
      if op.MipsJ? {
        EndJump(list, control, x', exit, front + SlotNodes(slot));
        JumpNodes(kind, body, x, slot, loops, exit);
      } else {
        EndConditional(list, control, x', loops, exit, front + SlotNodes(slot));
        ConditionalNodes(kind, body, x, slot, loops, exit);
      }
    }
  }

  lemma FrontIsNotEmpty(kind: SegType, body: seq<Ins>, x: Ins, slot: Ins)
    requires body != []
    ensures Front(kind, body, x, slot) != []
  {
  }

  lemma LikelySegment(kind: SegType, body: seq<Ins>, x: Ins, slot: Ins, loops: bool, exit: Exit)
    requires body != []
    ensures
      var front := Front(kind, body, x, slot);
      front + BranchNodes(x, slot, loops, exit, |front|) == SegmentNodes(kind, body, x, slot, loops, exit)
  {
    hide BranchNodes, SkipNodes;
  }

  /** Translate_Branch for a segment of at least two nodes whose last one is its branch x. slot is
      the decoded delay slot, loops tells whether the branch leads into the segment itself, and
      exit what addLiteral and the look-up of the target return. */
  method TranslateBranch(list: InstrList, kind: SegType, slot: Ins, loops: bool, exit: Exit, ghost body: seq<Ins>,
                         ghost x: Ins)
    requires list.Valid() && body != [] && HasNodes(list, EntryNodes(body, x))
    requires IsHandled(x.what.op) && forall i :: 0 <= i < |body| ==> !IsHandled(body[i].what.op)
    modifies list, list.nodes
    ensures list.Valid() && HasNodes(list, SegmentNodes(kind, body, x, slot, loops, exit))
  {
    hide HasNodes, SkippedNodes, BranchNodes, IsHandled, SegmentNodes;
    ghost var c := SkippedNodes(kind, body, x);
    var cur, k := SkipFirst(list, kind, body, x);
    NodesAreClosed(list, c);
    BodyBetween(list, kind, body, x, k);
    cur := FindBranch(list, cur, k, |c| - 1);
    assert cur in list.nodes && list.nodes[|c| - 1] in list.nodes && cur.next == list.nodes[|c| - 1];
    FinishSegment(list, cur, kind, slot, loops, exit, body, x);
  }
}
