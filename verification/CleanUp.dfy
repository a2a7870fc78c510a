/** Translate_CleanUp: deleting instructions that do nothing, with the branches inside the
    segment retargeted. Nodes of the list are identified by values of some type T.
 */
module CleanUp {
  import opened Ir

  datatype Item<T> = Item(ins: Ins, self: T, target: Option<T>)

  /** The instructions the pass deletes. */
  predicate Removable(x: Ins) {
    || x.what.op.NoOp? || (x.what.op.MipsSll? && x.rd1 == 0) || x.what.op.MipsLui? || x.what.op.MipsCache?
    || x.what.op.MipsSyscall? || x.what.op.MipsBreak? || x.what.op.MipsSync?
  }

  /** The position of node n, or the length of the list when it is not there. */
  ghost function IndexOf<T>(c: seq<Item<T>>, n: T): (i: nat)
    ensures i <= |c| && (i < |c| ==> c[i].self == n)
    ensures forall j :: 0 <= j < i ==> c[j].self != n
  {
    if c == [] then 0
    else if c[0].self == n then 0
    else IndexOf(c[1..], n) + 1
  }

  ghost predicate Distinct<T>(c: seq<Item<T>>) {
    forall i, j :: 0 <= i < j < |c| ==> c[i].self != c[j].self
  }

  /** Every branch target is in the list. */
  ghost predicate Closed<T>(c: seq<Item<T>>) {
    forall i :: 0 <= i < |c| && c[i].target.Some? ==> IndexOf(c, c[i].target.value) < |c|
  }

  /** Instructions that get deleted are not branches. */
  ghost predicate Plain<T>(c: seq<Item<T>>) {
    forall i :: 0 <= i < |c| && Removable(c[i].ins) ==> c[i].target == None
  }

  // ---------------------------------------------------------------------------------------
  // The pass

  /** An item with a branch to old' sent to new'. */
  ghost function Retarget<T>(x: Item<T>, old': T, new': T): Item<T> {
    if x.target == Some(old') then x.(target := Some(new')) else x
  }

  /** Every branch to node old' sent to new'. */
  ghost function RetargetAll<T>(c: seq<Item<T>>, old': T, new': T): (d: seq<Item<T>>)
    ensures |d| == |c| && forall i :: 0 <= i < |c| ==> d[i] == Retarget(c[i], old', new')
  {
    seq(|c|, i requires 0 <= i < |c| => Retarget(c[i], old', new'))
  }

  ghost predicate IsTarget<T>(c: seq<Item<T>>, n: T) {
    exists i :: 0 <= i < |c| && c[i].target == Some(n)
  }

  /** InstrFree of the node at position k: the head is just dropped; otherwise branches to the
      node go to its successor, and a branch to the last node aborts. */
  ghost function Free<T>(c: seq<Item<T>>, k: nat): Option<seq<Item<T>>>
    requires k < |c|
  {
    if k == 0 then Some(c[1..])
    else if k + 1 < |c| then
      var d := RetargetAll(c, c[k].self, c[k + 1].self);
      Some(d[..k] + d[k + 1..])
    else if IsTarget(c, c[k].self) then None
    else Some(c[..k])
  }

  /** The pass from position k on. */
  ghost function CleanFrom<T>(c: seq<Item<T>>, k: nat): Option<seq<Item<T>>>
    requires k <= |c|
    decreases |c| - k
  {
    if k == |c| then Some(c)
    else if Removable(c[k].ins) then
      var d := Free(c, k);
      if d.Some? then CleanFrom(d.value, k) else None
    else CleanFrom(c, k + 1)
  }

  ghost function Clean<T>(c: seq<Item<T>>): Option<seq<Item<T>>> {
    CleanFrom(c, 0)
  }

  // ---------------------------------------------------------------------------------------
  // What it leaves

  /** The number of instructions that stay among the first i: the new position of node i. */
  ghost function Before<T>(c: seq<Item<T>>, i: nat): (n: nat)
    requires i <= |c|
    ensures n <= i
  {
    if i == 0 then 0 else Before(c, i - 1) + if Removable(c[i - 1].ins) then 0 else 1
  }

  /** The new item for the old one at position i: the same instruction and node, and a branch to
      the first instruction that stays at or behind the old target. */
  ghost predicate Kept<T>(c: seq<Item<T>>, d: seq<Item<T>>, i: nat)
    requires i < |c| && Closed(c)
  {
    var k := Before(c, i);
    && k < |d| && d[k].ins == c[i].ins && d[k].self == c[i].self && d[k].target.Some? == c[i].target.Some?
    && (c[i].target.Some? ==>
        var p := Before(c, IndexOf(c, c[i].target.value));
        p < |d| && IndexOf(d, d[k].target.value) == p)
  }

  /** d is c without the removable instructions. */
  ghost predicate Cleaned<T>(c: seq<Item<T>>, d: seq<Item<T>>)
    requires Closed(c)
  {
    && |d| == Before(c, |c|)
    && (forall i :: 0 <= i < |c| && !Removable(c[i].ins) ==> Kept(c, d, i))
  }

  /** No branch leads to the instructions deleted at the head of the list. */
  ghost predicate HeadSafe<T>(c: seq<Item<T>>) {
    c == [] || !Removable(c[0].ins) || (!IsTarget(c, c[0].self) && HeadSafe(c[1..]))
  }

  lemma IndexOfSelf<T>(c: seq<Item<T>>, i: nat)
    requires Distinct(c) && i < |c|
    ensures IndexOf(c, c[i].self) == i
  {
  }

  lemma IndexOfUnique<T>(c: seq<Item<T>>, n: T, i: nat)
    requires i < |c| && c[i].self == n && forall j :: 0 <= j < i ==> c[j].self != n
    ensures IndexOf(c, n) == i
  {
  }

  /** Where the nodes of c go when node k is deleted. */
  function Shift(k: nat, i: nat): nat {
    if i <= k then i else i - 1
  }

  /** d is c without position k. */
  ghost predicate Deletes<T>(c: seq<Item<T>>, k: nat, d: seq<Item<T>>) {
    && k < |c| && |d| == |c| - 1
    && (forall i {:trigger c[i]} :: 0 <= i < |c| && i != k ==>
        d[Shift(k, i)].ins == c[i].ins && d[Shift(k, i)].self == c[i].self)
  }

  /** And every branch of c goes where it went, or to the successor of node k. */
  ghost predicate KeepsTargets<T>(c: seq<Item<T>>, k: nat, d: seq<Item<T>>)
    requires Deletes(c, k, d) && Closed(c)
  {
    forall i {:trigger c[i]} :: 0 <= i < |c| && i != k ==>
      && d[Shift(k, i)].target.Some? == c[i].target.Some?
      && (c[i].target.Some? ==>
          && Shift(k, IndexOf(c, c[i].target.value)) < |d|
          && IndexOf(d, d[Shift(k, i)].target.value) == Shift(k, IndexOf(c, c[i].target.value)))
  }

  lemma FreeDeletes<T>(c: seq<Item<T>>, k: nat)
    requires k < |c| && Free(c, k).Some?
    ensures Deletes(c, k, Free(c, k).value)
  {
  }

  lemma DeletesDistinct<T>(c: seq<Item<T>>, k: nat, d: seq<Item<T>>)
    requires Deletes(c, k, d) && Distinct(c)
    ensures Distinct(d)
    ensures forall i :: 0 <= i < |c| && i != k ==> IndexOf(d, c[i].self) == Shift(k, i)
  {
    forall i, j | 0 <= i < j < |d| ensures d[i].self != d[j].self {
      var i', j' := if i < k then i else i + 1, if j < k then j else j + 1;
      assert c[i'].self != c[j'].self;
    }
    forall i | 0 <= i < |c| && i != k ensures IndexOf(d, c[i].self) == Shift(k, i) {
      assert d[Shift(k, i)].self == c[i].self;
      IndexOfSelf(d, Shift(k, i));
    }
  }

  /** What becomes of item i when node k is freed. */
  lemma FreeItem<T>(c: seq<Item<T>>, k: nat, i: nat)
    requires k < |c| && Free(c, k).Some? && i < |c| && i != k
    ensures
      var d := Free(c, k).value;
      && Shift(k, i) < |d| == |c| - 1
      && d[Shift(k, i)] == (if 0 < k && k + 1 < |c| then Retarget(c[i], c[k].self, c[k + 1].self) else c[i])
    ensures k + 1 == |c| && k > 0 ==> c[i].target != Some(c[k].self)
  {
  }

  lemma BranchFollows<T>(c: seq<Item<T>>, k: nat, i: nat)
    requires k < |c| && Free(c, k).Some? && Distinct(c) && Closed(c)
    requires k > 0 || !IsTarget(c, c[0].self)
    requires i < |c| && i != k && c[i].target.Some?
    ensures
      var d := Free(c, k).value;
      && Shift(k, i) < |d| && d[Shift(k, i)].target.Some?
      && Shift(k, IndexOf(c, c[i].target.value)) < |d|
      && IndexOf(d, d[Shift(k, i)].target.value) == Shift(k, IndexOf(c, c[i].target.value))
  {
    hide IndexOf, Free, Distinct;
    var d := Free(c, k).value;
    var p := IndexOf(c, c[i].target.value);
    FreeDeletes(c, k);
    DeletesDistinct(c, k, d);
    FreeItem(c, k, i);
    if p == k {
      assert k > 0 && c[i].target == Some(c[k].self);
      assert IndexOf(d, c[k + 1].self) == Shift(k, k + 1);
    } else {
      NotTheFreedNode(c, k, i);
      assert IndexOf(d, c[p].self) == Shift(k, p);
    }
  }

  lemma NotTheFreedNode<T>(c: seq<Item<T>>, k: nat, i: nat)
    requires Distinct(c) && k < |c| && i < |c| && c[i].target.Some? && IndexOf(c, c[i].target.value) != k
    ensures c[i].target.value != c[k].self
  {
    IndexOfSelf(c, k);
  }

  lemma FreeKeepsTargets<T>(c: seq<Item<T>>, k: nat)
    requires k < |c| && Free(c, k).Some? && Distinct(c) && Closed(c)
    requires k > 0 || !IsTarget(c, c[0].self)
    ensures Deletes(c, k, Free(c, k).value) && KeepsTargets(c, k, Free(c, k).value)
  {
    hide IndexOf, Free, Distinct, IsTarget;
    var d := Free(c, k).value;
    FreeDeletes(c, k);
    forall i {:trigger c[i]} | 0 <= i < |c| && i != k
      ensures d[Shift(k, i)].target.Some? == c[i].target.Some?
      ensures c[i].target.Some? ==>
        && Shift(k, IndexOf(c, c[i].target.value)) < |d|
        && IndexOf(d, d[Shift(k, i)].target.value) == Shift(k, IndexOf(c, c[i].target.value))
    {
      FreeItem(c, k, i);
      if c[i].target.Some? {
        BranchFollows(c, k, i);
      }
    }
  }

  /** Deleting a removable instruction does not change where the others end up. */
  lemma {:induction false} DeletesBefore<T>(c: seq<Item<T>>, k: nat, d: seq<Item<T>>, i: nat)
    requires Deletes(c, k, d) && Removable(c[k].ins) && i <= |c|
    ensures Before(d, Shift(k, i)) == Before(c, i)
  {
    if i > 0 {
      DeletesBefore(c, k, d, i - 1);
      if i - 1 != k {
        assert d[Shift(k, i - 1)].ins == c[i - 1].ins;
        if i - 1 > k {
          assert Before(d, i - 1) == Before(d, i - 2) + if Removable(d[i - 2].ins) then 0 else 1;
        }
      }
    }
  }

  /** One deletion followed by the rest of the pass. */
  lemma CleanedStep<T>(c: seq<Item<T>>, k: nat, d: seq<Item<T>>, e: seq<Item<T>>)
    requires Closed(c) && Closed(d) && Deletes(c, k, d) && KeepsTargets(c, k, d) && Removable(c[k].ins) && Cleaned(d, e)
    ensures Cleaned(c, e)
  {
    DeletesBefore(c, k, d, |c|);
    forall i | 0 <= i < |c| && !Removable(c[i].ins) ensures Kept(c, e, i) {
      assert d[Shift(k, i)].ins == c[i].ins;
      assert Kept(d, e, Shift(k, i));
      DeletesBefore(c, k, d, i);
      if c[i].target.Some? {
        DeletesBefore(c, k, d, IndexOf(c, c[i].target.value));
      }
    }
  }

  lemma KeepsTargetsClosed<T>(c: seq<Item<T>>, k: nat, d: seq<Item<T>>)
    requires Closed(c) && Deletes(c, k, d) && KeepsTargets(c, k, d)
    ensures Closed(d)
  {
    forall j | 0 <= j < |d| && d[j].target.Some? ensures IndexOf(d, d[j].target.value) < |d| {
      var i := if j < k then j else j + 1;
      assert c[i].target.Some?;
    }
  }

  lemma {:induction false} AllKept<T>(c: seq<Item<T>>, i: nat)
    requires i <= |c| && forall j :: 0 <= j < i ==> !Removable(c[j].ins)
    ensures Before(c, i) == i
  {
    if i > 0 {
      AllKept(c, i - 1);
    }
  }

  lemma NothingToClean<T>(c: seq<Item<T>>)
    requires Closed(c) && forall j :: 0 <= j < |c| ==> !Removable(c[j].ins)
    ensures Cleaned(c, c)
  {
    forall i | 0 <= i <= |c| ensures Before(c, i) == i {
      AllKept(c, i);
    }
  }

  /** The pass deletes exactly the removable instructions and keeps every branch, provided no
      branch leads to the deleted head. */
  lemma {:induction false} CleanFromErases<T>(c: seq<Item<T>>, k: nat)
    requires k <= |c| && Distinct(c) && Closed(c) && CleanFrom(c, k).Some?
    requires forall j :: 0 <= j < k ==> !Removable(c[j].ins)
    requires k == 0 ==> HeadSafe(c)
    ensures Cleaned(c, CleanFrom(c, k).value)
    decreases |c| - k
  {
    if k == |c| {
      NothingToClean(c);
    } else if Removable(c[k].ins) {
      var d := Free(c, k).value;
      FreeKeepsTargets(c, k);
      DeletesDistinct(c, k, d);
      KeepsTargetsClosed(c, k, d);
      forall j | 0 <= j < k ensures !Removable(d[j].ins) {
        assert d[Shift(k, j)].ins == c[j].ins;
      }
      CleanFromErases(d, k);
      CleanedStep(c, k, d, CleanFrom(d, k).value);
    } else {
      CleanFromErases(c, k + 1);
    }
  }

  lemma CleanUpErases<T>(c: seq<Item<T>>)
    requires Distinct(c) && Closed(c) && HeadSafe(c) && Clean(c).Some?
    ensures Cleaned(c, Clean(c).value)
  {
    CleanFromErases(c, 0);
  }

  // ---------------------------------------------------------------------------------------
  // Exactly when branches stay inside the list

  lemma DanglingStays<T>(c: seq<Item<T>>, k: nat, i: nat)
    requires k < |c| && Free(c, k).Some? && i < |c| && i != k
    requires c[i].target.Some? && forall j :: 0 <= j < |c| ==> c[j].self != c[i].target.value
    ensures
      var d := Free(c, k).value;
      && d[Shift(k, i)].ins == c[i].ins && d[Shift(k, i)].target == c[i].target
      && forall j :: 0 <= j < |d| ==> d[j].self != c[i].target.value
  {
    var d := Free(c, k).value;
    FreeDeletes(c, k);
    forall j | 0 <= j < |d| ensures d[j].self != c[i].target.value {
      var j' := if j < k then j else j + 1;
      assert d[Shift(k, j')].self == c[j'].self;
    }
  }

  lemma {:induction false} DanglingToTheEnd<T>(c: seq<Item<T>>, k: nat, i: nat)
    requires k <= |c| && CleanFrom(c, k).Some? && i < |c| && !Removable(c[i].ins)
    requires c[i].target.Some? && forall j :: 0 <= j < |c| ==> c[j].self != c[i].target.value
    ensures !Closed(CleanFrom(c, k).value)
    decreases |c| - k
  {
    if k == |c| {
      assert IndexOf(c, c[i].target.value) == |c|;
    } else if Removable(c[k].ins) {
      DanglingStays(c, k, i);
      DanglingToTheEnd(Free(c, k).value, k, Shift(k, i));
    } else {
      DanglingToTheEnd(c, k + 1, i);
    }
  }

  lemma PlainStep<T>(c: seq<Item<T>>, k: nat)
    requires k < |c| && Free(c, k).Some? && Plain(c)
    ensures Plain(Free(c, k).value)
  {
    var d := Free(c, k).value;
    forall j | 0 <= j < |d| && Removable(d[j].ins) ensures d[j].target == None {
      var i := if j < k then j else j + 1;
      assert d[Shift(k, i)].ins == c[i].ins;
    }
  }

  lemma {:induction false} CleanFromClosed<T>(c: seq<Item<T>>, k: nat)
    requires k <= |c| && Distinct(c) && Closed(c) && Plain(c) && CleanFrom(c, k).Some?
    ensures Closed(CleanFrom(c, k).value) <==> k > 0 || HeadSafe(c)
    decreases |c| - k
  {
    if k == |c| {
    } else if Removable(c[k].ins) {
      var d := Free(c, k).value;
      FreeDeletes(c, k);
      DeletesDistinct(c, k, d);
      PlainStep(c, k);
      if k == 0 && IsTarget(c, c[0].self) {
        var i :| 0 <= i < |c| && c[i].target == Some(c[0].self);
        assert d[Shift(0, i)] == c[i];
        DanglingToTheEnd(d, 0, Shift(0, i));
      } else {
        FreeKeepsTargets(c, k);
        KeepsTargetsClosed(c, k, d);
        CleanFromClosed(d, k);
      }
    } else {
      CleanFromClosed(c, k + 1);
    }
  }

  /** All branches stay in the list exactly when none leads to the deleted head. */
  lemma BranchesStayInside<T>(c: seq<Item<T>>)
    requires Distinct(c) && Closed(c) && Plain(c) && Clean(c).Some?
    ensures Closed(Clean(c).value) <==> HeadSafe(c)
  {
    CleanFromClosed(c, 0);
  }

  // ---------------------------------------------------------------------------------------
  // Exactly when the pass aborts

  /** Item i branches into the part at the end of the list that is deleted completely. */
  ghost predicate AimsAtTail<T>(c: seq<Item<T>>, i: nat)
    requires i < |c|
  {
    && c[i].target.Some? && IndexOf(c, c[i].target.value) < |c|
    && forall j :: IndexOf(c, c[i].target.value) <= j < |c| ==> Removable(c[j].ins)
  }

  ghost predicate TailIsTarget<T>(c: seq<Item<T>>) {
    exists i :: 0 <= i < |c| && AimsAtTail(c, i)
  }

  lemma AimsStep<T>(c: seq<Item<T>>, k: nat, d: seq<Item<T>>, i: nat)
    requires k < |c| && Free(c, k) == Some(d) && Distinct(c) && Plain(c) && Closed(c)
    requires Removable(c[k].ins) && (forall j :: 0 <= j < k ==> !Removable(c[j].ins))
    requires i < |c| && i != k && (k > 0 || !IsTarget(c, c[0].self))
    ensures Shift(k, i) < |d| && (AimsAtTail(c, i) <==> AimsAtTail(d, Shift(k, i)))
  {
    hide Removable, IndexOf, Free;
    FreeKeepsTargets(c, k);
    assert d[Shift(k, i)].ins == c[i].ins;
    if c[i].target.Some? {
      var p := IndexOf(c, c[i].target.value);
      var p' := Shift(k, p);
      assert IndexOf(d, d[Shift(k, i)].target.value) == p';
      if forall j :: p <= j < |c| ==> Removable(c[j].ins) {
        forall j | p' <= j < |d| ensures Removable(d[j].ins) {
          var j' := if j < k then j else j + 1;
          assert d[Shift(k, j')].ins == c[j'].ins;
        }
      }
      if forall j :: p' <= j < |d| ==> Removable(d[j].ins) {
        forall j | p <= j < |c| ensures Removable(c[j].ins) {
          if j != k {
            assert d[Shift(k, j)].ins == c[j].ins;
          }
        }
      }
    }
  }

  lemma BranchStays<T>(c: seq<Item<T>>, i: nat)
    requires i < |c| && AimsAtTail(c, i) && Plain(c)
    ensures !Removable(c[i].ins)
  {
  }

  lemma TailStep<T>(c: seq<Item<T>>, k: nat, d: seq<Item<T>>)
    requires k < |c| && Free(c, k) == Some(d) && Distinct(c) && Plain(c) && Closed(c)
    requires Removable(c[k].ins) && (forall j :: 0 <= j < k ==> !Removable(c[j].ins))
    requires k > 0 || !IsTarget(c, c[0].self)
    ensures TailIsTarget(c) <==> TailIsTarget(d)
  {
    hide Removable, IndexOf, Free, AimsAtTail;
    FreeDeletes(c, k);
    if i :| 0 <= i < |c| && AimsAtTail(c, i) {
      BranchStays(c, i);
      AimsStep(c, k, d, i);
    }
    if j :| 0 <= j < |d| && AimsAtTail(d, j) {
      AimsStep(c, k, d, if j < k then j else j + 1);
    }
  }

  lemma NoTail<T>(c: seq<Item<T>>)
    requires forall j :: 0 <= j < |c| ==> !Removable(c[j].ins)
    ensures !TailIsTarget(c)
  {
    hide Removable, IndexOf;
  }

  lemma HeadIsNoTarget<T>(c: seq<Item<T>>)
    requires c != [] && HeadSafe(c) && Removable(c[0].ins)
    ensures !IsTarget(c, c[0].self) && HeadSafe(c[1..]) && Free(c, 0) == Some(c[1..])
  {
  }

  lemma AbortAims<T>(c: seq<Item<T>>, k: nat)
    requires k < |c| && Free(c, k).None? && Distinct(c) && Removable(c[k].ins)
    ensures TailIsTarget(c)
  {
    var i :| 0 <= i < |c| && c[i].target == Some(c[k].self);
    IndexOfSelf(c, k);
    assert AimsAtTail(c, i);
  }

  lemma {:induction false} CleanFromAborts<T>(c: seq<Item<T>>, k: nat)
    requires k <= |c| && Distinct(c) && Closed(c) && Plain(c)
    requires forall j :: 0 <= j < k ==> !Removable(c[j].ins)
    requires k == 0 ==> HeadSafe(c)
    ensures CleanFrom(c, k).None? <==> TailIsTarget(c)
    decreases |c| - k
  {
    hide Removable, IndexOf, Free, KeepsTargets, TailIsTarget, HeadSafe;
    if k == |c| {
      NoTail(c);
    } else if Removable(c[k].ins) {
      if k == 0 {
        HeadIsNoTarget(c);
      }
      if Free(c, k).None? {
        AbortAims(c, k);
      } else {
        var d := Free(c, k).value;
        FreeKeepsTargets(c, k);
        DeletesDistinct(c, k, d);
        KeepsTargetsClosed(c, k, d);
        PlainStep(c, k);
        TailStep(c, k, d);
        forall j | 0 <= j < k ensures !Removable(d[j].ins) {
          assert d[Shift(k, j)].ins == c[j].ins;
        }
        CleanFromAborts(d, k);
      }
    } else {
      CleanFromAborts(c, k + 1);
    }
  }

  /** The pass aborts exactly when a branch leads into a part at the end that is deleted. */
  lemma CleanUpAborts<T>(c: seq<Item<T>>)
    requires Distinct(c) && Closed(c) && Plain(c) && HeadSafe(c)
    ensures Clean(c).None? <==> TailIsTarget(c)
  {
    CleanFromAborts(c, 0);
  }

  // ---------------------------------------------------------------------------------------
  // Runs

  /** What an instruction does to the world, and whether it branches to its target. */
  datatype Control<!W> = Control(effect: (Ins, W) -> W, taken: (Ins, W) -> bool)

  /** The deleted instructions do nothing. */
  ghost predicate NoEffect<W(!new)>(m: Control<W>) {
    forall x: Ins, w: W :: Removable(x) ==> m.effect(x, w) == w
  }

  ghost function Next<T, W>(m: Control<W>, c: seq<Item<T>>, i: nat, w: W): (j: nat)
    requires i < |c|
    ensures j <= |c|
  {
    if c[i].target.Some? && m.taken(c[i].ins, w) then IndexOf(c, c[i].target.value) else i + 1
  }

  /** n steps from position i; the end of the list is left by other means. */
  ghost function Run<T, W>(m: Control<W>, c: seq<Item<T>>, i: nat, w: W, n: nat): (r: (nat, W))
    requires i <= |c|
    ensures r.0 <= |c|
    decreases n
  {
    if n == 0 || i == |c| then (i, w) else Run(m, c, Next(m, c, i, w), m.effect(c[i].ins, w), n - 1)
  }

  /** How many of the n steps are at instructions that stay. */
  ghost function KeptSteps<T, W>(m: Control<W>, c: seq<Item<T>>, i: nat, w: W, n: nat): nat
    requires i <= |c|
    decreases n
  {
    if n == 0 || i == |c| then 0
    else
      (if Removable(c[i].ins) then 0 else 1) + KeptSteps(m, c, Next(m, c, i, w), m.effect(c[i].ins, w), n - 1)
  }

  lemma {:induction false} BeforeMonotone<T>(c: seq<Item<T>>, i: nat, j: nat)
    requires i <= j <= |c|
    ensures Before(c, i) <= Before(c, j)
  {
    if i < j {
      BeforeMonotone(c, i, j - 1);
    }
  }

  lemma NewPosition<T>(c: seq<Item<T>>, d: seq<Item<T>>, i: nat)
    requires Closed(c) && Cleaned(c, d) && i <= |c|
    ensures Before(c, i) <= |d| == Before(c, |c|)
  {
    BeforeMonotone(c, i, |c|);
  }

  lemma BeforeStep<T>(c: seq<Item<T>>, i: nat)
    requires i < |c|
    ensures Before(c, i + 1) == Before(c, i) + if Removable(c[i].ins) then 0 else 1
  {
  }

  lemma ErasedStep<T, W(!new)>(m: Control<W>, c: seq<Item<T>>, i: nat, w: W)
    requires Plain(c) && NoEffect(m) && i < |c| && Removable(c[i].ins)
    ensures m.effect(c[i].ins, w) == w && Next(m, c, i, w) == i + 1 && Before(c, i + 1) == Before(c, i)
  {
    hide Removable, IndexOf, Before;
    BeforeStep(c, i);
  }

  lemma KeptStep<T, W>(m: Control<W>, c: seq<Item<T>>, d: seq<Item<T>>, i: nat, w: W)
    requires Closed(c) && Cleaned(c, d) && i < |c| && !Removable(c[i].ins)
    ensures
      var k := Before(c, i);
      k < |d| && d[k].ins == c[i].ins && Before(c, Next(m, c, i, w)) == Next(m, d, k, w)
  {
    hide Removable, IndexOf, Before, Closed;
    BeforeStep(c, i);
    assert Kept(c, d, i);
  }

  /** Each run of the old list is, with the deleted steps left out, a run of the new one. */
  lemma {:induction false} RunsAreErased<T, W(!new)>(m: Control<W>, c: seq<Item<T>>, d: seq<Item<T>>, i: nat, w: W,
                                                     n: nat)
    requires Closed(c) && Cleaned(c, d) && Plain(c) && NoEffect(m) && i <= |c|
    ensures Before(c, i) <= |d|
    ensures
      var (j, w') := Run(m, c, i, w, n);
      Run(m, d, Before(c, i), w, KeptSteps(m, c, i, w, n)) == (Before(c, j), w')
    decreases n
  {
    hide Removable, Cleaned, Closed, IndexOf, Before, Next, Plain;
    NewPosition(c, d, i);
    if n > 0 && i < |c| {
      if Removable(c[i].ins) {
        ErasedStep(m, c, i, w);
      } else {
        KeptStep(m, c, d, i, w);
      }
      RunsAreErased(m, c, d, Next(m, c, i, w), m.effect(c[i].ins, w), n - 1);
    }
  }

  /** From any position the old list gets to an instruction that stays, or to the end. */
  lemma {:induction false} ReachesKept<T, W(!new)>(m: Control<W>, c: seq<Item<T>>, i: nat, w: W) returns (n: nat)
    requires Plain(c) && NoEffect(m) && i <= |c|
    ensures
      var (j, w') := Run(m, c, i, w, n);
      w' == w && Before(c, j) == Before(c, i) && KeptSteps(m, c, i, w, n) == 0 && (j < |c| ==> !Removable(c[j].ins))
    decreases |c| - i
  {
    if i == |c| || !Removable(c[i].ins) {
      n := 0;
    } else {
      var n' := ReachesKept(m, c, i + 1, w);
      n := n' + 1;
    }
  }

  lemma {:induction false} RunsCompose<T, W>(m: Control<W>, c: seq<Item<T>>, i: nat, w: W, n: nat, n': nat)
    requires i <= |c|
    ensures
      var (j, w') := Run(m, c, i, w, n);
      && Run(m, c, i, w, n + n') == Run(m, c, j, w', n')
      && KeptSteps(m, c, i, w, n + n') == KeptSteps(m, c, i, w, n) + KeptSteps(m, c, j, w', n')
    decreases n
  {
    hide Removable, Next;
    if n > 0 && i < |c| {
      RunsCompose(m, c, Next(m, c, i, w), m.effect(c[i].ins, w), n - 1, n');
    }
  }

  /** And the new list has no other runs: m steps of it are some run of the old one. */
  lemma {:induction false} NoOtherRuns<T, W(!new)>(m: Control<W>, c: seq<Item<T>>, d: seq<Item<T>>, i: nat, w: W,
                                                   steps: nat)
    returns (n: nat)
    requires Closed(c) && Cleaned(c, d) && Plain(c) && NoEffect(m) && i <= |c|
    ensures Before(c, i) <= |d|
    ensures
      var (j, w') := Run(m, c, i, w, n);
      Run(m, d, Before(c, i), w, steps) == (Before(c, j), w') && (KeptSteps(m, c, i, w, n) == steps || j == |c|)
    decreases steps
  {
    hide Removable, Cleaned, Closed, IndexOf, Before, Next, Plain;
    NewPosition(c, d, i);
    n := ReachesKept(m, c, i, w);
    var (j, w1) := Run(m, c, i, w, n);
    if steps > 0 && j < |c| {
      KeptStep(m, c, d, j, w);
      var n' := NoOtherRuns(m, c, d, Next(m, c, j, w), m.effect(c[j].ins, w), steps - 1);
      assert Run(m, c, j, w, n' + 1) == Run(m, c, Next(m, c, j, w), m.effect(c[j].ins, w), n');
      RunsCompose(m, c, i, w, n, n' + 1);
      n := n + (n' + 1);
    }
  }
}
