/** Translate_CountRegister: the COUNT register is brought up to date in front of the branch at the
    end of a segment, and the interrupt it may cause is called. The pass runs before
    Translate_Branch.
 */
module CountRegister {
  import opened Ir
  import opened Bits
  import opened Lowering
  import opened BranchConditions

  const REG_COUNT: Reg := 0x89
  const REG_TEMP_CALL2C: Reg := 0x108
  const REG_HOST_SP: Reg := 0x20d
  const STM_LR := 0x4000

  /** A copy of the COUNT register to a general register. */
  predicate ReadsCount(x: Ins) {
    x.what.op == MipsMfc0 && x.r1 == REG_COUNT
  }

  function AddCount(n: int): Ins {
    NewI(ArmAdd, AL, REG_COUNT, REG_COUNT, REG_NOT_USED, n)
  }

  /** newInstrPUSH and newInstrPOP of the link register. */
  function Transfer(op: Opcode, up: bool): Ins {
    var x := Blank(op, AL).(r1 := REG_HOST_SP);
    x.(what := x.what.(imm := STM_LR, up := up))
  }

  /** insertCall_To_C: the call of cc_interrupt, whose address is the literal at base and offset. */
  function CallInterrupt(base: Reg, offset: int): seq<Ins> {
    [ NewI(ArmLdrLit, AL, REG_TEMP_CALL2C, REG_NOT_USED, base, offset),
      Transfer(ArmStm, false),
      New(ArmBx, PL, REG_NOT_USED, REG_TEMP_CALL2C, REG_NOT_USED),
      Transfer(ArmLdm, true) ]
  }

  /** The additions of an update: one or two, the last of which sets the flags. */
  function Additions(n: nat): seq<Ins> {
    var last := AddCount(n % 0x100);
    (if n > 0xff then [AddCount(n / 0x100 % 0x100 * 0x100)] else [])
    + [last.(what := last.what.(setFlags := true))]
  }

  /** The update of COUNT by n instructions. */
  function Update(n: nat, base: Reg, offset: int): seq<Ins> {
    Additions(n) + CallInterrupt(base, offset)
  }

  /** What the first loop puts behind an instruction, the i-th of the segment. */
  function Behind(x: Ins, i: nat): seq<Ins> {
    if ReadsCount(x) then [AddCount(i + 1)] else []
  }

  /** What remains of left instructions to count; the difference is unsigned. */
  function Left(x: Ins, i: nat, left: nat): nat {
    if ReadsCount(x) then (left - (i + 1)) % WORD else left
  }

  /** The first loop: COUNT is updated behind each instruction that reads it, i instructions having
      been passed. */
  function WithReads(c: seq<Ins>, i: nat): seq<Ins> {
    if c == [] then [] else [c[0]] + Behind(c[0], i) + WithReads(c[1..], i + 1)
  }

  function Remaining(c: seq<Ins>, i: nat, left: nat): nat {
    if c == [] then left else Remaining(c[1..], i + 1, Left(c[0], i, left))
  }

  /** The first branch from position i on, or the length of the list. */
  function BranchFrom(c: seq<Ins>, i: nat): (k: nat)
    requires i <= |c|
    ensures i <= k <= |c| && (k < |c| ==> IsHandled(c[k].what.op))
    ensures forall j :: i <= j < k ==> !IsHandled(c[j].what.op)
    decreases |c| - i
  {
    if i == |c| || IsHandled(c[i].what.op) then i else BranchFrom(c, i + 1)
  }

  /** The pass on a segment; None where it runs off the end of the list in search of a branch. A
      single instruction is taken to have the branch behind it. */
  function Counted(c: seq<Ins>, base: Reg, offset: int): Option<seq<Ins>> {
    var d := WithReads(c, 0);
    var n := Remaining(c, 0, |c|);
    if d == [] || n == 0 then Some(d)
    else
      var k := if |d| == 1 then 1 else BranchFrom(d, 1);
      if |d| > 1 && k == |d| then None else Some(d[..k] + Update(n, base, offset) + d[k..])
  }

  // ---------------------------------------------------------------------------------------
  // What it comes to for a segment that does not read COUNT

  predicate NoReads(c: seq<Ins>) {
    forall i :: 0 <= i < |c| ==> !ReadsCount(c[i])
  }

  lemma {:induction false} WithoutReads(c: seq<Ins>, i: nat, left: nat)
    requires NoReads(c)
    ensures WithReads(c, i) == c && Remaining(c, i, left) == left
  {
    if c != [] {
      assert NoReads(c[1..]);
      WithoutReads(c[1..], i + 1, left);
      assert [c[0]] + [] + c[1..] == c;
    }
  }

  /** The pass comes to an end exactly if there is a branch behind the first instruction, or only
      one instruction. */
  lemma CountedExactly(c: seq<Ins>, base: Reg, offset: int)
    requires NoReads(c) && c != []
    ensures Counted(c, base, offset).Some? <==> |c| == 1 || exists i :: 1 <= i < |c| && IsHandled(c[i].what.op)
  {
    WithoutReads(c, 0, |c|);
  }

  /** Instructions with a branch behind them get the update in between: at least one instruction, so
      that there are at least two in front of the branch. */
  lemma UpdateBeforeBranch(words: seq<Ins>, x: Ins, base: Reg, offset: int)
    requires words != [] && NoReads(words + [x]) && IsHandled(x.what.op)
    requires forall i :: 0 <= i < |words| ==> !IsHandled(words[i].what.op)
    ensures Counted(words + [x], base, offset) == Some(words + Update(|words| + 1, base, offset) + [x])
    ensures |words + Update(|words| + 1, base, offset)| >= 2
  {
    hide Update, ReadsCount, IsHandled;
    var c := words + [x];
    WithoutReads(c, 0, |c|);
    UpdateIsSomething(|c|, base, offset);
    var k := BranchFrom(c, 1);
    assert c[|words|] == x;
    assert forall j :: 0 <= j < |words| ==> c[j] == words[j];
    assert c[..k] == words && c[k..] == [x];
  }

  lemma UpdateIsSomething(n: nat, base: Reg, offset: int)
    ensures |Update(n, base, offset)| > 0
  {
  }

  /** A segment of one instruction gets the update behind it. */
  lemma UpdateBehindWord(w: Ins, base: Reg, offset: int)
    requires !ReadsCount(w)
    ensures Counted([w], base, offset) == Some([w] + Update(1, base, offset))
    ensures |[w] + Update(1, base, offset)| >= 2
  {
    hide Update, ReadsCount, WithReads, Remaining;
    WithoutReads([w], 0, 1);
    UpdateIsSomething(1, base, offset);
    assert [w][..1] == [w] && [w][1..] == [];
    var u := Update(1, base, offset);
    assert [w] + u + [] == [w] + u;
  }

  /** What the additions of an update come to. */
  function Total(c: seq<Ins>): int {
    if c == [] then 0 else (if c[0].what.op == ArmAdd then c[0].what.imm else 0) + Total(c[1..])
  }

  /** The update adds the number of instructions if and only if it is below 2^16. */
  lemma UpdateIsRight(n: nat, base: Reg, offset: int)
    ensures Total(Update(n, base, offset)) == n <==> n < 0x1_0000
  {
    hide Total;
    NothingAdded(base, offset);
    TotalSplit(Additions(n), CallInterrupt(base, offset));
    var (high, low) := (AddCount(n / 0x100 % 0x100 * 0x100), AddCount(n % 0x100));
    var last := low.(what := low.what.(setFlags := true));
    TotalOne(last);
    if n > 0xff {
      TotalOne(high);
      TotalSplit([high], [last]);
    } else {
      assert [] + [last] == [last];
    }
  }

  lemma TotalOne(x: Ins)
    ensures Total([x]) == if x.what.op == ArmAdd then x.what.imm else 0
  {
    assert [x][1..] == [];
  }

  lemma {:induction false} TotalSplit(c: seq<Ins>, d: seq<Ins>)
    ensures Total(c + d) == Total(c) + Total(d)
  {
    if c == [] {
      assert c + d == d;
    } else {
      assert (c + d)[0] == c[0] && (c + d)[1..] == c[1..] + d;
      TotalSplit(c[1..], d);
    }
  }

  lemma NothingAdded(base: Reg, offset: int)
    ensures Total(CallInterrupt(base, offset)) == 0
  {
    var call := CallInterrupt(base, offset);
    assert call[1..][1..][1..][1..] == [];
    assert Total(call[1..][1..][1..]) == 0;
    assert Total(call[1..][1..]) == 0;
  }

  // ---------------------------------------------------------------------------------------
  // The pass on the list

  /** One round of the first loop: node k is the instruction at position count of the segment. */
  method UpdateRead(list: InstrList, ins: Instruction, ghost k: nat, count: nat, left: nat)
    returns (next: Instruction?, ghost k': nat, n: nat)
    requires list.Valid() && k < |list.nodes| && ins == list.nodes[k]
    modifies list`nodes, ins`next
    ensures list.Valid() && list.head == old(list.head) && k < k' <= |list.nodes| && next == list.NodeAt(k')
    ensures forall m :: m in list.nodes ==> m in old(list.nodes) || (fresh(m) && m.branchTo == null)
    ensures
      var x := old(list.Code())[k];
      && n == Left(x, count, left)
      && list.Code()[..k'] == old(list.Code())[..k] + [x] + Behind(x, count)
      && list.Code()[k'..] == old(list.Code())[k + 1..]
  {
    hide ReadsCount, AddCount;
    n, k' := left, k + 1;
    var cur := ins;
    if ReadsCount(ins.ins) {
      n := (left - (count + 1)) % WORD;
      cur := list.InsertAfter(ins, k, AddCount(count + 1));
      k' := k + 2;
    }
    next := cur.next;
  }

  lemma ReadsStep(c: seq<Ins>, i: nat, left: nat)
    requires i < |c|
    ensures WithReads(c[i..], i) == [c[i]] + Behind(c[i], i) + WithReads(c[i + 1..], i + 1)
    ensures Remaining(c[i..], i, left) == Remaining(c[i + 1..], i + 1, Left(c[i], i, left))
  {
    hide Behind, Left;
    assert c[i..][1..] == c[i + 1..];
  }

  /** The first loop. */
  method UpdateReads(list: InstrList, len: nat) returns (n: nat)
    requires list.Valid() && len == |list.nodes|
    modifies list`nodes, list.nodes`next
    ensures list.Valid() && list.head == old(list.head)
    ensures forall m :: m in list.nodes ==> m in old(list.nodes) || (fresh(m) && m.branchTo == null)
    ensures list.Code() == WithReads(old(list.Code()), 0) && n == Remaining(old(list.Code()), 0, len)
  {
    hide Behind, Left, WithReads, Remaining;
    var ins, count := list.head, 0;
    n := len;
    ghost var c, k: nat := list.Code(), 0;
    assert c[0..] == c && c[..0] == [] && [] + WithReads(c, 0) == WithReads(c, 0);
    while ins != null
      invariant list.Valid() && list.head == old(list.head) && k <= |list.nodes| && ins == list.NodeAt(k)
      invariant count <= |c| && list.Code()[k..] == c[count..]
      invariant forall m :: m in list.nodes ==> m in old(list.nodes) || (fresh(m) && m.branchTo == null)
      invariant WithReads(c, 0) == list.Code()[..k] + WithReads(c[count..], count)
      invariant Remaining(c, 0, len) == Remaining(c[count..], count, n)
      decreases |c| - count
    {
      ghost var d, x := list.Code(), c[count];
      assert ins in list.nodes;
      assert d[k] == d[k..][0] == x && d[k + 1..] == d[k..][1..] == c[count + 1..];
      ReadsStep(c, count, n);
      AssociateFour(d[..k], [x], Behind(x, count), WithReads(c[count + 1..], count + 1));
      ins, k, n := UpdateRead(list, ins, k, count, n);
      count := count + 1;
    }
    NothingLeft(count, n);
    assert c[count..] == [] && list.Code()[..k] == list.Code();
    assert list.Code() + [] == list.Code();
  }

  lemma NothingLeft(i: nat, left: nat)
    ensures WithReads([], i) == [] && Remaining([], i, left) == left
  {
  }

  /** Go to the instruction in front of the first branch behind the head; false where there is none and
      the loop runs off the end of the list. */
  method FindLast(list: InstrList) returns (ok: bool, cur: Instruction, ghost k: nat)
    requires list.Valid() && list.head != null
    ensures k < |list.nodes| && cur == list.nodes[k]
    ensures ok <==> |list.nodes| == 1 || BranchFrom(list.Code(), 1) < |list.nodes|
    ensures ok ==> k + 1 == if |list.nodes| == 1 then 1 else BranchFrom(list.Code(), 1)
  {
    hide IsHandled;
    cur, k, ok := list.head, 0, true;
    if cur.next != null {
      while !IsHandled(cur.next.ins.what.op)
        invariant k + 1 < |list.nodes| && cur == list.nodes[k] && cur.next == list.nodes[k + 1]
        invariant forall j :: 1 <= j <= k ==> !IsHandled(list.Code()[j].what.op)
        decreases |list.nodes| - k
      {
        assert list.Code()[k + 1] == cur.next.ins;
        cur, k := cur.next, k + 1;
        if cur.next == null {
          return false, cur, k;
        }
      }
      assert list.Code()[k + 1] == cur.next.ins;
    }
  }

  /** The second part: the update goes behind cur, which is node k. */
  method InsertUpdate(list: InstrList, cur: Instruction, ghost k: nat, n: nat, base: Reg, offset: int)
    requires list.Valid() && k < |list.nodes| && cur == list.nodes[k]
    modifies list`nodes, cur`next
    ensures list.Valid()
    ensures list.Code() == old(list.Code())[..k + 1] + Update(n, base, offset) + old(list.Code())[k + 1..]
    ensures forall m :: m in list.nodes ==> m in old(list.nodes) || (fresh(m) && m.branchTo == null)
  {
    hide Update;
    ghost var last, j := list.InsertAllAfter(cur, k, Update(n, base, offset));
    assert list.Code() == list.Code()[..j + 1] + list.Code()[j + 1..];
  }

  /** Translate_CountRegister for a segment of len words; false where the original runs off the end of
      the list. */
  method TranslateCountRegister(list: InstrList, len: nat, base: Reg, offset: int) returns (ok: bool)
    requires list.Valid() && len == |list.nodes|
    modifies list`nodes, list.nodes`next
    ensures ok <==> Counted(old(list.Code()), base, offset).Some?
    ensures ok ==> list.Valid() && list.Code() == Counted(old(list.Code()), base, offset).value
    ensures forall m :: m in list.nodes ==> m in old(list.nodes) || (fresh(m) && m.branchTo == null)
  {
    hide Update, WithReads, Remaining, BranchFrom, IsHandled;
    if list.head == null {
      NothingLeft(0, 0);
      assert list.Code() == [];
      return true;
    }
    var n := UpdateReads(list, len);
    if n > 0 {
      var cur;
      ghost var k;
      ok, cur, k := FindLast(list);
      if ok {
        assert cur in list.nodes;
        InsertUpdate(list, cur, k, n, base, offset);
      }
    } else {
      ok := true;
    }
  }
}
