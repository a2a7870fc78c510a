/** Literals: values too large for an immediate, kept beside the code of a segment or in a pool
    below the frame pointer, and found again relative to the program counter or that pointer.
 */
module Literals {
  import opened Ir
  import opened Segments

  // ---------------------------------------------------------------------------------------
  // The global pool

  /** The words at fp - 4, fp - 8, ...: slot x is the word at fp - 4x. Slot 0 is not used. count
      slots have been given out. */
  datatype Pool = Pool(slots: seq<nat>, count: nat)

  const SLOTS: nat := 1024

  /** The slots given out hold different values, none of them zero, and the others are zero. */
  predicate IsPool(g: Pool) {
    && |g.slots| == SLOTS + 1 && g.count < SLOTS
    && (forall x :: 1 <= x <= g.count ==> g.slots[x] != 0)
    && (forall x, y :: 1 <= x < y <= g.count ==> g.slots[x] != g.slots[y])
    && (forall x :: g.count < x <= SLOTS ==> g.slots[x] == 0)
  }

  /** The first slot from x on, below 1024, that holds the value; 1024 when there is none. */
  function FindSlot(slots: seq<nat>, value: nat, x: nat): (y: nat)
    requires x <= SLOTS < |slots|
    ensures x <= y <= SLOTS && (y < SLOTS ==> slots[y] == value)
    ensures forall z :: x <= z < y ==> slots[z] != value
    decreases SLOTS - x
  {
    if x == SLOTS || slots[x] == value then x else FindSlot(slots, value, x + 1)
  }

  // ---------------------------------------------------------------------------------------
  // addLiteral

  /** Where a literal is: in a slot of the pool, with the sign of the offset the source returns, or
      at a byte offset in the literals of the segment. */
  datatype Place = Global(slot: nat, negative: bool) | Local(offset: nat)

  function FindLocal(lits: seq<nat>, value: nat): (p: nat)
    ensures p <= |lits| && (p < |lits| ==> lits[p] == value)
    ensures forall q :: 0 <= q < p ==> lits[q] != value
  {
    if lits == [] || lits[0] == value then 0 else FindLocal(lits[1..], value) + 1
  }

  /** The literals and the offset after adding a value to a segment. For a value already there the
      offset counts the word behind it. */
  function AddLocal(lits: seq<nat>, value: nat): (r: (seq<nat>, nat))
  {
    var p := FindLocal(lits, value);
    if p < |lits| then (lits, 4 * (p + 1)) else (lits + [value], 4 * |lits|)
  }

  datatype Added = Added(pool: Pool, lits: seq<nat>, place: Place)

  /** addLiteral; nothing where it aborts because the pool is full. */
  function AddLiteral(g: Pool, kind: SegType, lits: seq<nat>, value: nat): Option<Added>
    requires |g.slots| == SLOTS + 1 && g.count <= SLOTS
  {
    var x := FindSlot(g.slots, value, 1);
    if x < SLOTS then Some(Added(g, lits, Global(x, false)))
    else if kind == Sandwich then
      if g.count >= SLOTS then None
      else
        var n := g.count + 1;
        Some(Added(Pool(g.slots[n := value], n), lits, Global(n, true)))
    else
      var (lits', offset) := AddLocal(lits, value);
      Some(Added(g, lits', Local(offset)))
  }

  /** The first 1023 slots, those the search looks at, hold the value. */
  ghost predicate IsInPool(g: Pool, value: nat)
    requires |g.slots| == SLOTS + 1
  {
    exists x :: 1 <= x < SLOTS && g.slots[x] == value
  }

  /** addLiteral aborts exactly for a value that is not in the pool and is to be put into it when it is full.
      Otherwise a value in the pool stays where it is, a segment that cannot hold literals gets it in the
      next free slot, and any other in its own literals. */
  lemma AddLiteralExactly(g: Pool, kind: SegType, lits: seq<nat>, value: nat)
    requires |g.slots| == SLOTS + 1 && g.count <= SLOTS
    ensures
      var q := AddLiteral(g, kind, lits, value);
      && (q.None? <==> !IsInPool(g, value) && kind == Sandwich && g.count == SLOTS)
      && (IsInPool(g, value) ==> q.value.pool == g && q.value.lits == lits && q.value.place.Global?)
      && (!IsInPool(g, value) && kind == Sandwich && g.count < SLOTS ==>
          && q.value.pool == Pool(g.slots[g.count + 1 := value], g.count + 1)
          && q.value.lits == lits && q.value.place.Global?)
      && (!IsInPool(g, value) && kind != Sandwich ==> q.value.pool == g && q.value.place.Local?)
  {
    var x := FindSlot(g.slots, value, 1);
    assert x < SLOTS ==> g.slots[x] == value;
  }

  // ---------------------------------------------------------------------------------------
  // The pool over any run

  /** A call of addLiteral: the kind of the segment and its literals so far, and the value. */
  datatype Request = Request(kind: SegType, lits: seq<nat>, value: nat)

  /** The pool after a run of calls; nothing when one of them aborts. */
  function RunPool(g: Pool, rs: seq<Request>): (h: Option<Pool>)
    requires |g.slots| == SLOTS + 1 && g.count <= SLOTS
    ensures h.Some? ==> |h.value.slots| == SLOTS + 1 && h.value.count <= SLOTS
    decreases |rs|
  {
    if rs == [] then Some(g)
    else
      var a := AddLiteral(g, rs[0].kind, rs[0].lits, rs[0].value);
      if a.None? then None else RunPool(a.value.pool, rs[1..])
  }

  lemma AddKeepsPool(g: Pool, r: Request)
    requires IsPool(g) && r.value != 0 && AddLiteral(g, r.kind, r.lits, r.value).Some?
    ensures
      var a := AddLiteral(g, r.kind, r.lits, r.value).value;
      && g.count <= a.pool.count <= g.count + 1 && |a.pool.slots| == SLOTS + 1
      && (a.pool.count < SLOTS ==> IsPool(a.pool))
      && (a.place.Global? ==> 1 <= a.place.slot <= a.pool.count && a.pool.slots[a.place.slot] == r.value)
      && (forall x :: 1 <= x <= g.count ==> a.pool.slots[x] == g.slots[x])
  {
  }

  /** Slots given out never change: whatever else is added, they keep their values. */
  lemma {:induction false} PoolOnlyGrows(g: Pool, rs: seq<Request>)
    requires IsPool(g) && RunPool(g, rs).Some? && RunPool(g, rs).value.count < SLOTS
    requires forall i :: 0 <= i < |rs| ==> rs[i].value != 0
    ensures
      var h := RunPool(g, rs).value;
      && IsPool(h) && g.count <= h.count
      && (forall x :: 1 <= x <= g.count ==> h.slots[x] == g.slots[x])
    decreases |rs|
  {
    if rs != [] {
      var a := AddLiteral(g, rs[0].kind, rs[0].lits, rs[0].value).value;
      AddKeepsPool(g, rs[0]);
      CountGrows(a.pool, rs[1..]);
      PoolOnlyGrows(a.pool, rs[1..]);
    }
  }

  lemma {:induction false} CountGrows(g: Pool, rs: seq<Request>)
    requires |g.slots| == SLOTS + 1 && g.count <= SLOTS && RunPool(g, rs).Some?
    ensures g.count <= RunPool(g, rs).value.count
    decreases |rs|
  {
    if rs != [] {
      CountGrows(AddLiteral(g, rs[0].kind, rs[0].lits, rs[0].value).value.pool, rs[1..]);
    }
  }

  /** The place a call in the middle of a run returned still resolves to its value at the end, as
      long as no value is zero and no more than 1023 slots are given out. */
  lemma GlobalLiteralsKeepResolving(g: Pool, rs: seq<Request>, r: Request, later: seq<Request>)
    requires IsPool(g) && RunPool(g, rs + [r] + later).Some? && RunPool(g, rs + [r] + later).value.count < SLOTS
    requires forall i :: 0 <= i < |rs + [r] + later| ==> (rs + [r] + later)[i].value != 0
    ensures RunPool(g, rs).Some?
    ensures
      var h := RunPool(g, rs).value;
      var h' := RunPool(g, rs + [r] + later).value;
      && AddLiteral(h, r.kind, r.lits, r.value).Some? && IsPool(h')
      && var place := AddLiteral(h, r.kind, r.lits, r.value).value.place;
      (place.Global? ==> 1 <= place.slot <= h'.count && h'.slots[place.slot] == r.value)
  {
    assert rs + [r] + later == rs + ([r] + later);
    RunPoolSplit(g, rs, [r] + later);
    assert ([r] + later)[1..] == later;
    var h := RunPool(g, rs).value;
    assert forall i :: 0 <= i < |rs| ==> rs[i].value == (rs + [r] + later)[i].value;
    assert (rs + [r] + later)[|rs|] == r;
    assert forall i :: 0 <= i < |later| ==> later[i].value == (rs + [r] + later)[|rs| + 1 + i].value;
    CountGrows(h, [r] + later);
    PoolOnlyGrows(g, rs);
    AddKeepsPool(h, r);
    var a := AddLiteral(h, r.kind, r.lits, r.value).value;
    CountGrows(a.pool, later);
    PoolOnlyGrows(a.pool, later);
  }

  lemma {:induction false} RunPoolSplit(g: Pool, rs: seq<Request>, qs: seq<Request>)
    requires |g.slots| == SLOTS + 1 && g.count <= SLOTS
    ensures RunPool(g, rs + qs).Some? ==> RunPool(g, rs).Some?
    ensures RunPool(g, rs).Some? ==> RunPool(g, rs + qs) == RunPool(RunPool(g, rs).value, qs)
    decreases |rs|
  {
    if rs == [] {
      assert rs + qs == qs;
    } else {
      assert (rs + qs)[0] == rs[0] && (rs + qs)[1..] == rs[1..] + qs;
      var a := AddLiteral(g, rs[0].kind, rs[0].lits, rs[0].value);
      if a.Some? {
        RunPoolSplit(a.value.pool, rs[1..], qs);
      }
    }
  }

  /** The value zero is found in the first slot not given out, and the next new value lands there:
      the place returned for zero stops resolving. */
  lemma ZeroLiteralIsLost(g: Pool, kind: SegType, lits: seq<nat>, value: nat)
    requires IsPool(g) && g.count < SLOTS - 1 && value != 0 && FindSlot(g.slots, value, 1) == SLOTS
    ensures
      var zero := AddLiteral(g, kind, lits, 0).value;
      var next := AddLiteral(zero.pool, Sandwich, lits, value).value;
      && zero.place == Global(g.count + 1, false) && zero.pool == g
      && next.pool.slots[zero.place.slot] == value != 0
  {
    assert g.slots[g.count + 1] == 0;
  }

  // ---------------------------------------------------------------------------------------
  // The literals of a segment

  predicate Different(values: seq<nat>) {
    forall i, j :: 0 <= i < j < |values| ==> values[i] != values[j]
  }

  /** The offset is that of the value in the list exactly when the value was new. */
  lemma LocalOffsetIsRight(lits: seq<nat>, value: nat)
    requires Different(lits)
    ensures
      var (lits', offset) := AddLocal(lits, value);
      && offset % 4 == 0 && Different(lits')
      && (offset / 4 < |lits'| && lits'[offset / 4] == value <==> value !in lits)
  {
  }

  /** All values of a run added to an empty list. */
  function AddAll(values: seq<nat>): (lits: seq<nat>)
  {
    if values == [] then [] else AddLocal(AddAll(values[..|values| - 1]), values[|values| - 1]).0
  }

  lemma NextIsNew(values: seq<nat>, i: nat)
    requires Different(values) && i < |values|
    ensures Different(values[..i]) && AddLocal(values[..i], values[i]) == (values[..i + 1], 4 * i)
  {
    assert values[..i] + [values[i]] == values[..i + 1];
  }

  lemma {:induction false} AddAllKeeps(values: seq<nat>)
    requires Different(values)
    ensures AddAll(values) == values
  {
    hide AddLocal;
    if values != [] {
      var n := |values| - 1;
      NextIsNew(values, n);
      AddAllKeeps(values[..n]);
      assert values[..n + 1] == values;
    }
  }

  /** Pairwise distinct values end up in the list in order, each at the offset it was given. */
  lemma DistinctValuesStayInOrder(values: seq<nat>)
    requires Different(values)
    ensures AddAll(values) == values
    ensures forall i :: 0 <= i < |values| ==> AddLocal(AddAll(values[..i]), values[i]) == (values[..i + 1], 4 * i)
  {
    hide AddLocal, AddAll;
    AddAllKeeps(values);
    forall i | 0 <= i < |values| ensures AddLocal(AddAll(values[..i]), values[i]) == (values[..i + 1], 4 * i) {
      NextIsNew(values, i);
      AddAllKeeps(values[..i]);
    }
  }
}
