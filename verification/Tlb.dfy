/** The page tables of the translation lookaside buffer: tlb_map and tlb_unmap keep them equal to
    what a scan of the mapped entries would give.
 */
module Tlb {
  import opened Bits

  const PAGE: nat := 0x1000
  const PAGES: nat := 0x10_0000

  /** One of the two halves of an entry, with 32-bit addresses. */
  datatype Half = Half(valid: bool, dirty: bool, start: nat, end: nat, phys: nat)
  {
    predicate IsWord() {
      start < WORD && end < WORD && phys < WORD
    }

    /** The pages the loops visit: from that of the start, in steps, while below the end. */
    predicate Covers(p: int) {
      p >= start / PAGE && start + (p - start / PAGE) * PAGE < end
    }

    /** The condition tlb_map puts on a half; tlb_unmap does not. */
    predicate Mappable() {
      start < end && !(start >= 0x8000_0000 && end < 0xc000_0000) && phys < 0x2000_0000
    }

    /** Which table the half is entered in: the one for reads, or the one for writes if dirty. */
    predicate In(write: bool) {
      valid && (write ==> dirty)
    }

    /** What tlb_map enters for page p: the unsigned sum with its top bit set. */
    function PageValue(p: int): (v: nat)
      ensures 0 < v
    {
      var sum := (phys + (p - start / PAGE) * PAGE + 0xfff) % WORD;
      if sum < 0x8000_0000 then sum + 0x8000_0000 else sum
    }

    /** The loops step past the end without wrapping round. */
    predicate Terminates() {
      start >= end || WORD - PAGE + start % PAGE >= end
    }
  }

  datatype Entry = Entry(even: Half, odd: Half)
  {
    predicate IsWord() {
      even.IsWord() && odd.IsWord()
    }

    predicate Terminates() {
      (even.valid ==> even.Terminates()) && (odd.valid ==> odd.Terminates())
    }

    /** tlb_unmap clears page p of the table. */
    predicate Clears(write: bool, p: int) {
      (even.In(write) && even.Covers(p)) || (odd.In(write) && odd.Covers(p))
    }
  }

  // ---------------------------------------------------------------------------------------
  // The tables as functions of the page

  type Table = int -> nat

  function MapHalf(t: Table, h: Half, write: bool): Table {
    (p: int) => if h.In(write) && h.Mappable() && h.Covers(p) then h.PageValue(p) else t(p)
  }

  function ClearHalf(t: Table, h: Half, write: bool): Table {
    (p: int) => if h.In(write) && h.Covers(p) then 0 else t(p)
  }

  function MapTable(t: Table, e: Entry, write: bool): Table {
    MapHalf(MapHalf(t, e.even, write), e.odd, write)
  }

  function UnmapTable(t: Table, e: Entry, write: bool): Table {
    ClearHalf(ClearHalf(t, e.even, write), e.odd, write)
  }

  // ---------------------------------------------------------------------------------------
  // Agreement with the entries

  datatype Step = Map(entry: nat) | Unmap(entry: nat)

  /** No page is covered by two halves of different entries, or by both halves of one. */
  ghost predicate Disjoint(es: seq<Entry>) {
    && (forall i, p :: 0 <= i < |es| ==> !(es[i].even.Covers(p) && es[i].odd.Covers(p)))
    && (forall i, j, p :: 0 <= i < j < |es| && (es[i].even.Covers(p) || es[i].odd.Covers(p)) ==>
        !es[j].even.Covers(p) && !es[j].odd.Covers(p))
  }

  /** What a scan of the mapped entries, from the last one back, gives for page p. */
  function Scan(es: seq<Entry>, mapped: set<nat>, write: bool, p: int): nat {
    if es == [] then 0
    else
      var (n, e) := (|es| - 1, es[|es| - 1]);
      if n in mapped && e.odd.In(write) && e.odd.Mappable() && e.odd.Covers(p) then e.odd.PageValue(p)
      else if n in mapped && e.even.In(write) && e.even.Mappable() && e.even.Covers(p) then e.even.PageValue(p)
      else Scan(es[..n], mapped, write, p)
  }

  /** The entries mapped after a run of steps. */
  function Mapped(steps: seq<Step>): set<nat> {
    if steps == [] then {}
    else
      var before := Mapped(steps[..|steps| - 1]);
      match steps[|steps| - 1]
      case Map(i) => before + {i}
      case Unmap(i) => before - {i}
  }

  /** The table after a run of steps on empty tables. */
  function TableAfter(es: seq<Entry>, steps: seq<Step>, write: bool): Table
    requires forall s :: s in steps ==> s.entry < |es|
  {
    if steps == [] then (p: int) => 0
    else
      var before := TableAfter(es, steps[..|steps| - 1], write);
      match steps[|steps| - 1]
      case Map(i) => MapTable(before, es[i], write)
      case Unmap(i) => UnmapTable(before, es[i], write)
  }

  lemma {:induction false} ScanIgnoresOthers(es: seq<Entry>, mapped: set<nat>, mapped': set<nat>, write: bool, p: int,
                                             i: nat)
    requires forall j :: 0 <= j < |es| && j != i ==> (j in mapped <==> j in mapped')
    requires i < |es| ==> !es[i].even.Covers(p) && !es[i].odd.Covers(p)
    ensures Scan(es, mapped, write, p) == Scan(es, mapped', write, p)
  {
    if es != [] {
      ScanIgnoresOthers(es[..|es| - 1], mapped, mapped', write, p, i);
    }
  }

  /** The scan at a page that entry i covers depends on entry i alone. */
  lemma {:induction false} ScanOfCovered(es: seq<Entry>, mapped: set<nat>, write: bool, p: int, i: nat)
    requires Disjoint(es) && i < |es| && (es[i].even.Covers(p) || es[i].odd.Covers(p))
    ensures Scan(es, mapped, write, p) ==
      if i in mapped && es[i].odd.In(write) && es[i].odd.Mappable() && es[i].odd.Covers(p) then es[i].odd.PageValue(p)
      else if i in mapped && es[i].even.In(write) && es[i].even.Mappable() && es[i].even.Covers(p) then
        es[i].even.PageValue(p)
      else 0
  {
    var n := |es| - 1;
    if i == n {
      ScanOfUncovered(es[..n], mapped, write, p);
    } else {
      ScanOfCovered(es[..n], mapped, write, p, i);
    }
  }

  lemma {:induction false} ScanOfUncovered(es: seq<Entry>, mapped: set<nat>, write: bool, p: int)
    requires forall i :: 0 <= i < |es| ==> !es[i].even.Covers(p) && !es[i].odd.Covers(p)
    ensures Scan(es, mapped, write, p) == 0
  {
    if es != [] {
      ScanOfUncovered(es[..|es| - 1], mapped, write, p);
    }
  }

  /** After any sequence of map and unmap operations the tables for reads and for writes are what a
      scan of the currently mapped entries gives. */
  lemma {:induction false} TablesAgreeWithEntries(es: seq<Entry>, steps: seq<Step>, write: bool, p: int)
    requires Disjoint(es) && forall s :: s in steps ==> s.entry < |es|
    ensures TableAfter(es, steps, write)(p) == Scan(es, Mapped(steps), write, p)
    decreases |steps|
  {
    if steps == [] {
      ScanOfNone(es, write, p);
    } else {
      var (before, s) := (steps[..|steps| - 1], steps[|steps| - 1]);
      var i := s.entry;
      TablesAgreeWithEntries(es, before, write, p);
      if es[i].even.Covers(p) || es[i].odd.Covers(p) {
        ScanOfCovered(es, Mapped(before), write, p, i);
        ScanOfCovered(es, Mapped(steps), write, p, i);
      } else {
        ScanIgnoresOthers(es, Mapped(before), Mapped(steps), write, p, i);
      }
    }
  }

  lemma {:induction false} ScanOfNone(es: seq<Entry>, write: bool, p: int)
    ensures Scan(es, {}, write, p) == 0
  {
    if es != [] {
      ScanOfNone(es[..|es| - 1], write, p);
    }
  }

  /** Unmapping undoes mapping exactly when the pages it clears were empty. */
  lemma UnmapUndoesMap(t: Table, e: Entry, write: bool)
    ensures (forall p :: UnmapTable(MapTable(t, e, write), e, write)(p) == t(p))
      <==> (forall p :: e.Clears(write, p) ==> t(p) == 0)
  {
    var u := UnmapTable(MapTable(t, e, write), e, write);
    forall p ensures u(p) == if e.Clears(write, p) then 0 else t(p) {
    }
  }

  // ---------------------------------------------------------------------------------------
  // The loops

  /** The loop variable after n rounds; it wraps at 2^32. */
  function Index(start: nat, n: nat): nat {
    (start + n * PAGE) % WORD
  }

  lemma IndexBound(start: nat, n: nat)
    ensures Index(start, n) <= WORD - PAGE + start % PAGE
  {
    var (v, k) := (start + n * PAGE, WORD / PAGE);
    DivMod(v, WORD);
    var q := start / PAGE + n - v / WORD * k;
    assert Index(start, n) == q * PAGE + start % PAGE;
  }

  /** The loop over a half comes to an end exactly under the condition. */
  lemma LoopTerminates(h: Half)
    requires h.IsWord()
    ensures (exists n :: Index(h.start, n) >= h.end) <==> h.Terminates()
  {
    if h.Terminates() {
      var n := if h.start >= h.end then 0 else (WORD - PAGE - h.start / PAGE * PAGE) / PAGE;
      assert Index(h.start, n) >= h.end;
    } else {
      forall n ensures Index(h.start, n) < h.end {
        IndexBound(h.start, n);
      }
    }
  }

  class Tables {
    const r: array<nat>
    const w: array<nat>

    ghost predicate Valid() {
      r.Length == PAGES && w.Length == PAGES && r != w
    }

    constructor ()
      ensures Valid() && fresh(r) && fresh(w)
      ensures forall p :: 0 <= p < PAGES ==> r[p] == 0 && w[p] == 0
    {
      r, w := new nat[PAGES](_ => 0), new nat[PAGES](_ => 0);
    }

    /** One of the loops of tlb_map. */
    static method FillPages(table: array<nat>, h: Half)
      requires table.Length == PAGES && h.IsWord() && h.Terminates()
      modifies table
      ensures forall p :: 0 <= p < PAGES ==> table[p] == if h.Covers(p) then h.PageValue(p) else old(table[p])
    {
      var i := h.start;
      while i < h.end
        invariant h.start <= i < WORD && (i - h.start) % PAGE == 0
        invariant forall p :: 0 <= p < PAGES ==>
          table[p] == if h.Covers(p) && p < i / PAGE then h.PageValue(p) else old(table[p])
        decreases h.end - i
      {
        PageOf(h, i);
        var sum := (h.phys + (i - h.start) + 0xfff) % WORD;
        table[i / PAGE] := if sum < 0x8000_0000 then sum + 0x8000_0000 else sum;
        i := i + PAGE;
      }
      NoFurtherPages(h, i);
    }

    /** One of the loops of tlb_unmap. */
    static method ClearPages(table: array<nat>, h: Half)
      requires table.Length == PAGES && h.IsWord() && h.Terminates()
      modifies table
      ensures forall p :: 0 <= p < PAGES ==> table[p] == if h.Covers(p) then 0 else old(table[p])
    {
      var i := h.start;
      while i < h.end
        invariant h.start <= i < WORD && (i - h.start) % PAGE == 0
        invariant forall p :: 0 <= p < PAGES ==> table[p] == if h.Covers(p) && p < i / PAGE then 0 else old(table[p])
        decreases h.end - i
      {
        PageOf(h, i);
        table[i / PAGE] := 0;
        i := i + PAGE;
      }
      NoFurtherPages(h, i);
    }

    method MapHalfEntry(h: Half)
      requires Valid() && h.IsWord() && (h.valid ==> h.Terminates())
      modifies r, w
      ensures forall p :: 0 <= p < PAGES ==>
        && r[p] == (if h.In(false) && h.Mappable() && h.Covers(p) then h.PageValue(p) else old(r[p]))
        && w[p] == (if h.In(true) && h.Mappable() && h.Covers(p) then h.PageValue(p) else old(w[p]))
    {
      if h.valid && h.Mappable() {
        FillPages(r, h);
        if h.dirty {
          FillPages(w, h);
        }
      }
    }

    method UnmapHalfEntry(h: Half)
      requires Valid() && h.IsWord() && (h.valid ==> h.Terminates())
      modifies r, w
      ensures forall p :: 0 <= p < PAGES ==>
        && r[p] == (if h.In(false) && h.Covers(p) then 0 else old(r[p]))
        && w[p] == (if h.In(true) && h.Covers(p) then 0 else old(w[p]))
    {
      if h.valid {
        ClearPages(r, h);
        if h.dirty {
          ClearPages(w, h);
        }
      }
    }

    /** tlb_map, for any functions that describe the tables before. */
    method TlbMap(e: Entry, ghost tr: Table, ghost tw: Table)
      requires Valid() && e.IsWord() && e.Terminates()
      requires forall p :: 0 <= p < PAGES ==> r[p] == tr(p) && w[p] == tw(p)
      modifies r, w
      ensures forall p :: 0 <= p < PAGES ==> r[p] == MapTable(tr, e, false)(p) && w[p] == MapTable(tw, e, true)(p)
    {
      MapHalfEntry(e.even);
      MapHalfEntry(e.odd);
    }

    /** tlb_unmap. */
    method TlbUnmap(e: Entry, ghost tr: Table, ghost tw: Table)
      requires Valid() && e.IsWord() && e.Terminates()
      requires forall p :: 0 <= p < PAGES ==> r[p] == tr(p) && w[p] == tw(p)
      modifies r, w
      ensures forall p :: 0 <= p < PAGES ==> r[p] == UnmapTable(tr, e, false)(p) && w[p] == UnmapTable(tw, e, true)(p)
    {
      UnmapHalfEntry(e.even);
      UnmapHalfEntry(e.odd);
    }
  }

  lemma PageOf(h: Half, i: nat)
    requires h.start <= i < h.end && (i - h.start) % PAGE == 0 && i < WORD && h.IsWord()
    ensures i / PAGE < PAGES && i / PAGE - h.start / PAGE == (i - h.start) / PAGE && h.Covers(i / PAGE)
    ensures (i / PAGE - h.start / PAGE) * PAGE == i - h.start && (i + PAGE) / PAGE == i / PAGE + 1
    ensures h.Terminates() ==> i + PAGE < WORD
  {
  }

  lemma NoFurtherPages(h: Half, i: nat)
    requires i >= h.end && i >= h.start && (i - h.start) % PAGE == 0
    ensures forall p {:trigger h.Covers(p)} :: h.Covers(p) ==> p < i / PAGE
  {
  }
}
