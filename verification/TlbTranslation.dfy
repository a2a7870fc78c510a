/** What the page tables are for: after any run of tlb_map and tlb_unmap, looking an address up gives the
    physical address the mapped entry says.
 */
module TlbTranslation {
  import opened Ir
  import opened Bits
  import opened Tlb

  /** virtual_to_physical_address on one table entry: none for zero, which stands for a refill exception. */
  function Translated(entry: nat, a: nat): Option<nat> {
    if entry == 0 then None else Some(entry / PAGE * PAGE + a % PAGE)
  }

  /** The half is a run of pages, mapped to a run of pages. */
  predicate IsAligned(h: Half) {
    h.IsWord() && h.start % PAGE == 0 && h.end % PAGE == 0 && h.phys % PAGE == 0
  }

  /** Whether the half lies in the segments the processor does not translate, in which tlb_map leaves it
      out. */
  predicate IsUnmapped(h: Half) {
    h.start >= 0x8000_0000 && h.end < 0xc000_0000
  }

  /** The half serves the access to a. */
  predicate Serves(h: Half, write: bool, a: nat) {
    h.valid && (h.dirty || !write) && h.start <= a < h.end && !IsUnmapped(h) && h.phys < 0x2000_0000
  }

  /** A page is covered exactly if its addresses lie in the half. */
  lemma CoveredAddresses(h: Half, a: nat)
    requires IsAligned(h)
    ensures h.Covers(a / PAGE) <==> h.start <= a < h.end
  {
    DivMod(a, PAGE);
    DivMod(h.start, PAGE);
    DivMod(h.end, PAGE);
    var (p, s, e) := (a / PAGE, h.start / PAGE, h.end / PAGE);
    assert h.Covers(p) <==> s <= p < e;
  }

  /** The entry of a page leads to its physical page, in the segment that starts at 0x8000_0000, exactly if
      that does not run past the segment. */
  lemma PageTranslates(h: Half, a: nat)
    requires IsAligned(h) && h.start <= a < h.end && h.phys < 0x2000_0000
    ensures Translated(h.PageValue(a / PAGE), a) == Some(0x8000_0000 + h.phys + (a - h.start))
      <==> h.phys + (a - h.start) < 0x8000_0000
  {
    DivMod(a, PAGE);
    DivMod(h.start, PAGE);
    DivMod(h.phys, PAGE);
    var n := h.phys / PAGE + (a / PAGE - h.start / PAGE);
    var v := h.PageValue(a / PAGE);
    assert h.phys + (a / PAGE - h.start / PAGE) * PAGE + 0xfff == n * PAGE + 0xfff;
    assert h.phys + (a - h.start) == n * PAGE + a % PAGE;
    if n * PAGE < 0x8000_0000 {
      Quotient(v, PAGE, n + 0x8000_0000 / PAGE, 0xfff);
    } else {
      DivMod(v, PAGE);
    }
  }

  function HalfOf(e: Entry, odd: bool): Half {
    if odd then e.odd else e.even
  }

  ghost predicate AreAligned(es: seq<Entry>) {
    forall i :: 0 <= i < |es| ==> IsAligned(es[i].even) && IsAligned(es[i].odd)
  }

  /** Some half of a mapped entry serves the access. */
  ghost predicate IsServed(es: seq<Entry>, mapped: set<nat>, write: bool, a: nat) {
    exists i, odd :: 0 <= i < |es| && i in mapped && Serves(HalfOf(es[i], odd), write, a)
  }

  /** An address in a half that is mapped, and that serves the access, is translated as the half says. */
  lemma ServedAddress(es: seq<Entry>, steps: seq<Step>, write: bool, i: nat, odd: bool, a: nat)
    requires Disjoint(es) && AreAligned(es) && forall s :: s in steps ==> s.entry < |es|
    requires i < |es| && i in Mapped(steps) && Serves(HalfOf(es[i], odd), write, a)
    ensures
      var h := HalfOf(es[i], odd);
      Translated(TableAfter(es, steps, write)(a / PAGE), a) == Some(0x8000_0000 + h.phys + (a - h.start))
      <==> h.phys + (a - h.start) < 0x8000_0000
  {
    hide Translated, TableAfter, Scan, Mapped;
    var (h, other, p) := (HalfOf(es[i], odd), HalfOf(es[i], !odd), a / PAGE);
    CoveredAddresses(h, a);
    assert !other.Covers(p);
    TablesAgreeWithEntries(es, steps, write, p);
    ScanOfCovered(es, Mapped(steps), write, p, i);
    PageTranslates(h, a);
  }

  lemma {:induction false} ScanMisses(es: seq<Entry>, mapped: set<nat>, write: bool, a: nat)
    requires AreAligned(es) && !IsServed(es, mapped, write, a)
    ensures Scan(es, mapped, write, a / PAGE) == 0
  {
    hide Serves, Half.Covers;
    if es != [] {
      var n := |es| - 1;
      assert AreAligned(es[..n]) && !IsServed(es[..n], mapped, write, a);
      ScanMisses(es[..n], mapped, write, a);
      if n in mapped {
        assert !Serves(HalfOf(es[n], false), write, a) && !Serves(HalfOf(es[n], true), write, a);
        NotEntered(es[n].even, write, a);
        NotEntered(es[n].odd, write, a);
      }
    }
  }

  lemma NotEntered(h: Half, write: bool, a: nat)
    requires IsAligned(h) && !Serves(h, write, a)
    ensures !(h.In(write) && h.Mappable() && h.Covers(a / PAGE))
  {
    CoveredAddresses(h, a);
  }

  /** An address that no half of a mapped entry serves is not translated at all. */
  lemma MissedAddress(es: seq<Entry>, steps: seq<Step>, write: bool, a: nat)
    requires Disjoint(es) && AreAligned(es) && forall s :: s in steps ==> s.entry < |es|
    requires !IsServed(es, Mapped(steps), write, a)
    ensures Translated(TableAfter(es, steps, write)(a / PAGE), a) == None
  {
    hide TableAfter, Scan, Mapped, IsServed;
    TablesAgreeWithEntries(es, steps, write, a / PAGE);
    ScanMisses(es, Mapped(steps), write, a);
  }
}
