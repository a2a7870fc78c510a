/** A list inside the domain of Translate_Registers, and what the pass makes of it: two registers
    in use at the same time get different host registers.
 */
module AllocationExample {
  import opened Ir
  import opened RegisterAllocation
  import opened AllocationCorrectness
  import opened AllocationLimits

  /** Two moves and a store of what they left. */
  function MovesAndStore(): seq<Ins> {
    [Move(1, REG_HOST_R0), Move(2, REG_HOST_R1), Store(1, 2)]
  }

  lemma IsInOrder(i: nat, r: Reg)
    requires i < 3 && (r == 1 || r == 2) && MovesAndStore()[i].Mentions(r)
    ensures InOrder(Observe(), MovesAndStore(), i, r)
  {
    var c := MovesAndStore();
    assert c[2].Reads(r);
    if i == 2 {
      assert c[r - 1].Mentions(r);
    }
  }

  lemma IsInDomain()
    ensures WellFormed(Observe(), MovesAndStore())
  {
    hide InOrder;
    var c := MovesAndStore();
    forall i, r: Reg | 0 <= i < |c| && IsAllocatable(r) && c[i].Mentions(r) ensures InOrder(Observe(), c, i, r) {
      IsInOrder(i, r);
    }
  }

  lemma FirstMove(c: seq<Ins>, h: Reg)
    requires c == MovesAndStore() && h == POOL_FIRST
    ensures Probe(c, 0, 0, 0) == Some(0)
    ensures Probe([Move(h, REG_HOST_R0), Move(2, REG_HOST_R1), Store(h, 2)], 0, 0, 0) == Some(1)
  {
    assert NextUse(c, 1, h, 0) < 0 by {
      assert NextUse(c, 2, h, 1) < 0;
    }
    var (d, h') := ([Move(h, REG_HOST_R0), Move(2, REG_HOST_R1), Store(h, 2)], Candidate(1));
    assert NextUse(d, 1, h, 0) >= 0 by {
      assert NextUse(d, 2, h, 1) >= 0;
    }
    assert NextUse(d, 1, h', 0) < 0 by {
      assert NextUse(d, 2, h', 1) < 0;
    }
  }

  lemma SecondMove(d: seq<Ins>, h: Reg, h': Reg)
    requires h == POOL_FIRST && h' == Candidate(1)
    requires d == [Move(h, REG_HOST_R0), Move(h', REG_HOST_R1), Store(h, h')]
    ensures Probe(d, 1, 1, 0) == Some(2)
  {
    assert NextUse(d, 2, h', 0) >= 0;
    assert NextUse(d, 2, Candidate(2), 0) < 0;
  }

  lemma RegistersAreKeptApart()
    ensures WellFormed(Observe(), MovesAndStore())
    ensures
      var (h, h') := (POOL_FIRST, Candidate(1));
      h != h' && Allocate(MovesAndStore()) == Some([Move(h, REG_HOST_R0), Move(h', REG_HOST_R1), Store(h, h')])
  {
    hide WellFormed, Probe, VisitIns, NextUse;
    var (c, h, h') := (MovesAndStore(), POOL_FIRST, Candidate(1));
    IsInDomain();
    FirstMove(c, h);
    var d := Renamed(c, 0, 1, h);
    assert d == [Move(h, REG_HOST_R0), Move(2, REG_HOST_R1), Store(h, 2)];
    VisitMove(Progress(c, 0), 0, 1);
    var e := Renamed(d, 1, 2, h');
    assert e == [Move(h, REG_HOST_R0), Move(h', REG_HOST_R1), Store(h, h')];
    SecondMove(e, h, h');
    VisitMove(Progress(d, 1), 1, 2);
    VisitHosts(Progress(e, 2), 2, 0);
    assert VisitFrom(Progress(e, 2), 3) == Some(e);
    assert VisitFrom(Progress(e, 2), 2) == Some(e);
    assert VisitFrom(Progress(d, 1), 1) == Some(e);
  }
}
