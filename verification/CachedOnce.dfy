/** Register caching does no more than it must: a register is loaded once, and only if it is read before it
    is written, and no store is followed by another write of its register.
 */
module CachedOnce {
  import opened Ir
  import opened RegisterAllocation
  import opened RegisterCaching

  // ---------------------------------------------------------------------------------------
  // Loads

  /** How many loads of register r from the register file c has. */
  function Loads(c: seq<Ins>, r: Reg): nat {
    if c == [] then 0 else (if IsFileLoad(c[0]) && c[0].rd1 == r then 1 else 0) + Loads(c[1..], r)
  }

  lemma {:induction false} LoadsAppend(c: seq<Ins>, d: seq<Ins>, r: Reg)
    ensures Loads(c + d, r) == Loads(c, r) + Loads(d, r)
  {
    if c == [] {
      assert c + d == d;
    } else {
      assert (c + d)[0] == c[0] && (c + d)[1..] == c[1..] + d;
      LoadsAppend(c[1..], d, r);
    }
  }

  lemma LoadsOfOne(x: Ins, r: Reg)
    ensures Loads([x], r) == if IsFileLoad(x) && x.rd1 == r then 1 else 0
  {
    assert [x][1..] == [];
  }

  lemma {:induction false} LoadsForOnce(ins: Ins, rs: seq<Reg>, loaded: set<Reg>, r: Reg)
    requires r < REG_TEMP
    ensures Loads(LoadsFor(ins, rs, loaded), r) == if r in rs && r !in loaded then 1 else 0
    decreases rs
  {
    if rs != [] {
      var more := if rs[0] < REG_TEMP then loaded + {rs[0]} else loaded;
      if rs[0] < REG_TEMP && rs[0] !in loaded {
        LoadsForOnce(ins, rs[1..], more, r);
        LoadsOfOne(LoadIns(ins, rs[0]), r);
        LoadsAppend([LoadIns(ins, rs[0])], LoadsFor(ins, rs[1..], more), r);
      } else {
        LoadsForOnce(ins, rs[1..], loaded, r);
      }
    }
  }

  /** An instruction reads r, and none in front of it mentions r. */
  ghost predicate IsReadFirst(c: seq<Ins>, r: Reg) {
    exists i :: 0 <= i < |c| && c[i].Reads(r) && forall j :: 0 <= j < i ==> !c[j].Mentions(r)
  }

  lemma ReadFirstStep(c: seq<Ins>, r: Reg)
    requires c != []
    ensures IsReadFirst(c, r) <==> c[0].Reads(r) || (!c[0].Mentions(r) && IsReadFirst(c[1..], r))
  {
    if i :| 0 < i < |c| && c[i].Reads(r) && forall j :: 0 <= j < i ==> !c[j].Mentions(r) {
      assert c[1..][i - 1] == c[i];
      assert forall j :: 0 <= j < i - 1 ==> c[1..][j] == c[j + 1];
    }
    if !c[0].Mentions(r) && IsReadFirst(c[1..], r) {
      var i :| 0 <= i < |c[1..]| && c[1..][i].Reads(r) && forall j :: 0 <= j < i ==> !c[1..][j].Mentions(r);
      assert c[i + 1].Reads(r);
      assert forall j :: 0 < j < i + 1 ==> c[j] == c[1..][j - 1];
    }
  }

  /** A register of the file is loaded exactly once if it is read before it is written, and not at all
      otherwise. */
  lemma {:induction false} LoadedOnce(c: seq<Ins>, loaded: set<Reg>, r: Reg)
    requires r < REG_TEMP && forall i :: 0 <= i < |c| ==> !IsFileLoad(c[i])
    ensures Loads(LoadCached(c, loaded), r) == if r !in loaded && IsReadFirst(c, r) then 1 else 0
    decreases |c|
  {
    hide IsReadFirst, IsFileLoad;
    if c == [] {
      NothingIsRead(r);
    } else {
      var (x, loads, rest) := (c[0], LoadsFor(c[0], Sources(c[0]), loaded), loaded + Emulated(c[0]));
      LoadedOnce(c[1..], rest, r);
      LoadsForOnce(x, Sources(x), loaded, r);
      LoadsOfOne(x, r);
      LoadsAppend(loads, [x], r);
      LoadsAppend(loads + [x], LoadCached(c[1..], rest), r);
      ReadFirstStep(c, r);
      assert r in Sources(x) <==> x.Reads(r);
    }
  }

  lemma NothingIsRead(r: Reg)
    ensures !IsReadFirst([], r)
  {
  }

  // ---------------------------------------------------------------------------------------
  // Stores

  /** FindRegNextUpdated finds an unconditional instruction that names r, if there is one. */
  lemma {:induction false} NextUpdatedExactly(c: seq<Ins>, r: Reg)
    ensures NextUpdated(c, r) <==> exists j :: 0 <= j < |c| && c[j].Overwrites(r)
  {
    if c != [] {
      NextUpdatedExactly(c[1..], r);
      if NextUpdated(c[1..], r) {
        var j :| 0 <= j < |c[1..]| && c[1..][j].Overwrites(r);
        assert c[j + 1].Overwrites(r);
      }
      if j :| 0 < j < |c| && c[j].Overwrites(r) {
        assert c[1..][j - 1].Overwrites(r);
      }
    }
  }

  lemma StoreNamesNothing(ins: Ins, rest: seq<Ins>, r: Reg)
    requires r < REG_TEMP
    ensures forall x :: x in StoresFor(ins, rest) ==> !x.Overwrites(r) && IsFileStore(x)
  {
  }

  lemma StoredIsNotUpdated(ins: Ins, rest: seq<Ins>, r: Reg, p: nat)
    requires p < |StoresFor(ins, rest)| && StoresFor(ins, rest)[p].r1 == r && ins.rd2 != r
    ensures !NextUpdated(rest, r)
  {
    hide NextUpdated, NextUse, IsFileLoad;
  }

  /** The stores put in do not write registers. */
  lemma {:induction false} OnlyOldOnesOverwrite(d: seq<Ins>, r: Reg)
    requires r < REG_TEMP
    ensures forall x :: x in StoreCached(d) && x.Overwrites(r) ==> NextUpdated(d, r)
  {
    if d != [] {
      StoreNamesNothing(d[0], d[1..], r);
      OnlyOldOnesOverwrite(d[1..], r);
    }
  }

  /** No store is followed by an unconditional write of the register it stores. */
  lemma {:induction false} StoresAreLast(d: seq<Ins>, r: Reg, i: nat, j: nat)
    requires r < REG_TEMP && forall k :: 0 <= k < |d| ==> !IsFileStore(d[k]) && d[k].rd2 != r
    requires i < j < |StoreCached(d)| && IsFileStore(StoreCached(d)[i]) && StoreCached(d)[i].r1 == r
    ensures !StoreCached(d)[j].Overwrites(r)
  {
    hide IsFileStore, NextUpdated, StoresFor;
    var (x, stores, rest) := (d[0], StoresFor(d[0], d[1..]), StoreCached(d[1..]));
    assert StoreCached(d) == [x] + stores + rest;
    StoreNamesNothing(x, d[1..], r);
    if i > |stores| {
      StoresAreLast(d[1..], r, i - 1 - |stores|, j - 1 - |stores|);
    } else {
      assert i > 0;
      assert StoreCached(d)[i] == stores[i - 1];
      if j <= |stores| {
        assert StoreCached(d)[j] == stores[j - 1];
      } else {
        StoredIsNotUpdated(x, d[1..], r, i - 1);
        OnlyOldOnesOverwrite(d[1..], r);
        assert StoreCached(d)[j] == rest[j - 1 - |stores|];
      }
    }
  }
}
