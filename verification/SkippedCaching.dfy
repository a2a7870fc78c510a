/** Register caching in a segment whose first word is skipped when the delay slot flag is set: the
    loads put in front of the skipped instructions are skipped with them, although the passes count
    on them behind.
 */
module SkippedCaching {
  import opened Ir
  import opened Machine
  import opened RegisterCaching
  import opened DelaySlots

  // ---------------------------------------------------------------------------------------
  // The list in parts

  /** The test of the flag and the branch over the first word. */
  function Skip(): seq<Ins> {
    [TestFlag(), Blank(IntBranch, NE)]
  }

  /** The instructions of d with their stores, rest following. */
  function StoredFront(d: seq<Ins>, rest: seq<Ins>): seq<Ins> {
    if d == [] then [] else [d[0]] + StoresFor(d[0], d[1..] + rest) + StoredFront(d[1..], rest)
  }

  /** What the two passes make of the instructions d of the first word, c following. */
  function Skipped(d: seq<Ins>, c: seq<Ins>): seq<Ins> {
    StoredFront(LoadCached(d, {}), LoadCached(c, LoadedAfter(d, {})))
  }

  /** What they make of the instructions behind it: the branch leads here, in front of the loads. */
  function Behind(d: seq<Ins>, c: seq<Ins>): seq<Ins> {
    StoreCached(LoadCached(c, LoadedAfter(d, {})))
  }

  lemma {:induction false} StoreCachedTogether(d: seq<Ins>, rest: seq<Ins>)
    ensures StoreCached(d + rest) == StoredFront(d, rest) + StoreCached(rest)
  {
    if d == [] {
      assert d + rest == rest;
    } else {
      assert (d + rest)[0] == d[0] && (d + rest)[1..] == d[1..] + rest;
      StoreCachedTogether(d[1..], rest);
      Associate([d[0]] + StoresFor(d[0], d[1..] + rest), StoredFront(d[1..], rest), StoreCached(rest));
    }
  }

  lemma {:induction false} LoadCachedTogether(d: seq<Ins>, c: seq<Ins>, loaded: set<Reg>)
    ensures LoadCached(d + c, loaded) == LoadCached(d, loaded) + LoadCached(c, LoadedAfter(d, loaded))
  {
    if d == [] {
      assert d + c == c;
    } else {
      assert (d + c)[0] == d[0] && (d + c)[1..] == d[1..] + c;
      var loaded2 := loaded + Emulated(d[0]);
      LoadCachedTogether(d[1..], c, loaded2);
      Associate(LoadsFor(d[0], Sources(d[0]), loaded) + [d[0]], LoadCached(d[1..], loaded2),
                LoadCached(c, LoadedAfter(d[1..], loaded2)));
    }
  }

  /** An instruction on host registers gets no loads and no stores. */
  lemma HostIsKept(x: Ins, c: seq<Ins>)
    requires Emulated(x) == {}
    ensures StoreCached(LoadCached([x] + c, {})) == [x] + StoreCached(LoadCached(c, {}))
  {
    hide LoadsFor, StoresFor, StoreCached, Emulated;
    var l := LoadCached(c, {});
    HostLoadsNothing(x, l);
    assert ([x] + c)[1..] == c && {} + Emulated(x) == {};
    assert [] + [x] + l == [x] + l;
    StoreOne(x, l);
    assert [x] + [] + StoreCached(l) == [x] + StoreCached(l);
  }

  lemma HostLoadsNothing(x: Ins, rest: seq<Ins>)
    requires Emulated(x) == {}
    ensures LoadsFor(x, Sources(x), {}) == [] && StoresFor(x, rest) == []
  {
    hide LoadsFor, Emulated;
    forall r: Reg | x.Mentions(r) ensures r >= REG_TEMP {
      assert r !in Emulated(x);
    }
    NoLoads(x, {});
    assert x.Mentions(x.rd1) && x.Mentions(x.rd2);
  }

  /** The translated list: test and branch, what is skipped when the flag is set, and the rest. */
  lemma TranslatedInParts(d: seq<Ins>, c: seq<Ins>)
    ensures StoreCached(LoadCached(Skip() + (d + c), {})) == Skip() + (Skipped(d, c) + Behind(d, c))
  {
    hide StoreCached, LoadCached, StoredFront, LoadedAfter;
    var (test, branch) := (TestFlag(), Blank(IntBranch, NE));
    HostIsKept(branch, d + c);
    HostIsKept(test, [branch] + (d + c));
    assert Skip() + (d + c) == [test] + ([branch] + (d + c));
    LoadCachedTogether(d, c, {});
    StoreCachedTogether(LoadCached(d, {}), LoadCached(c, LoadedAfter(d, {})));
    assert Skip() + (Skipped(d, c) + Behind(d, c)) == [test] + ([branch] + (Skipped(d, c) + Behind(d, c)));
  }

  // ---------------------------------------------------------------------------------------
  // When the rest is right

  /** The first instruction of c that mentions r reads it. */
  predicate IsReadFirst(c: seq<Ins>, r: Reg) {
    c != [] && (c[0].Reads(r) || (!c[0].Mentions(r) && IsReadFirst(c[1..], r)))
  }

  /** No register the skipped instructions mention is read behind them before it is written. */
  ghost predicate LoadsNothingFor(d: seq<Ins>, c: seq<Ins>) {
    forall r :: r in LoadedAfter(d, {}) ==> !IsReadFirst(c, r)
  }

  lemma {:induction false} SameLoads(ins: Ins, rs: seq<Reg>, loaded: set<Reg>, more: set<Reg>)
    requires forall r :: r in rs && r in more ==> r in loaded
    ensures LoadsFor(ins, rs, loaded + more) == LoadsFor(ins, rs, loaded)
  {
    if rs != [] {
      assert rs[0] in rs;
      assert loaded + {rs[0]} + more == loaded + more + {rs[0]};
      SameLoads(ins, rs[1..], loaded, more);
      SameLoads(ins, rs[1..], loaded + {rs[0]}, more);
    }
  }

  /** Registers that are not read first get no loads in any case. */
  lemma {:induction false} MoreIsNotLoaded(c: seq<Ins>, loaded: set<Reg>, more: set<Reg>)
    requires forall r :: r in more && r !in loaded ==> !IsReadFirst(c, r)
    requires forall r :: r in more ==> r < REG_TEMP
    ensures LoadCached(c, loaded + more) == LoadCached(c, loaded)
  {
    if c != [] {
      var rs := Sources(c[0]);
      forall r | r in rs && r in more ensures r in loaded {
        assert c[0].Reads(r);
      }
      SameLoads(c[0], rs, loaded, more);
      MoreIsNotLoaded(c[1..], loaded + Emulated(c[0]), more);
      assert loaded + Emulated(c[0]) + more == loaded + more + Emulated(c[0]);
    }
  }

  lemma {:induction false} LoadedIsEmulated(c: seq<Ins>, loaded: set<Reg>)
    requires forall r :: r in loaded ==> r < REG_TEMP
    ensures forall r :: r in LoadedAfter(c, loaded) ==> r < REG_TEMP
  {
    if c != [] {
      LoadedIsEmulated(c[1..], loaded + Emulated(c[0]));
    }
  }

  /** With the first word skipped, the rest of the translated list does what the rest of the original one
      does on memory, for every meaning of the instructions. */
  lemma SkippingIsRight<W(!new)>(m: Semantics<W>, used: set<Reg>, d: seq<Ins>, c: seq<Ins>, s: Cpu<W>)
    requires Separate(used) && Uses(c, used) && Cacheable(m, c, {}) && LoadsNothingFor(d, c)
    ensures SameOutcome(RunDirect(m, c, s), RunCached(m, Behind(d, c), s))
  {
    hide LoadCached, StoreCached, Cacheable, IsReadFirst;
    var more := LoadedAfter(d, {});
    LoadedIsEmulated(d, {});
    MoreIsNotLoaded(c, {}, more);
    assert {} + more == more;
    CachingRefinesMemory(m, used, c, s);
  }

  // ---------------------------------------------------------------------------------------
  // When it is not

  /** A meaning that tells whether a zero has been read: every instruction is run and writes ones. */
  function SeesZero(writes1: Operation -> bool, writes2: Operation -> bool): Semantics<bool> {
    Semantics((c: Cond, w: bool) => true,
              (what: Operation, a: int, b: int, c: int, d: int, w: bool) =>
                (1, 1, w || a == 0 || b == 0 || c == 0 || d == 0),
              writes1, writes2)
  }

  /** The register file holds ones, and so do the host registers; what happens to be in the host's copy of
      register r is a zero. */
  function ZeroIn(r: Reg): Cpu<bool> {
    Cpu((x: Reg) => if x == r then 0 else 1, (a: int) => 1, false)
  }

  ghost predicate HoldsOnes(s: Cpu<bool>) {
    && (forall x: Reg :: x >= REG_TEMP ==> s.regs(x) == 1)
    && (forall a: int :: s.mem(a) == 1)
  }

  lemma DirectStep(writes1: Operation -> bool, writes2: Operation -> bool, x: Ins, s: Cpu<bool>)
    requires HoldsOnes(s)
    ensures HoldsOnes(ExecuteDirect(SeesZero(writes1, writes2), x, s))
    ensures ExecuteDirect(SeesZero(writes1, writes2), x, s).world == s.world
  {
    assert s.Get(x.r1) == 1 && s.Get(x.r2) == 1 && s.Get(x.r3) == 1 && s.Get(x.r4) == 1;
  }

  /** On memory no instruction reads a zero. */
  lemma {:induction false} DirectSeesNone(writes1: Operation -> bool, writes2: Operation -> bool, c: seq<Ins>,
                                          s: Cpu<bool>)
    requires HoldsOnes(s)
    ensures RunDirect(SeesZero(writes1, writes2), c, s).world == s.world
    decreases |c|
  {
    hide HoldsOnes, ExecuteDirect, SeesZero;
    if c != [] {
      DirectStep(writes1, writes2, c[0], s);
      DirectSeesNone(writes1, writes2, c[1..], ExecuteDirect(SeesZero(writes1, writes2), c[0], s));
    }
  }

  /** What has been seen stays seen. */
  lemma {:induction false} SeenStays(writes1: Operation -> bool, writes2: Operation -> bool, c: seq<Ins>, u: Cpu<bool>)
    requires u.world
    ensures RunCached(SeesZero(writes1, writes2), c, u).world
    decreases |c|
  {
    if c != [] {
      SeenStays(writes1, writes2, c[1..], ExecuteCached(SeesZero(writes1, writes2), c[0], u));
    }
  }

  /** Loads of other registers leave register r alone. */
  lemma {:induction false} LoadsLeave<W>(m: Semantics<W>, ins: Ins, rs: seq<Reg>, loaded: set<Reg>, u: Cpu<W>, r: Reg)
    requires r in loaded
    ensures RunCached(m, LoadsFor(ins, rs, loaded), u).regs(r) == u.regs(r)
    decreases |rs|
  {
    if rs != [] {
      if rs[0] < REG_TEMP && rs[0] !in loaded {
        var load := LoadIns(ins, rs[0]);
        var l := LoadsFor(ins, rs[1..], loaded + {rs[0]});
        assert ([load] + l)[1..] == l;
        LoadsLeave(m, ins, rs[1..], loaded + {rs[0]}, ExecuteCached(m, load, u), r);
      } else {
        LoadsLeave(m, ins, rs[1..], loaded, u, r);
      }
    }
  }

  /** Stores to the register file leave the registers alone. */
  lemma {:induction false} StoresLeave<W>(m: Semantics<W>, c: seq<Ins>, u: Cpu<W>)
    requires forall i :: 0 <= i < |c| ==> IsFileStore(c[i])
    ensures var v := RunCached(m, c, u); v.regs == u.regs && v.world == u.world
    decreases |c|
  {
    if c != [] {
      StoresLeave(m, c[1..], ExecuteCached(m, c[0], u));
    }
  }

  lemma AreStores(ins: Ins, rest: seq<Ins>)
    ensures forall i :: 0 <= i < |StoresFor(ins, rest)| ==> IsFileStore(StoresFor(ins, rest)[i])
  {
    hide NextUpdated;
  }

  /** An instruction that reads the zero sees it; one that does not mention the register leaves it there. */
  lemma CachedStep(writes1: Operation -> bool, writes2: Operation -> bool, x: Ins, u: Cpu<bool>, r: Reg)
    requires LeavesFileAlone(x) && u.regs(r) == 0
    ensures x.Reads(r) ==> ExecuteCached(SeesZero(writes1, writes2), x, u).world
    ensures !x.Names(r) ==> ExecuteCached(SeesZero(writes1, writes2), x, u).regs(r) == 0
  {
  }

  lemma {:induction false} CachedSees(writes1: Operation -> bool, writes2: Operation -> bool, c: seq<Ins>,
                                      loaded: set<Reg>, u: Cpu<bool>, r: Reg)
    requires r in loaded && IsReadFirst(c, r) && u.regs(r) == 0
    requires forall i :: 0 <= i < |c| ==> LeavesFileAlone(c[i])
    ensures RunCached(SeesZero(writes1, writes2), StoreCached(LoadCached(c, loaded)), u).world
    decreases |c|
  {
    hide LoadCached, StoreCached, SeesZero, LoadsFor, StoresFor, ExecuteCached;
    var m := SeesZero(writes1, writes2);
    var u1 := RunCached(m, LoadsFor(c[0], Sources(c[0]), loaded), u);
    var u2 := ExecuteCached(m, c[0], u1);
    CacheFirst(m, c, loaded, u);
    LoadsLeave(m, c[0], Sources(c[0]), loaded, u, r);
    CachedStep(writes1, writes2, c[0], u1, r);
    var tail := LoadCached(c[1..], loaded + Emulated(c[0]));
    AreStores(c[0], tail);
    StoresLeave(m, StoresFor(c[0], tail), u2);
    var v := AfterFirst(m, c, loaded, u);
    if c[0].Reads(r) {
      SeenStays(writes1, writes2, StoreCached(tail), v);
    } else {
      CachedSees(writes1, writes2, c[1..], loaded + Emulated(c[0]), v, r);
    }
  }

  /** A register that is read first behind the skipped instructions is read without having been loaded. */
  lemma SkippingIsWrong(writes1: Operation -> bool, writes2: Operation -> bool, d: seq<Ins>, c: seq<Ins>, r: Reg)
    requires r in LoadedAfter(d, {}) && IsReadFirst(c, r) && forall i :: 0 <= i < |c| ==> LeavesFileAlone(c[i])
    ensures
      var (m, s) := (SeesZero(writes1, writes2), ZeroIn(r));
      RunCached(m, Behind(d, c), s).world && !RunDirect(m, c, s).world
  {
    hide SeesZero, LoadedAfter;
    LoadedIsEmulated(d, {});
    DirectSeesNone(writes1, writes2, c, ZeroIn(r));
    CachedSees(writes1, writes2, c, LoadedAfter(d, {}), ZeroIn(r), r);
  }

  lemma {:induction false} CacheableForAll<V(!new), W(!new)>(m: Semantics<V>, t: Semantics<W>, c: seq<Ins>,
                                                             loaded: set<Reg>)
    requires Cacheable(m, c, loaded) && t.writes1 == m.writes1 && t.writes2 == m.writes2
    requires forall cond, w :: t.test(cond, w)
    ensures Cacheable(t, c, loaded)
  {
    if c != [] {
      CacheableForAll(m, t, c[1..], loaded + Emulated(c[0]));
      assert InsCacheable(m, c[0], c[1..], loaded) ==> InsCacheable(t, c[0], c[1..], loaded);
      if FirstIsCovered(m, c, loaded) {
        assert IsCovered(t, c[0], c[1]);
        assert InsCacheable(t, c[0], c[1..], loaded + {c[0].rd1});
      }
    }
  }

  lemma {:induction false} CacheableLeavesFile<W(!new)>(m: Semantics<W>, c: seq<Ins>, loaded: set<Reg>)
    requires Cacheable(m, c, loaded)
    ensures forall i :: 0 <= i < |c| ==> LeavesFileAlone(c[i])
  {
    if c != [] {
      CacheableLeavesFile(m, c[1..], loaded + Emulated(c[0]));
      assert forall i :: 0 < i < |c| ==> c[i] == c[1..][i - 1];
    }
  }

  /** For every meaning under which the rest of the list is one the passes are right on, and every state, the
      code is right with the first word skipped: if and only if no register the skipped instructions
      mention is read behind them before it is written. */
  lemma SkippingIsRightExactly<W(!new)>(m: Semantics<W>, used: set<Reg>, d: seq<Ins>, c: seq<Ins>)
    requires Separate(used) && Uses(c, used) && Cacheable(m, c, {})
    ensures LoadsNothingFor(d, c) <==>
      forall t: Semantics<bool>, s: Cpu<bool> :: Cacheable(t, c, {}) ==>
        SameOutcome(RunDirect(t, c, s), RunCached(t, Behind(d, c), s))
  {
    hide Cacheable, Behind, IsReadFirst, SameOutcome, RunDirect, RunCached;
    if LoadsNothingFor(d, c) {
      forall t: Semantics<bool>, s: Cpu<bool> | Cacheable(t, c, {})
        ensures SameOutcome(RunDirect(t, c, s), RunCached(t, Behind(d, c), s))
      {
        SkippingIsRight(t, used, d, c, s);
      }
    } else {
      var r :| r in LoadedAfter(d, {}) && IsReadFirst(c, r);
      var t := SeesZero(m.writes1, m.writes2);
      CacheableForAll(m, t, c, {});
      CacheableLeavesFile(m, c, {});
      SkippingIsWrong(m.writes1, m.writes2, d, c, r);
      WorldsDiffer(RunDirect(t, c, ZeroIn(r)), RunCached(t, Behind(d, c), ZeroIn(r)));
    }
  }

  lemma WorldsDiffer<W>(s: Cpu<W>, u: Cpu<W>)
    ensures s.world != u.world ==> !SameOutcome(s, u)
  {
  }

  // ---------------------------------------------------------------------------------------
  // A list

  /** r2 := r1 in the first word and r3 := r1 in the second one. */
  const FIRST_COPY := Blank(ArmMov, AL).(rd1 := 2, r2 := 1)
  const SECOND_COPY := Blank(ArmMov, AL).(rd1 := 3, r2 := 1)

  /** The load of register 1 is skipped with the first word, and the second one copies what the host
      register happens to hold. */
  lemma SkippedLoadIsLost()
    ensures !LoadsNothingFor([FIRST_COPY], [SECOND_COPY])
    ensures Behind([FIRST_COPY], [SECOND_COPY]) == [SECOND_COPY, StoreIns(3)]
  {
    hide LoadsFor, IsReadFirst;
    var (d, c) := ([FIRST_COPY], [SECOND_COPY]);
    assert d[1..] == [] && c[1..] == [];
    LoadedByFirst();
    NoLoads(SECOND_COPY, {1, 2});
    LastIsStored();
    assert LoadCached(c, {1, 2}) == [] + [SECOND_COPY] + [];
  }

  lemma LoadedByFirst()
    ensures LoadedAfter([FIRST_COPY], {}) == {1, 2} && IsReadFirst([SECOND_COPY], 1)
  {
    assert [FIRST_COPY][1..] == [];
    assert Emulated(FIRST_COPY) == {1, 2};
  }

  lemma LastIsStored()
    ensures StoreCached([SECOND_COPY]) == [SECOND_COPY, StoreIns(3)]
  {
    assert [SECOND_COPY][1..] == [];
    assert StoresFor(SECOND_COPY, []) == [StoreIns(3)];
    assert [SECOND_COPY] + [StoreIns(3)] + [] == [SECOND_COPY, StoreIns(3)];
  }
}
