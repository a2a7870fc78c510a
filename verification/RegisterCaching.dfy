/** Register caching: Translate_LoadCachedRegisters puts a load in front of the first use of
    each emulated register and Translate_StoreCachedRegisters a store behind its last update.
    Run on cached registers, the resulting list leaves the register file in memory exactly as
    the original list would when run directly on that memory.
 */
module RegisterCaching {
  import opened Ir
  import opened Machine
  import opened RegisterAllocation

  // ---------------------------------------------------------------------------------------
  // Where registers live in memory

  /** RegMemByteOffset: bit 6 of the register number marks an upper half, bit 5 (below REG_CO)
      a floating-point register. */
  function RegMemByteOffset(reg: Reg): nat
    requires reg < REG_TEMP
  {
    var wide := reg / 0x40 % 2;
    var float := reg / 0x20 % 2;
    4 * (wide + if reg < REG_CO then 64 * float + 2 * (reg % 0x20) else reg - 0x40 * wide)
  }

  /** Two emulated registers share a word exactly when one is the upper half of a coprocessor
      register and the other is the register numbered next. */
  lemma OffsetsCollide(a: Reg, b: Reg)
    requires a < b < REG_TEMP
    ensures RegMemByteOffset(a) == RegMemByteOffset(b) <==> a >= REG_CO && a < 0xc0 <= b && a == b - 0x40 + 1
  {
    OffsetBits(a);
    OffsetBits(b);
  }

  lemma OffsetBits(r: Reg)
    requires r < REG_TEMP
    ensures 0 <= r % 0x20 < 0x20
    ensures r < 0x20 ==> RegMemByteOffset(r) == 8 * r
    ensures 0x20 <= r < 0x40 ==> RegMemByteOffset(r) == 4 * 64 + 8 * (r - 0x20)
    ensures 0x40 <= r < 0x60 ==> RegMemByteOffset(r) == 8 * (r - 0x40) + 4
    ensures 0x60 <= r < 0x80 ==> RegMemByteOffset(r) == 4 * 64 + 8 * (r - 0x60) + 4
    ensures 0x80 <= r < 0xc0 ==> RegMemByteOffset(r) == 4 * r
    ensures 0xc0 <= r ==> RegMemByteOffset(r) == 4 * (r - 0x40 + 1)
  {
  }

  // ---------------------------------------------------------------------------------------
  // The two passes

  /** The load of r that overwrites a copy of ins: fields the load does not set are kept. */
  function LoadIns(ins: Ins, r: Reg): Ins
    requires r < REG_TEMP
  {
    var load := InstrI(ins, ArmLdr, AL, r, REG_NOT_USED, REG_EMU_FP, RegMemByteOffset(r));
    load.(what := load.what.(up := true))
  }

  function StoreIns(r: Reg): Ins
    requires r < REG_TEMP
  {
    InstrI(Blank(ArmStr, AL), ArmStr, AL, REG_NOT_USED, r, REG_EMU_FP, RegMemByteOffset(r))
  }

  function Sources(ins: Ins): seq<Reg> {
    [ins.r1, ins.r2, ins.r3, ins.r4]
  }

  /** The loads put in front of ins for the sources rs that are not loaded yet. */
  function LoadsFor(ins: Ins, rs: seq<Reg>, loaded: set<Reg>): seq<Ins> {
    if rs == [] then []
    else if rs[0] < REG_TEMP && rs[0] !in loaded then
      [LoadIns(ins, rs[0])] + LoadsFor(ins, rs[1..], loaded + {rs[0]})
    else LoadsFor(ins, rs[1..], loaded)
  }

  function IfEmulated(r: Reg): set<Reg> {
    if r < REG_TEMP then {r} else {}
  }

  /** The emulated registers ins mentions. */
  function Emulated(ins: Ins): (s: set<Reg>)
    ensures forall r: Reg :: r in s <==> r < REG_TEMP && ins.Mentions(r)
  {
    IfEmulated(ins.rd1) + IfEmulated(ins.rd2)
    + IfEmulated(ins.r1) + IfEmulated(ins.r2) + IfEmulated(ins.r3) + IfEmulated(ins.r4)
  }

  /** Translate_LoadCachedRegisters, with the registers loaded or written so far. */
  function LoadCached(c: seq<Ins>, loaded: set<Reg>): seq<Ins> {
    if c == [] then []
    else LoadsFor(c[0], Sources(c[0]), loaded) + [c[0]] + LoadCached(c[1..], loaded + Emulated(c[0]))
  }

  /** The registers loaded or written behind c. */
  function LoadedAfter(c: seq<Ins>, loaded: set<Reg>): set<Reg> {
    if c == [] then loaded else LoadedAfter(c[1..], loaded + Emulated(c[0]))
  }

  /** The test that recognises a load the first pass put in. */
  predicate IsFileLoad(ins: Ins) {
    ins.what.op == ArmLdr && ins.r2 == REG_EMU_FP && ins.what.imm >= 0
  }

  predicate IsFileStore(ins: Ins) {
    ins.what.op == ArmStr && ins.r2 == REG_EMU_FP
  }

  /** FindRegNextUpdated on what follows: does an unconditional instruction name r? */
  predicate NextUpdated(rest: seq<Ins>, r: Reg) {
    rest != [] && (rest[0].Overwrites(r) || NextUpdated(rest[1..], r))
  }

  /** The stores put behind ins when rest follows it. The second destination is stored only
      when it is not used again. */
  function StoresFor(ins: Ins, rest: seq<Ins>): seq<Ins> {
    (if ins.rd1 < REG_TEMP && !IsFileLoad(ins) && !NextUpdated(rest, ins.rd1)
     then [StoreIns(ins.rd1)] else [])
    + (if ins.rd2 < REG_TEMP && !IsFileLoad(ins) && NextUse(rest, 0, ins.rd2, 0) == -2
       then [StoreIns(ins.rd2)] else [])
  }

  /** Translate_StoreCachedRegisters. */
  function StoreCached(d: seq<Ins>): seq<Ins> {
    if d == [] then []
    else [d[0]] + StoresFor(d[0], d[1..]) + StoreCached(d[1..])
  }

  // ---------------------------------------------------------------------------------------
  // The two ways to run a list

  /** The address of an emulated register in the register file at base. */
  function Address(base: int, r: Reg): int
    requires r < REG_TEMP
  {
    base + RegMemByteOffset(r)
  }

  datatype Cpu<W> = Cpu(regs: Regs, mem: int -> int, world: W)
  {
    /** The base of the register file. */
    function Base(): int {
      regs(REG_EMU_FP)
    }

    /** Read and write with emulated registers in memory. */
    function Get(r: Reg): int {
      if r < REG_TEMP then mem(Address(Base(), r)) else regs(r)
    }

    function Put(r: Reg, v: int): Cpu<W> {
      if r < REG_TEMP then Poke(Address(Base(), r), v) else this.(regs := Set(regs, r, v))
    }

    function Poke(a: int, v: int): Cpu<W> {
      var was := mem;
      this.(mem := x => if x == a then v else was(x))
    }
  }

  function ExecuteDirect<W>(m: Semantics<W>, ins: Ins, s: Cpu<W>): Cpu<W> {
    if ins.cond == AL || m.test(ins.cond, s.world) then
      var (v1, v2, w) := m.effect(ins.what, s.Get(ins.r1), s.Get(ins.r2), s.Get(ins.r3), s.Get(ins.r4), s.world);
      var s1 := if Writes1(m, ins) then s.Put(ins.rd1, v1) else s;
      var s2 := if Writes2(m, ins) then s1.Put(ins.rd2, v2) else s1;
      s2.(world := w)
    else
      s
  }

  function RunDirect<W>(m: Semantics<W>, c: seq<Ins>, s: Cpu<W>): Cpu<W> {
    if c == [] then s else RunDirect(m, c[1..], ExecuteDirect(m, c[0], s))
  }

  function ExecuteCached<W>(m: Semantics<W>, ins: Ins, s: Cpu<W>): Cpu<W> {
    if ins.cond != AL && !m.test(ins.cond, s.world) then s
    else if IsFileLoad(ins) then
      s.(regs := Set(s.regs, ins.rd1, s.mem(s.regs(REG_EMU_FP) + Displacement(ins))))
    else if IsFileStore(ins) then
      s.Poke(s.regs(REG_EMU_FP) + Displacement(ins), s.regs(ins.r1))
    else
      var t := Execute(m, ins, State(s.regs, s.world));
      s.(regs := t.regs, world := t.world)
  }

  function RunCached<W>(m: Semantics<W>, c: seq<Ins>, s: Cpu<W>): Cpu<W> {
    if c == [] then s else RunCached(m, c[1..], ExecuteCached(m, c[0], s))
  }

  lemma {:induction false} RunCachedSplit<W>(m: Semantics<W>, c: seq<Ins>, d: seq<Ins>, s: Cpu<W>)
    ensures RunCached(m, c + d, s) == RunCached(m, d, RunCached(m, c, s))
  {
    if c == [] {
      assert c + d == d;
    } else {
      assert (c + d)[0] == c[0] && (c + d)[1..] == c[1..] + d;
      RunCachedSplit(m, c[1..], d, ExecuteCached(m, c[0], s));
    }
  }

  // ---------------------------------------------------------------------------------------
  // What the passes ask of their input

  /** The emulated registers c names as destinations. */
  function NamedIn(c: seq<Ins>): set<Reg> {
    if c == [] then {} else IfEmulated(c[0].rd1) + IfEmulated(c[0].rd2) + NamedIn(c[1..])
  }

  predicate ReadIn(c: seq<Ins>, r: Reg) {
    c != [] && (c[0].Reads(r) || ReadIn(c[1..], r))
  }

  /** ins may leave r as it was although it names r as a destination. */
  predicate MayKeep<W>(m: Semantics<W>, ins: Ins, r: Reg) {
    ins.Names(r) && (ins.cond != AL || !((ins.rd1 == r && Writes1(m, ins)) || (ins.rd2 == r && Writes2(m, ins))))
  }

  /** ins touches neither the register file itself nor its base. */
  predicate LeavesFileAlone(ins: Ins) {
    !(ins.what.op in {ArmLdr, ArmStr} && ins.r2 == REG_EMU_FP) && !ins.Names(REG_EMU_FP)
  }

  /** A second destination that is read further on is also written again. */
  predicate SecondIsNamed(ins: Ins, rest: seq<Ins>) {
    ins.rd2 < REG_TEMP && ins.rd2 != ins.rd1 && ReadIn(rest, ins.rd2) ==> ins.rd2 in NamedIn(rest)
  }

  /** One instruction the passes are right on, the registers in loaded having been loaded or
      written before it and rest following it: a register it may or may not write has a value. */
  ghost predicate InsCacheable<W>(m: Semantics<W>, ins: Ins, rest: seq<Ins>, loaded: set<Reg>) {
    && LeavesFileAlone(ins) && SecondIsNamed(ins, rest)
    && (forall r: Reg :: r < REG_TEMP && MayKeep(m, ins, r) ==> r in loaded || ins.Reads(r))
  }

  /** Under every flag setting a or b, which follows it, writes the first destination of a; b does
      not read it. */
  ghost predicate IsCovered<W(!new)>(m: Semantics<W>, a: Ins, b: Ins) {
    && a.rd1 < REG_TEMP && b.rd1 == a.rd1 && Writes1(m, a) && Writes1(m, b)
    && b.rd2 == REG_NOT_USED && !b.Reads(a.rd1) && LeavesFileAlone(b)
    && forall w: W :: a.cond == AL || m.test(a.cond, w) || b.cond == AL || m.test(b.cond, w)
  }

  /** A register that is written under one condition by c[0] and under the opposite one by c[1]
      needs no value before. */
  ghost predicate FirstIsCovered<W(!new)>(m: Semantics<W>, c: seq<Ins>, loaded: set<Reg>)
    requires c != []
  {
    |c| > 1 && IsCovered(m, c[0], c[1]) && InsCacheable(m, c[0], c[1..], loaded + {c[0].rd1})
  }

  ghost predicate Cacheable<W(!new)>(m: Semantics<W>, c: seq<Ins>, loaded: set<Reg>) {
    c != [] ==>
      && (InsCacheable(m, c[0], c[1..], loaded) || FirstIsCovered(m, c, loaded))
      && Cacheable(m, c[1..], loaded + Emulated(c[0]))
  }

  /** A set of emulated registers, no two of them in the same word. */
  ghost predicate Separate(used: set<Reg>) {
    && (forall r :: r in used ==> r < REG_TEMP)
    && (forall a, b :: a in used && b in used && a != b ==> RegMemByteOffset(a) != RegMemByteOffset(b))
  }

  ghost predicate Uses(c: seq<Ins>, used: set<Reg>) {
    forall i :: 0 <= i < |c| ==> Emulated(c[i]) <= used
  }

  // ---------------------------------------------------------------------------------------
  // The simulation

  /** s runs the original list on memory, u the translated one on cached registers. A loaded
      register's value is in the cache, any other one's in memory, and memory is behind only
      for loaded registers in behind. */
  ghost predicate Related<W>(used: set<Reg>, loaded: set<Reg>, behind: set<Reg>, s: Cpu<W>, u: Cpu<W>)
    requires Separate(used)
  {
    && u.world == s.world
    && (forall r: Reg :: r >= REG_TEMP ==> u.regs(r) == s.regs(r))
    && (forall r :: r in used && r in loaded ==> u.regs(r) == s.mem(Address(s.Base(), r)))
    && (forall r :: r in used && u.mem(Address(s.Base(), r)) != s.mem(Address(s.Base(), r)) ==>
        r in loaded && r in behind)
    && (forall a: int :: !InFile(used, s.Base(), a) ==> u.mem(a) == s.mem(a))
  }

  /** The address a belongs to one of the registers in used, fp being the base. */
  ghost predicate InFile(used: set<Reg>, fp: int, a: int)
    requires Separate(used)
  {
    exists r :: r in used && Address(fp, r) == a
  }

  /** The world, the host registers and all of memory are the same. */
  ghost predicate SameOutcome<W>(s: Cpu<W>, u: Cpu<W>) {
    && u.world == s.world
    && (forall r: Reg :: r >= REG_TEMP ==> u.regs(r) == s.regs(r))
    && (forall a: int :: u.mem(a) == s.mem(a))
  }

  lemma LoadKeeps<W>(m: Semantics<W>, used: set<Reg>, loaded: set<Reg>, behind: set<Reg>, s: Cpu<W>, u: Cpu<W>,
                     ins: Ins, r: Reg)
    requires Separate(used) && Related(used, loaded, behind, s, u) && r in used && r !in loaded
    ensures Related(used, loaded + {r}, behind, s, ExecuteCached(m, LoadIns(ins, r), u))
  {
    var v := s.mem(Address(s.Base(), r));
    assert u.mem(Address(s.Base(), r)) == v;
    assert ExecuteCached(m, LoadIns(ins, r), u) == u.(regs := Set(u.regs, r, v));
  }

  function SourceSet(rs: seq<Reg>): set<Reg> {
    if rs == [] then {} else IfEmulated(rs[0]) + SourceSet(rs[1..])
  }

  lemma {:induction false} LoadsKeep<W>(m: Semantics<W>, used: set<Reg>, loaded: set<Reg>, behind: set<Reg>, s: Cpu<W>,
                                        u: Cpu<W>, ins: Ins, rs: seq<Reg>)
    requires Separate(used) && Related(used, loaded, behind, s, u) && SourceSet(rs) <= used
    ensures Related(used, loaded + SourceSet(rs), behind, s, RunCached(m, LoadsFor(ins, rs, loaded), u))
    decreases rs
  {
    if rs == [] {
      assert loaded + SourceSet(rs) == loaded;
    } else if rs[0] < REG_TEMP && rs[0] !in loaded {
      var u1 := ExecuteCached(m, LoadIns(ins, rs[0]), u);
      LoadKeeps(m, used, loaded, behind, s, u, ins, rs[0]);
      LoadsKeep(m, used, loaded + {rs[0]}, behind, s, u1, ins, rs[1..]);
      assert loaded + SourceSet(rs) == loaded + {rs[0]} + SourceSet(rs[1..]);
      assert LoadsFor(ins, rs, loaded)[1..] == LoadsFor(ins, rs[1..], loaded + {rs[0]});
    } else {
      LoadsKeep(m, used, loaded, behind, s, u, ins, rs[1..]);
      assert loaded + SourceSet(rs) == loaded + SourceSet(rs[1..]);
    }
  }

  /** Writing a register, in memory for s and in the cache for u. */
  lemma PutKeeps<W>(used: set<Reg>, loaded: set<Reg>, behind: set<Reg>, s: Cpu<W>, u: Cpu<W>, rd: Reg, v: int)
    requires Separate(used) && Related(used, loaded, behind, s, u)
    requires rd != REG_EMU_FP && IfEmulated(rd) <= used
    ensures Related(used, loaded + IfEmulated(rd), behind + IfEmulated(rd),
                    s.Put(rd, v), u.(regs := Set(u.regs, rd, v)))
  {
    if rd < REG_TEMP {
      assert rd in IfEmulated(rd);
      assert InFile(used, s.Base(), Address(s.Base(), rd));
      assert forall r :: r in used && r != rd ==> Address(s.Base(), r) != Address(s.Base(), rd);
    }
  }

  lemma WorldKeeps<W>(used: set<Reg>, loaded: set<Reg>, behind: set<Reg>, s: Cpu<W>, u: Cpu<W>, w: W)
    requires Separate(used) && Related(used, loaded, behind, s, u)
    ensures Related(used, loaded, behind, s.(world := w), u.(world := w))
  {
  }

  /** Cached operands are the ones in memory. */
  lemma GetAgrees<W>(used: set<Reg>, loaded: set<Reg>, behind: set<Reg>, s: Cpu<W>, u: Cpu<W>, r: Reg)
    requires Separate(used) && Related(used, loaded, behind, s, u)
    requires IfEmulated(r) <= used * loaded
    ensures u.regs(r) == s.Get(r)
  {
    assert r < REG_TEMP ==> r in IfEmulated(r);
  }

  function Destinations(ins: Ins): set<Reg> {
    IfEmulated(ins.rd1) + IfEmulated(ins.rd2)
  }

  /** The emulated registers an instruction surely writes when its condition holds. */
  function Written<W>(m: Semantics<W>, ins: Ins): set<Reg> {
    (if Writes1(m, ins) then IfEmulated(ins.rd1) else {}) + (if Writes2(m, ins) then IfEmulated(ins.rd2) else {})
  }

  lemma SourcesLoaded(ins: Ins, loaded: set<Reg>)
    requires SourceSet(Sources(ins)) <= loaded
    ensures forall r: Reg :: ins.Reads(r) ==> IfEmulated(r) <= loaded
  {
    var rs := Sources(ins);
    assert SourceSet(rs) == IfEmulated(ins.r1) + SourceSet(rs[1..]);
    assert SourceSet(rs[1..]) == IfEmulated(ins.r2) + SourceSet(rs[1..][1..]);
    assert SourceSet(rs[1..][1..]) == IfEmulated(ins.r3) + SourceSet(rs[1..][1..][1..]);
    assert SourceSet(rs[1..][1..][1..]) == IfEmulated(ins.r4) + SourceSet(rs[1..][1..][1..][1..]);
  }

  lemma WidenBehind<W>(used: set<Reg>, loaded: set<Reg>, behind: set<Reg>, behind': set<Reg>, s: Cpu<W>, u: Cpu<W>)
    requires Separate(used) && Related(used, loaded, behind, s, u) && behind <= behind'
    ensures Related(used, loaded, behind', s, u)
  {
  }

  lemma WritesKeep<W>(m: Semantics<W>, used: set<Reg>, loaded: set<Reg>, behind: set<Reg>, s: Cpu<W>, u: Cpu<W>,
                      ins: Ins, v1: int, v2: int)
    requires Separate(used) && Related(used, loaded, behind, s, u)
    requires !ins.Names(REG_EMU_FP) && Emulated(ins) <= used
    ensures
      var s1 := if Writes1(m, ins) then s.Put(ins.rd1, v1) else s;
      var u1 := if Writes1(m, ins) then u.(regs := Set(u.regs, ins.rd1, v1)) else u;
      var s2 := if Writes2(m, ins) then s1.Put(ins.rd2, v2) else s1;
      var u2 := if Writes2(m, ins) then u1.(regs := Set(u1.regs, ins.rd2, v2)) else u1;
      Related(used, loaded + Written(m, ins), behind + Written(m, ins), s2, u2)
  {
    var w1 := if Writes1(m, ins) then IfEmulated(ins.rd1) else {};
    var w2 := if Writes2(m, ins) then IfEmulated(ins.rd2) else {};
    var s1 := if Writes1(m, ins) then s.Put(ins.rd1, v1) else s;
    var u1 := if Writes1(m, ins) then u.(regs := Set(u.regs, ins.rd1, v1)) else u;
    assert loaded + {} == loaded && behind + {} == behind;
    if Writes1(m, ins) { PutKeeps(used, loaded, behind, s, u, ins.rd1, v1); }
    assert loaded + w1 + {} == loaded + w1 && behind + w1 + {} == behind + w1;
    if Writes2(m, ins) { PutKeeps(used, loaded + w1, behind + w1, s1, u1, ins.rd2, v2); }
    assert loaded + w1 + w2 == loaded + Written(m, ins) && behind + w1 + w2 == behind + Written(m, ins);
  }

  /** Destinations that may be kept are loaded already. */
  lemma DestinationsLoaded<W>(m: Semantics<W>, ins: Ins, rest: seq<Ins>, loaded: set<Reg>)
    requires InsCacheable(m, ins, rest, loaded) && SourceSet(Sources(ins)) <= loaded
    ensures loaded + Written(m, ins) == loaded + Destinations(ins)
    ensures ins.cond != AL ==> loaded + Destinations(ins) == loaded
  {
    SourcesLoaded(ins, loaded);
    forall r | r in Destinations(ins) && (ins.cond != AL || r !in Written(m, ins))
      ensures r in loaded
    {
      assert MayKeep(m, ins, r);
      assert ins.Reads(r) ==> IfEmulated(r) <= loaded;
    }
  }

  /** Once its sources are loaded, an instruction keeps the relation, except that memory may
      fall behind for its destinations. */
  lemma ExecuteKeeps<W>(m: Semantics<W>, used: set<Reg>, loaded: set<Reg>, behind: set<Reg>, s: Cpu<W>, u: Cpu<W>,
                        ins: Ins, rest: seq<Ins>)
    requires Separate(used) && Related(used, loaded, behind, s, u)
    requires InsCacheable(m, ins, rest, loaded) && Emulated(ins) <= used && SourceSet(Sources(ins)) <= loaded
    ensures Related(used, loaded + Destinations(ins), behind + Destinations(ins),
                    ExecuteDirect(m, ins, s), ExecuteCached(m, ins, u))
  {
    var s', u' := ExecuteDirect(m, ins, s), ExecuteCached(m, ins, u);
    var dests := Destinations(ins);
    DestinationsLoaded(m, ins, rest, loaded);
    if ins.cond == AL || m.test(ins.cond, u.world) {
      RunningKeeps(m, used, loaded, behind, s, u, ins);
      WidenBehind(used, loaded + dests, behind + Written(m, ins), behind + dests, s', u');
    } else {
      assert !IsFileLoad(ins) && !IsFileStore(ins);
      assert s' == s && u' == u;
      WidenBehind(used, loaded, behind, behind + dests, s', u');
    }
  }

  lemma RunningKeeps<W>(m: Semantics<W>, used: set<Reg>, loaded: set<Reg>, behind: set<Reg>, s: Cpu<W>, u: Cpu<W>,
                        ins: Ins)
    requires Separate(used) && Related(used, loaded, behind, s, u)
    requires LeavesFileAlone(ins) && Emulated(ins) <= used && SourceSet(Sources(ins)) <= loaded
    requires ins.cond == AL || m.test(ins.cond, u.world)
    ensures Related(used, loaded + Written(m, ins), behind + Written(m, ins),
                    ExecuteDirect(m, ins, s), ExecuteCached(m, ins, u))
  {
    SourcesLoaded(ins, loaded);
    GetAgrees(used, loaded, behind, s, u, ins.r1);
    GetAgrees(used, loaded, behind, s, u, ins.r2);
    GetAgrees(used, loaded, behind, s, u, ins.r3);
    GetAgrees(used, loaded, behind, s, u, ins.r4);
    var (v1, v2, w) := m.effect(ins.what, u.regs(ins.r1), u.regs(ins.r2), u.regs(ins.r3), u.regs(ins.r4), u.world);
    var s1 := if Writes1(m, ins) then s.Put(ins.rd1, v1) else s;
    var u1 := if Writes1(m, ins) then u.(regs := Set(u.regs, ins.rd1, v1)) else u;
    var s2 := if Writes2(m, ins) then s1.Put(ins.rd2, v2) else s1;
    var u2 := if Writes2(m, ins) then u1.(regs := Set(u1.regs, ins.rd2, v2)) else u1;
    WritesKeep(m, used, loaded, behind, s, u, ins, v1, v2);
    WorldKeeps(used, loaded + Written(m, ins), behind + Written(m, ins), s2, u2, w);
    assert !IsFileLoad(ins) && !IsFileStore(ins);
    assert ExecuteDirect(m, ins, s) == s2.(world := w);
    assert ExecuteCached(m, ins, u) == u2.(world := w);
  }

  lemma StoreKeeps<W>(m: Semantics<W>, used: set<Reg>, loaded: set<Reg>, behind: set<Reg>, s: Cpu<W>, u: Cpu<W>, r: Reg)
    requires Separate(used) && Related(used, loaded, behind, s, u) && r in used && r in loaded
    ensures Related(used, loaded, behind - {r}, s, ExecuteCached(m, StoreIns(r), u))
  {
    assert IsFileStore(StoreIns(r)) && StoreIns(r).r1 == r;
  }

  /** The stores behind ins bring memory up to date for its destinations, unless what follows
      writes them again. */
  lemma StoresKeep<W>(m: Semantics<W>, used: set<Reg>, loaded: set<Reg>, behind: set<Reg>, s: Cpu<W>, u: Cpu<W>,
                      ins: Ins, tail: seq<Ins>)
    requires Separate(used) && Related(used, loaded, behind + Destinations(ins), s, u)
    requires !IsFileLoad(ins) && Destinations(ins) <= used * loaded
    requires ins.rd1 < REG_TEMP && NextUpdated(tail, ins.rd1) ==> ins.rd1 in behind
    requires ins.rd2 < REG_TEMP && ins.rd2 != ins.rd1 && NextUse(tail, 0, ins.rd2, 0) != -2 ==> ins.rd2 in behind
    ensures Related(used, loaded, behind, s, RunCached(m, StoresFor(ins, tail), u))
  {
    var first := ins.rd1 < REG_TEMP && !NextUpdated(tail, ins.rd1);
    var second := ins.rd2 < REG_TEMP && NextUse(tail, 0, ins.rd2, 0) == -2;
    var b1 := behind + Destinations(ins) - if first then {ins.rd1} else {};
    var u1 := if first then ExecuteCached(m, StoreIns(ins.rd1), u) else u;
    assert ins.rd1 < REG_TEMP ==> ins.rd1 in Destinations(ins);
    assert ins.rd2 < REG_TEMP ==> ins.rd2 in Destinations(ins);
    if first {
      StoreKeeps(m, used, loaded, behind + Destinations(ins), s, u, ins.rd1);
    } else {
      assert b1 == behind + Destinations(ins);
    }
    if second {
      StoreKeeps(m, used, loaded, b1, s, u1, ins.rd2);
    }
    var u2 := if second then ExecuteCached(m, StoreIns(ins.rd2), u1) else u1;
    RunStores(m, ins, tail, u, first, second);
    WidenBehind(used, loaded, b1 - (if second then {ins.rd2} else {}), behind, s, u2);
  }

  lemma RunStores<W>(m: Semantics<W>, ins: Ins, tail: seq<Ins>, u: Cpu<W>, first: bool, second: bool)
    requires !IsFileLoad(ins)
    requires first == (ins.rd1 < REG_TEMP && !NextUpdated(tail, ins.rd1))
    requires second == (ins.rd2 < REG_TEMP && NextUse(tail, 0, ins.rd2, 0) == -2)
    ensures var u1 := if first then ExecuteCached(m, StoreIns(ins.rd1), u) else u;
      RunCached(m, StoresFor(ins, tail), u) == if second then ExecuteCached(m, StoreIns(ins.rd2), u1) else u1
  {
    var a := if first then [StoreIns(ins.rd1)] else [];
    var b := if second then [StoreIns(ins.rd2)] else [];
    assert StoresFor(ins, tail) == a + b;
    RunCachedSplit(m, a, b, u);
    assert first ==> a[1..] == [];
    assert second ==> b[1..] == [];
  }

  // ---------------------------------------------------------------------------------------
  // What the scans of the second pass find in the output of the first

  lemma {:induction false} NextUpdatedSplit(a: seq<Ins>, b: seq<Ins>, r: Reg)
    ensures NextUpdated(a + b, r) <==> NextUpdated(a, r) || NextUpdated(b, r)
  {
    if a == [] {
      assert a + b == b;
    } else {
      assert (a + b)[0] == a[0] && (a + b)[1..] == a[1..] + b;
      NextUpdatedSplit(a[1..], b, r);
    }
  }

  lemma {:induction false} LoadsName(ins: Ins, rs: seq<Reg>, loaded: set<Reg>, r: Reg)
    requires r in loaded && NextUpdated(LoadsFor(ins, rs, loaded), r)
    ensures ins.rd2 == r
    decreases rs
  {
    if rs != [] {
      if rs[0] < REG_TEMP && rs[0] !in loaded {
        assert LoadsFor(ins, rs, loaded)[1..] == LoadsFor(ins, rs[1..], loaded + {rs[0]});
        if ins.rd2 != r { LoadsName(ins, rs[1..], loaded + {rs[0]}, r); }
      } else {
        LoadsName(ins, rs[1..], loaded, r);
      }
    }
  }

  /** A loaded register that is updated later in the first pass's output is named by an
      instruction of its input. */
  lemma {:induction false} TailNames(c: seq<Ins>, loaded: set<Reg>, r: Reg)
    requires r < REG_TEMP && r in loaded && NextUpdated(LoadCached(c, loaded), r)
    ensures r in NamedIn(c)
  {
    if c != [] {
      var loads := LoadsFor(c[0], Sources(c[0]), loaded);
      var tail := LoadCached(c[1..], loaded + Emulated(c[0]));
      NextUpdatedSplit(loads + [c[0]], tail, r);
      NextUpdatedSplit(loads, [c[0]], r);
      if NextUpdated(loads, r) {
        LoadsName(c[0], Sources(c[0]), loaded, r);
      } else if NextUpdated(tail, r) {
        TailNames(c[1..], loaded + Emulated(c[0]), r);
      }
    }
  }

  predicate MentionedIn(c: seq<Ins>, r: Reg) {
    c != [] && (c[0].Mentions(r) || MentionedIn(c[1..], r))
  }

  lemma {:induction false} UsedIsMentioned(c: seq<Ins>, i: nat, r: Reg, x: nat)
    requires i <= |c| && NextUse(c, i, r, x) != -2
    ensures MentionedIn(c[i..], r)
    decreases |c| - i
  {
    if i < |c| {
      assert c[i..][1..] == c[i + 1..];
      if !c[i].Mentions(r) { UsedIsMentioned(c, i + 1, r, x + 1); }
    }
  }

  lemma {:induction false} MentionedSplit(a: seq<Ins>, b: seq<Ins>, r: Reg)
    ensures MentionedIn(a + b, r) <==> MentionedIn(a, r) || MentionedIn(b, r)
  {
    if a == [] {
      assert a + b == b;
    } else {
      assert (a + b)[0] == a[0] && (a + b)[1..] == a[1..] + b;
      MentionedSplit(a[1..], b, r);
    }
  }

  lemma {:induction false} LoadsMention(ins: Ins, rs: seq<Reg>, loaded: set<Reg>, r: Reg)
    requires r < REG_TEMP && r in loaded && MentionedIn(LoadsFor(ins, rs, loaded), r)
    ensures ins.Mentions(r)
    decreases rs
  {
    if rs != [] {
      if rs[0] < REG_TEMP && rs[0] !in loaded {
        assert LoadsFor(ins, rs, loaded)[1..] == LoadsFor(ins, rs[1..], loaded + {rs[0]});
        if !ins.Mentions(r) { LoadsMention(ins, rs[1..], loaded + {rs[0]}, r); }
      } else {
        LoadsMention(ins, rs[1..], loaded, r);
      }
    }
  }

  /** A loaded register used later in the first pass's output is read or named by an
      instruction of its input. */
  lemma {:induction false} TailMentions(c: seq<Ins>, loaded: set<Reg>, r: Reg)
    requires r < REG_TEMP && r in loaded && MentionedIn(LoadCached(c, loaded), r)
    ensures ReadIn(c, r) || r in NamedIn(c)
  {
    if c != [] {
      var loads := LoadsFor(c[0], Sources(c[0]), loaded);
      var tail := LoadCached(c[1..], loaded + Emulated(c[0]));
      MentionedSplit(loads + [c[0]], tail, r);
      MentionedSplit(loads, [c[0]], r);
      if MentionedIn(loads, r) {
        LoadsMention(c[0], Sources(c[0]), loaded, r);
      } else if MentionedIn(tail, r) {
        TailMentions(c[1..], loaded + Emulated(c[0]), r);
      }
    }
  }

  lemma {:induction false} AllLoads(ins: Ins, rs: seq<Reg>, loaded: set<Reg>)
    ensures forall i :: 0 <= i < |LoadsFor(ins, rs, loaded)| ==> IsFileLoad(LoadsFor(ins, rs, loaded)[i])
    decreases rs
  {
    if rs != [] {
      AllLoads(ins, rs[1..], if rs[0] < REG_TEMP && rs[0] !in loaded then loaded + {rs[0]} else loaded);
    }
  }

  lemma StoreOne(x: Ins, d: seq<Ins>)
    ensures StoreCached([x] + d) == [x] + StoresFor(x, d) + StoreCached(d)
  {
    assert ([x] + d)[1..] == d;
  }

  /** The second pass puts nothing behind the loads of the first. */
  lemma {:induction false} StoreLoads(loads: seq<Ins>, d: seq<Ins>)
    requires forall i :: 0 <= i < |loads| ==> IsFileLoad(loads[i])
    ensures StoreCached(loads + d) == loads + StoreCached(d)
  {
    if loads == [] {
      assert loads + d == d;
    } else {
      var e := loads[1..] + d;
      StoreLoads(loads[1..], d);
      StoreOne(loads[0], e);
      assert StoresFor(loads[0], e) == [];
      Associate([loads[0]], loads[1..], d);
      Associate([loads[0]], loads[1..], StoreCached(d));
      assert [loads[0]] + loads[1..] == loads;
      assert [loads[0]] + [] == [loads[0]];
    }
  }

  // ---------------------------------------------------------------------------------------
  // The theorem

  lemma CaughtUp<W>(used: set<Reg>, loaded: set<Reg>, s: Cpu<W>, u: Cpu<W>)
    requires Separate(used) && Related(used, loaded, {}, s, u)
    ensures SameOutcome(s, u)
  {
    forall a: int ensures u.mem(a) == s.mem(a) {
      if InFile(used, s.Base(), a) {
        var r :| r in used && Address(s.Base(), r) == a;
        assert u.mem(Address(s.Base(), r)) == s.mem(Address(s.Base(), r));
      }
    }
  }

  lemma StoreCachedFirst(c: seq<Ins>, loaded: set<Reg>)
    requires c != []
    ensures var tail := LoadCached(c[1..], loaded + Emulated(c[0]));
      StoreCached(LoadCached(c, loaded)) ==
        LoadsFor(c[0], Sources(c[0]), loaded) + ([c[0]] + StoresFor(c[0], tail) + StoreCached(tail))
  {
    var loads := LoadsFor(c[0], Sources(c[0]), loaded);
    var tail := LoadCached(c[1..], loaded + Emulated(c[0]));
    AllLoads(c[0], Sources(c[0]), loaded);
    StoreLoads(loads, [c[0]] + tail);
    StoreOne(c[0], tail);
    Associate(loads, [c[0]], tail);
  }

  lemma RunThree<W>(m: Semantics<W>, a: seq<Ins>, x: Ins, b: seq<Ins>, d: seq<Ins>, u: Cpu<W>)
    ensures RunCached(m, a + ([x] + b + d), u) ==
      RunCached(m, d, RunCached(m, b, ExecuteCached(m, x, RunCached(m, a, u))))
  {
    var v := RunCached(m, a, u);
    RunCachedSplit(m, a, [x] + b + d, u);
    RunCachedSplit(m, [x] + b, d, v);
    assert ([x] + b)[1..] == b;
  }

  /** The cached state behind the first instruction of a list, its loads and its stores. */
  function AfterFirst<W>(m: Semantics<W>, c: seq<Ins>, loaded: set<Reg>, u: Cpu<W>): Cpu<W>
    requires c != []
  {
    var u1 := RunCached(m, LoadsFor(c[0], Sources(c[0]), loaded), u);
    RunCached(m, StoresFor(c[0], LoadCached(c[1..], loaded + Emulated(c[0]))), ExecuteCached(m, c[0], u1))
  }

  /** What both passes make of the first instruction of a list. */
  lemma CacheFirst<W>(m: Semantics<W>, c: seq<Ins>, loaded: set<Reg>, u: Cpu<W>)
    requires c != []
    ensures RunCached(m, StoreCached(LoadCached(c, loaded)), u) ==
      RunCached(m, StoreCached(LoadCached(c[1..], loaded + Emulated(c[0]))), AfterFirst(m, c, loaded, u))
  {
    var tail := LoadCached(c[1..], loaded + Emulated(c[0]));
    StoreCachedFirst(c, loaded);
    RunThree(m, LoadsFor(c[0], Sources(c[0]), loaded), c[0], StoresFor(c[0], tail), StoreCached(tail), u);
  }

  lemma MoreLoaded<W>(m: Semantics<W>, ins: Ins, rest: seq<Ins>, loaded: set<Reg>, more: set<Reg>)
    requires InsCacheable(m, ins, rest, loaded)
    ensures InsCacheable(m, ins, rest, loaded + more)
  {
  }

  lemma EmulatedParts(ins: Ins)
    ensures Emulated(ins) == SourceSet(Sources(ins)) + Destinations(ins)
  {
    var rs := Sources(ins);
    assert SourceSet(rs) == IfEmulated(ins.r1) + SourceSet(rs[1..]);
    assert SourceSet(rs[1..]) == IfEmulated(ins.r2) + SourceSet(rs[1..][1..]);
    assert SourceSet(rs[1..][1..]) == IfEmulated(ins.r3) + SourceSet(rs[1..][1..][1..]);
    assert SourceSet(rs[1..][1..][1..]) == IfEmulated(ins.r4) + SourceSet(rs[1..][1..][1..][1..]);
  }

  /** The stores behind the first instruction, when its execution has kept the relation. */
  lemma StoresAfter<W>(m: Semantics<W>, used: set<Reg>, loaded: set<Reg>, c: seq<Ins>, s: Cpu<W>, u: Cpu<W>)
    requires c != [] && Separate(used) && Emulated(c[0]) <= used * loaded && !IsFileLoad(c[0])
    requires SecondIsNamed(c[0], c[1..])
    requires Related(used, loaded, NamedIn(c[1..]) + Destinations(c[0]), s, u)
    ensures Related(used, loaded, NamedIn(c[1..]), s, RunCached(m, StoresFor(c[0], LoadCached(c[1..], loaded)), u))
  {
    var (ins, rest) := (c[0], c[1..]);
    var tail := LoadCached(rest, loaded);
    if ins.rd1 < REG_TEMP && NextUpdated(tail, ins.rd1) {
      TailNames(rest, loaded, ins.rd1);
    }
    if ins.rd2 < REG_TEMP && ins.rd2 != ins.rd1 && NextUse(tail, 0, ins.rd2, 0) != -2 {
      UsedIsMentioned(tail, 0, ins.rd2, 0);
      assert tail[0..] == tail;
      TailMentions(rest, loaded, ins.rd2);
    }
    StoresKeep(m, used, loaded, NamedIn(rest), s, u, ins, tail);
  }

  /** Executing the first instruction with its loads and stores keeps the relation. */
  lemma FirstKeeps<W(!new)>(m: Semantics<W>, used: set<Reg>, loaded: set<Reg>, c: seq<Ins>, s: Cpu<W>, u: Cpu<W>)
    requires c != [] && Separate(used) && Uses(c, used) && InsCacheable(m, c[0], c[1..], loaded)
    requires Related(used, loaded, NamedIn(c), s, u)
    ensures Related(used, loaded + Emulated(c[0]), NamedIn(c[1..]), ExecuteDirect(m, c[0], s),
                    AfterFirst(m, c, loaded, u))
  {
    var ins, rest, behind := c[0], c[1..], NamedIn(c[1..]);
    var sources, dests := SourceSet(Sources(ins)), Destinations(ins);
    EmulatedParts(ins);
    LoadsKeep(m, used, loaded, NamedIn(c), s, u, ins, Sources(ins));
    var u1 := RunCached(m, LoadsFor(ins, Sources(ins), loaded), u);
    MoreLoaded(m, ins, rest, loaded, sources);
    ExecuteKeeps(m, used, loaded + sources, NamedIn(c), s, u1, ins, rest);
    assert loaded + sources + dests == loaded + Emulated(ins);
    assert NamedIn(c) + dests == behind + dests;
    StoresAfter(m, used, loaded + Emulated(ins), c, ExecuteDirect(m, ins, s), ExecuteCached(m, ins, u1));
  }

  /** All destinations but the covered one have a value. */
  lemma CoveredDestinations<W>(m: Semantics<W>, ins: Ins, rest: seq<Ins>, loaded: set<Reg>)
    requires InsCacheable(m, ins, rest, loaded + {ins.rd1}) && ins.rd1 < REG_TEMP && Writes1(m, ins)
    ensures
      var sources := SourceSet(Sources(ins));
      && loaded + sources + Written(m, ins) == loaded + Emulated(ins)
      && (ins.cond != AL ==> loaded + sources + IfEmulated(ins.rd1) == loaded + Emulated(ins))
  {
    var sources := SourceSet(Sources(ins));
    EmulatedParts(ins);
    SourcesLoaded(ins, loaded + sources);
    forall r | r in Destinations(ins) && r != ins.rd1 && (ins.cond != AL || r !in Written(m, ins))
      ensures r in loaded + sources
    {
      assert MayKeep(m, ins, r);
      assert ins.Reads(r) ==> IfEmulated(r) <= loaded + sources;
    }
  }

  lemma CoveredParts<W(!new)>(m: Semantics<W>, a: Ins, b: Ins)
    requires IsCovered(m, a, b)
    ensures a.rd1 < REG_TEMP && Writes1(m, a)
  {
  }

  lemma SameWorld<W>(used: set<Reg>, loaded: set<Reg>, behind: set<Reg>, s: Cpu<W>, u: Cpu<W>)
    requires Separate(used) && Related(used, loaded, behind, s, u)
    ensures u.world == s.world
  {
  }

  lemma SkippedStays<W>(m: Semantics<W>, ins: Ins, u: Cpu<W>)
    requires LeavesFileAlone(ins) && ins.cond != AL && !m.test(ins.cond, u.world)
    ensures ExecuteCached(m, ins, u) == u && !IsFileLoad(ins)
  {
  }

  /** A covered first instruction that is executed writes its first destination. */
  lemma CoveredRuns<W(!new)>(m: Semantics<W>, used: set<Reg>, loaded: set<Reg>, c: seq<Ins>, s: Cpu<W>, u: Cpu<W>)
    requires c != [] && Separate(used) && Uses(c, used) && FirstIsCovered(m, c, loaded)
    requires Related(used, loaded, NamedIn(c), s, u) && (c[0].cond == AL || m.test(c[0].cond, s.world))
    ensures Related(used, loaded + Emulated(c[0]), NamedIn(c[1..]), ExecuteDirect(m, c[0], s),
                    AfterFirst(m, c, loaded, u))
  {
    hide Related, ExecuteDirect, ExecuteCached, RunCached, LoadsFor, StoresFor, LoadCached, IsCovered;
    var ins, rest, behind := c[0], c[1..], NamedIn(c[1..]);
    var sources, dests := SourceSet(Sources(ins)), Destinations(ins);
    assert IsCovered(m, ins, c[1]);
    CoveredParts(m, ins, c[1]);
    CoveredDestinations(m, ins, rest, loaded);
    EmulatedParts(ins);
    LoadsKeep(m, used, loaded, NamedIn(c), s, u, ins, Sources(ins));
    var u1 := RunCached(m, LoadsFor(ins, Sources(ins), loaded), u);
    SameWorld(used, loaded + sources, NamedIn(c), s, u1);
    RunningKeeps(m, used, loaded + sources, NamedIn(c), s, u1, ins);
    var (s', u') := (ExecuteDirect(m, ins, s), ExecuteCached(m, ins, u1));
    WidenBehind(used, loaded + Emulated(ins), NamedIn(c) + Written(m, ins), behind + dests, s', u');
    StoresAfter(m, used, loaded + Emulated(ins), c, s', u');
  }

  /** Two states that agree on everything but how their functions are written. */
  ghost predicate SameCpu<W>(s: Cpu<W>, t: Cpu<W>) {
    s.world == t.world && (forall r: Reg :: s.regs(r) == t.regs(r)) && (forall a: int :: s.mem(a) == t.mem(a))
  }

  lemma RelatedToSame<W>(used: set<Reg>, loaded: set<Reg>, behind: set<Reg>, s: Cpu<W>, t: Cpu<W>, u: Cpu<W>, v: Cpu<W>)
    requires Separate(used) && Related(used, loaded, behind, s, u) && SameCpu(s, t) && SameCpu(u, v)
    ensures Related(used, loaded, behind, t, v)
  {
    assert s.Base() == t.Base();
  }

  /** A covered first instruction that is not executed: the cache holds an arbitrary value, as if
      that had been written. */
  lemma CoveredIsSkipped<W(!new)>(m: Semantics<W>, used: set<Reg>, loaded: set<Reg>, c: seq<Ins>, s: Cpu<W>, u: Cpu<W>)
    returns (v: int)
    requires c != [] && Separate(used) && Uses(c, used) && FirstIsCovered(m, c, loaded)
    requires Related(used, loaded, NamedIn(c), s, u) && c[0].cond != AL && !m.test(c[0].cond, s.world)
    ensures Related(used, loaded + Emulated(c[0]), NamedIn(c[1..]), s.Put(c[0].rd1, v), AfterFirst(m, c, loaded, u))
  {
    hide Related, ExecuteDirect, RunCached, LoadsFor, StoresFor, LoadCached, IsCovered;
    var ins, rest, behind := c[0], c[1..], NamedIn(c[1..]);
    var sources, dests := SourceSet(Sources(ins)), Destinations(ins);
    CoveredParts(m, ins, c[1]);
    CoveredDestinations(m, ins, rest, loaded);
    EmulatedParts(ins);
    LoadsKeep(m, used, loaded, NamedIn(c), s, u, ins, Sources(ins));
    var u1 := RunCached(m, LoadsFor(ins, Sources(ins), loaded), u);
    v := u1.regs(ins.rd1);
    SameWorld(used, loaded + sources, NamedIn(c), s, u1);
    PutKeeps(used, loaded + sources, NamedIn(c), s, u1, ins.rd1, v);
    RelatedToSame(used, loaded + sources + IfEmulated(ins.rd1), NamedIn(c) + IfEmulated(ins.rd1),
                  s.Put(ins.rd1, v), s.Put(ins.rd1, v), u1.(regs := Set(u1.regs, ins.rd1, v)), u1);
    SkippedStays(m, ins, u1);
    WidenBehind(used, loaded + Emulated(ins), NamedIn(c) + IfEmulated(ins.rd1), behind + dests, s.Put(ins.rd1, v), u1);
    StoresAfter(m, used, loaded + Emulated(ins), c, s.Put(ins.rd1, v), u1);
  }

  /** What was put in the destination of the covering instruction does not matter behind it. */
  lemma CoveringForgets<W(!new)>(m: Semantics<W>, used: set<Reg>, a: Ins, b: Ins, s: Cpu<W>, v: int)
    requires Separate(used) && IsCovered(m, a, b) && Emulated(b) <= used
    requires a.cond != AL && !m.test(a.cond, s.world)
    ensures SameCpu(ExecuteDirect(m, b, s.Put(b.rd1, v)), ExecuteDirect(m, b, s))
  {
    var t := s.Put(b.rd1, v);
    assert b.rd1 in used;
    assert b.cond == AL || m.test(b.cond, s.world);
    forall r: Reg | b.Reads(r) ensures t.Get(r) == s.Get(r) {
      if r < REG_TEMP {
        assert r in Emulated(b);
      }
    }
    assert b.Reads(b.r1) && b.Reads(b.r2) && b.Reads(b.r3) && b.Reads(b.r4);
  }

  /** A covered first instruction that is skipped, and the one that covers it. */
  lemma SkippedKeeps<W(!new)>(m: Semantics<W>, used: set<Reg>, loaded: set<Reg>, c: seq<Ins>, s: Cpu<W>, u: Cpu<W>)
    requires c != [] && Separate(used) && Uses(c, used) && FirstIsCovered(m, c, loaded)
    requires Related(used, loaded, NamedIn(c), s, u) && c[0].cond != AL && !m.test(c[0].cond, s.world)
    ensures
      var loaded2 := loaded + Emulated(c[0]);
      Related(used, loaded2 + Emulated(c[1]), NamedIn(c[1..][1..]), ExecuteDirect(m, c[1], s),
              AfterFirst(m, c[1..], loaded2, AfterFirst(m, c, loaded, u)))
  {
    var (rest, loaded2, u2) := (c[1..], loaded + Emulated(c[0]), AfterFirst(m, c, loaded, u));
    var v := CoveredIsSkipped(m, used, loaded, c, s, u);
    var t := s.Put(c[0].rd1, v);
    assert rest[0] == c[1] && Uses(rest, used) && InsCacheable(m, c[1], rest[1..], loaded2);
    FirstKeeps(m, used, loaded2, rest, t, u2);
    CoveringForgets(m, used, c[0], c[1], s, v);
    var u3 := AfterFirst(m, rest, loaded2, u2);
    RelatedToSame(used, loaded2 + Emulated(c[1]), NamedIn(rest[1..]), ExecuteDirect(m, c[1], t),
                  ExecuteDirect(m, c[1], s), u3, u3);
  }

  lemma RestIsCacheable<W(!new)>(m: Semantics<W>, used: set<Reg>, loaded: set<Reg>, c: seq<Ins>)
    requires c != [] && Uses(c, used) && Cacheable(m, c, loaded)
    ensures Uses(c[1..], used) && Cacheable(m, c[1..], loaded + Emulated(c[0]))
  {
  }

  lemma {:induction false} CachingSimulates<W(!new)>(m: Semantics<W>, used: set<Reg>, loaded: set<Reg>, c: seq<Ins>,
                                                     s: Cpu<W>, u: Cpu<W>)
    requires Separate(used) && Uses(c, used) && Cacheable(m, c, loaded)
    requires Related(used, loaded, NamedIn(c), s, u)
    ensures SameOutcome(RunDirect(m, c, s), RunCached(m, StoreCached(LoadCached(c, loaded)), u))
    decreases c
  {
    if c == [] {
      CaughtUp(used, loaded, s, u);
    } else {
      var u2 := AfterFirst(m, c, loaded, u);
      var loaded2 := loaded + Emulated(c[0]);
      CacheFirst(m, c, loaded, u);
      RestIsCacheable(m, used, loaded, c);
      if InsCacheable(m, c[0], c[1..], loaded) {
        FirstKeeps(m, used, loaded, c, s, u);
        CachingSimulates(m, used, loaded2, c[1..], ExecuteDirect(m, c[0], s), u2);
      } else if c[0].cond == AL || m.test(c[0].cond, s.world) {
        CoveredRuns(m, used, loaded, c, s, u);
        CachingSimulates(m, used, loaded2, c[1..], ExecuteDirect(m, c[0], s), u2);
      } else {
        SkippedKeeps(m, used, loaded, c, s, u);
        CacheFirst(m, c[1..], loaded2, u2);
        RestIsCacheable(m, used, loaded2, c[1..]);
        var u3 := AfterFirst(m, c[1..], loaded2, u2);
        assert ExecuteDirect(m, c[0], s) == s;
        CachingSimulates(m, used, loaded2 + Emulated(c[1]), c[1..][1..], ExecuteDirect(m, c[1], s), u3);
      }
    }
  }

  /** Register caching refines the plain register file: from one starting state, the list with
      loads and stores, run on cached registers, ends with the same world, host registers and
      memory as the original list run directly on the register file. */
  lemma CachingRefinesMemory<W(!new)>(m: Semantics<W>, used: set<Reg>, c: seq<Ins>, s: Cpu<W>)
    requires Separate(used) && Uses(c, used) && Cacheable(m, c, {})
    ensures SameOutcome(RunDirect(m, c, s), RunCached(m, StoreCached(LoadCached(c, {})), s))
  {
    CachingSimulates(m, used, {}, c, s, s);
  }

  // ---------------------------------------------------------------------------------------
  // The clause on second destinations is needed

  const LONG_MULTIPLY := Blank(ArmUmull, AL).(rd1 := REG_HOST_R0, rd2 := 1)
  const READ_BACK := Blank(ArmMov, AL).(rd1 := REG_HOST_R1, r2 := 1)

  /** A register written as a second destination and then read is never stored: whatever the
      multiplication puts in it, memory keeps the old value. */
  lemma SecondDestinationIsLost<W>(m: Semantics<W>, s: Cpu<W>)
    requires m.writes2(LONG_MULTIPLY.what)
    ensures var c := [LONG_MULTIPLY, READ_BACK];
      var z := s.regs(REG_NOT_USED);
      var (_, v, _) := m.effect(LONG_MULTIPLY.what, z, z, z, z, s.world);
      && RunDirect(m, c, s).mem(Address(s.Base(), 1)) == v
      && RunCached(m, StoreCached(LoadCached(c, {})), s).mem(Address(s.Base(), 1)) == s.mem(Address(s.Base(), 1))
  {
    hide ExecuteDirect, ExecuteCached, RunDirect, RunCached;
    NothingInserted();
    RunTwo(m, LONG_MULTIPLY, READ_BACK, s);
    MultiplyWrites(m, s);
    ReadBackKeeps(m, ExecuteDirect(m, LONG_MULTIPLY, s));
    CachedKeeps(m, LONG_MULTIPLY, s);
    CachedKeeps(m, READ_BACK, ExecuteCached(m, LONG_MULTIPLY, s));
  }

  lemma MultiplyWrites<W>(m: Semantics<W>, s: Cpu<W>)
    requires m.writes2(LONG_MULTIPLY.what)
    ensures
      var z := s.regs(REG_NOT_USED);
      var (_, v, _) := m.effect(LONG_MULTIPLY.what, z, z, z, z, s.world);
      ExecuteDirect(m, LONG_MULTIPLY, s).mem(Address(s.Base(), 1)) == v
  {
  }

  lemma ReadBackKeeps<W>(m: Semantics<W>, s: Cpu<W>)
    ensures ExecuteDirect(m, READ_BACK, s).mem == s.mem
  {
  }

  /** An instruction that is no store leaves memory alone. */
  lemma CachedKeeps<W>(m: Semantics<W>, ins: Ins, s: Cpu<W>)
    requires !IsFileStore(ins)
    ensures ExecuteCached(m, ins, s).mem == s.mem
  {
  }

  lemma RunTwo<W>(m: Semantics<W>, a: Ins, b: Ins, s: Cpu<W>)
    ensures RunDirect(m, [a, b], s) == ExecuteDirect(m, b, ExecuteDirect(m, a, s))
    ensures RunCached(m, [a, b], s) == ExecuteCached(m, b, ExecuteCached(m, a, s))
  {
    var c := [a, b];
    assert c[1..] == [b] && [b][1..] == [];
    assert RunDirect(m, [b], ExecuteDirect(m, a, s)) == ExecuteDirect(m, b, ExecuteDirect(m, a, s));
    assert RunCached(m, [b], ExecuteCached(m, a, s)) == ExecuteCached(m, b, ExecuteCached(m, a, s));
  }

  lemma NothingInserted()
    ensures var c := [LONG_MULTIPLY, READ_BACK]; StoreCached(LoadCached(c, {})) == c
  {
    var c := [LONG_MULTIPLY, READ_BACK];
    var rest := [READ_BACK];
    NothingLoaded();
    assert c[1..] == rest && rest[1..] == [];
    assert StoresFor(READ_BACK, []) == [];
    assert StoreCached(rest) == rest;
    assert NextUse(rest, 0, 1, 0) == 0;
    assert StoresFor(LONG_MULTIPLY, rest) == [];
  }

  lemma NothingLoaded()
    ensures var c := [LONG_MULTIPLY, READ_BACK]; LoadCached(c, {}) == c
  {
    hide LoadsFor;
    var (c, rest) := ([LONG_MULTIPLY, READ_BACK], [READ_BACK]);
    NoLoads(LONG_MULTIPLY, {});
    NoLoads(READ_BACK, {1});
    assert Emulated(LONG_MULTIPLY) == {1};
    assert c[1..] == rest && rest[1..] == [];
    assert LoadCached(rest, {1}) == rest;
  }

  lemma NoLoads(ins: Ins, loaded: set<Reg>)
    requires forall r: Reg :: ins.Reads(r) ==> r >= REG_TEMP || r in loaded
    ensures LoadsFor(ins, Sources(ins), loaded) == []
  {
    var rs := Sources(ins);
    assert ins.Reads(ins.r1) && ins.Reads(ins.r2) && ins.Reads(ins.r3) && ins.Reads(ins.r4);
    assert LoadsFor(ins, rs[1..][1..][1..], loaded) == [];
    assert LoadsFor(ins, rs[1..][1..], loaded) == [];
  }
}
