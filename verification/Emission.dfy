/** Translate_Literals and emit_arm_code: literals go before or behind the code of a segment, and
    a load relative to the program counter finds its literal in the emitted words.
 */
module Emission {
  import opened Ir
  import opened Segments
  import opened Literals

  // ---------------------------------------------------------------------------------------
  // Translate_Literals

  predicate IsLiteralAccess(x: Ins) {
    x.what.op.ArmLdrLit? || x.what.op.ArmStrLit?
  }

  /** The instruction at position i of a segment with len instructions and count literals. */
  function Displaced(kind: SegType, x: Ins, i: nat, len: nat, count: nat): Ins {
    if !IsLiteralAccess(x) then x
    else if x.r2 != REG_HOST_PC then x.(what := x.what.(up := false))
    else if kind == Start || kind == Alone then
      var offset := x.what.imm - 4 * i - 4 * count - 8;
      if offset < 0 then x.(what := x.what.(imm := -offset, up := false)) else x.(what := x.what.(imm := offset))
    else if kind == End then x.(what := x.what.(imm := 4 * len - 4 * i + x.what.imm - 8))
    else x
  }

  function Displace(kind: SegType, c: seq<Ins>, count: nat): (d: seq<Ins>)
    ensures |d| == |c| && forall i :: 0 <= i < |c| ==> d[i] == Displaced(kind, c[i], i, |c|, count)
  {
    seq(|c|, i requires 0 <= i < |c| => Displaced(kind, c[i], i, |c|, count))
  }

  /** Only loads and stores of literals change, and of these only the displacement and its sign. */
  lemma OthersAreNotDisplaced(kind: SegType, c: seq<Ins>, count: nat, i: nat)
    requires i < |c|
    ensures
      var (x, y) := (c[i], Displace(kind, c, count)[i]);
      && (x.what.op != ArmLdrLit && x.what.op != ArmStrLit ==> y == x)
      && y.what == x.what.(imm := y.what.imm, up := y.what.up) && y == x.(what := y.what)
  {
    assert Displace(kind, c, count)[i] == Displaced(kind, c[i], i, |c|, count);
  }

  // ---------------------------------------------------------------------------------------
  // emit_arm_code

  /** The number of literals in front of the code, and behind it. */
  function LeadingLiterals(kind: SegType, lits: seq<nat>): seq<nat> {
    if kind == Start || kind == Alone then lits else []
  }

  function TrailingLiterals(kind: SegType, lits: seq<nat>): seq<nat> {
    if kind == End then lits else []
  }

  /** The code words; the encoding of an instruction may depend on its address. */
  function CodeWords(encode: (Ins, nat) -> nat, c: seq<Ins>, address: nat): (w: seq<nat>)
    ensures |w| == |c| && forall i :: 0 <= i < |c| ==> w[i] == encode(c[i], address + 4 * i)
  {
    seq(|c|, i requires 0 <= i < |c| => encode(c[i], address + 4 * i))
  }

  /** The words emit_arm_code writes for a segment at an address; none for an empty one. */
  function Emitted(encode: (Ins, nat) -> nat, kind: SegType, c: seq<Ins>, lits: seq<nat>, address: nat): seq<nat> {
    if c == [] then []
    else
      var lead := LeadingLiterals(kind, lits);
      lead + CodeWords(encode, c, address + 4 * |lead|) + TrailingLiterals(kind, lits)
  }

  /** The address a PC-relative access at an address reads: the displacement field has twelve bits,
      and the program counter is 8 ahead. */
  function AccessAddress(x: Ins, address: int): int {
    address + 8 + if x.what.up then x.what.imm % 0x1000 else -(x.what.imm % 0x1000)
  }

  /** What Translate_Literals makes of a PC-relative load at position i. */
  function PcAccess(kind: SegType, x: Ins, i: nat, len: nat, count: nat, offset: nat): Ins {
    Displaced(kind, InstrI(x, ArmLdrLit, x.cond, x.rd1, REG_NOT_USED, REG_HOST_PC, offset), i, len, count)
  }

  /** The displacement fits its field. */
  predicate Reaches(kind: SegType, i: nat, len: nat, count: nat, offset: nat) {
    if kind == End then 0 <= 4 * len - 4 * i + offset - 8 < 0x1000 else 4 * i + 4 * count + 8 - offset < 0x1000
  }

  /** The word of an emitted segment that holds literal p. */
  function LiteralWord(kind: SegType, len: nat, p: nat): nat {
    if kind == End then len + p else p
  }

  /** The address of instruction i. */
  function InstructionAddress(kind: SegType, lits: seq<nat>, address: nat, i: nat): nat {
    address + 4 * |LeadingLiterals(kind, lits)| + 4 * i
  }

  /** A PC-relative load with offset 4p gets the address of word p of the literals, wherever the
      segment is put, exactly when the displacement fits the field. */
  lemma AccessHitsLiteral(kind: SegType, len: nat, lits: seq<nat>, address: nat, i: nat, p: nat, x: Ins)
    requires kind == Start || kind == Alone || kind == End
    requires i < len && p <= |lits| && x.what.up
    ensures
      var load, at := PcAccess(kind, x, i, len, |lits|, 4 * p), InstructionAddress(kind, lits, address, i);
      AccessAddress(load, at) == address + 4 * LiteralWord(kind, len, p) <==> Reaches(kind, i, len, |lits|, 4 * p)
  {
  }

  /** Literal p is emitted at its word. */
  lemma LiteralIsEmitted(encode: (Ins, nat) -> nat, kind: SegType, c: seq<Ins>, lits: seq<nat>, address: nat, p: nat)
    requires kind == Start || kind == Alone || kind == End
    requires c != [] && p < |lits|
    ensures
      var (words, w) := (Emitted(encode, kind, c, lits, address), LiteralWord(kind, |c|, p));
      w < |words| && words[w] == lits[p]
  {
    var lead, words := LeadingLiterals(kind, lits), Emitted(encode, kind, c, lits, address);
    var code := CodeWords(encode, c, address + 4 * |lead|);
    if kind == End {
      assert words[|c| + p] == lits[p];
    } else {
      assert words[p] == (lead + code)[p] == lits[p];
    }
  }

  lemma InTheMiddle<T>(a: seq<T>, b: seq<T>, c: seq<T>, i: nat)
    requires i < |b|
    ensures |a| + i < |a + b + c| && (a + b + c)[|a| + i] == b[i]
  {
  }

  /** Instruction i is emitted at its address, and encoded for it. */
  lemma CodeIsEmitted(encode: (Ins, nat) -> nat, kind: SegType, c: seq<Ins>, lits: seq<nat>, address: nat, i: nat)
    requires i < |c|
    ensures
      var (words, w) := (Emitted(encode, kind, c, lits, address), |LeadingLiterals(kind, lits)| + i);
      && w < |words| && InstructionAddress(kind, lits, address, i) == address + 4 * w
      && words[w] == encode(c[i], InstructionAddress(kind, lits, address, i))
  {
    hide LeadingLiterals, TrailingLiterals;
    var lead := LeadingLiterals(kind, lits);
    InTheMiddle(lead, CodeWords(encode, c, address + 4 * |lead|), TrailingLiterals(kind, lits), i);
  }

  lemma OffsetOfDistinctValue(values: seq<nat>, j: nat)
    requires Different(values) && j < |values|
    ensures AddAll(values) == values && AddLocal(AddAll(values[..j]), values[j]).1 == 4 * j
  {
    hide AddAll, AddLocal;
    DistinctValuesStayInOrder(values);
    assert AddLocal(AddAll(values[..j]), values[j]) == (values[..j + 1], 4 * j);
  }

  /** A load relative to the frame pointer reads the word at fp - 4x for slot x, whichever sign the
      offset had: addLiteral returns a positive one for a value it finds and a negative one for a
      value it adds. Slot 1024 alone is out of reach. */
  lemma GlobalAccessReachesSlot(kind: SegType, x: Ins, i: nat, len: nat, count: nat, slot: nat, negative: bool, fp: int)
    requires 1 <= slot <= SLOTS
    ensures
      var offset := if negative then -4 * slot else 4 * slot;
      var load := Displaced(kind, InstrI(x, ArmLdrLit, x.cond, x.rd1, REG_NOT_USED, REG_EMU_FP, offset), i, len, count);
      !load.what.up && (fp - load.what.imm % 0x1000 == fp - 4 * slot <==> slot < SLOTS)
  {
  }

  /** From addLiteral to the emitted words: when pairwise distinct values are added to a segment,
      a load with the offset returned for one of them reads that value. */
  lemma LocalLiteralsResolve(encode: (Ins, nat) -> nat, kind: SegType, c: seq<Ins>, values: seq<nat>, address: nat,
                             i: nat, j: nat, x: Ins, offset: nat)
    requires kind == Start || kind == Alone || kind == End
    requires Different(values) && j < |values| && i < |c| && x.what.up
    requires offset == AddLocal(AddAll(values[..j]), values[j]).1 && Reaches(kind, i, |c|, |values|, offset)
    ensures
      var load := PcAccess(kind, x, i, |c|, |values|, offset);
      var (words, w) := (Emitted(encode, kind, c, AddAll(values), address), LiteralWord(kind, |c|, j));
      && AccessAddress(load, InstructionAddress(kind, values, address, i)) == address + 4 * w
      && w < |words| && words[w] == values[j]
  {
    hide PcAccess, AccessAddress, InstructionAddress, Reaches, LiteralWord, Emitted, AddAll, AddLocal;
    OffsetOfDistinctValue(values, j);
    AccessHitsLiteral(kind, |c|, values, address, i, j, x);
    LiteralIsEmitted(encode, kind, c, values, address, j);
  }

  /** A value that is already in the list is looked for one word too far: the load reads the next
      literal, or at the end of the leading literals the first instruction. */
  lemma RepeatedValueMisses(encode: (Ins, nat) -> nat, kind: SegType, c: seq<Ins>, lits: seq<nat>, value: nat,
                            address: nat, i: nat, x: Ins, offset: nat)
    requires (kind == Start || kind == Alone) && value in lits && i < |c| && x.what.up
    requires offset == AddLocal(lits, value).1 && Reaches(kind, i, |c|, |lits|, offset)
    ensures
      var load := PcAccess(kind, x, i, |c|, |lits|, offset);
      var (words, w) := (Emitted(encode, kind, c, lits, address), FindLocal(lits, value) + 1);
      && AccessAddress(load, InstructionAddress(kind, lits, address, i)) == address + 4 * w
      && w < |words| && words[w] == if w < |lits| then lits[w] else encode(c[0], address + 4 * |lits|)
  {
    hide PcAccess, AccessAddress, InstructionAddress, Reaches;
    var w := FindLocal(lits, value) + 1;
    AccessHitsLiteral(kind, |c|, lits, address, i, w, x);
    if w < |lits| {
      LiteralIsEmitted(encode, kind, c, lits, address, w);
    } else {
      var code := CodeWords(encode, c, address + 4 * |lits|);
      assert Emitted(encode, kind, c, lits, address)[w] == (lits + code)[w] == code[0];
    }
  }

  // ---------------------------------------------------------------------------------------
  // The segments of a super block, emitted back to back

  /** A segment as it is emitted: its type, its code and its literals. */
  datatype Part = Part(kind: SegType, code: seq<Ins>, lits: seq<nat>)
  {
    /** The number of words emitted for it. */
    function Length(): nat {
      if code == [] then 0 else |LeadingLiterals(kind, lits)| + |code| + |TrailingLiterals(kind, lits)|
    }
  }

  /** Where part k begins. */
  function Begin(parts: seq<Part>, base: nat, k: nat): nat
    requires k <= |parts|
  {
    if k == 0 then base else Begin(parts, base, k - 1) + 4 * parts[k - 1].Length()
  }

  /** The ARM entry point of part k. */
  function Entry(parts: seq<Part>, base: nat, k: nat): nat
    requires k < |parts|
  {
    InstructionAddress(parts[k].kind, parts[k].lits, Begin(parts, base, k), 0)
  }

  function EndOfCode(parts: seq<Part>, base: nat, k: nat): nat
    requires k < |parts|
  {
    InstructionAddress(parts[k].kind, parts[k].lits, Begin(parts, base, k), |parts[k].code|)
  }

  /** The words emitted for the first k parts. */
  function EmittedAll(encode: (Ins, nat) -> nat, parts: seq<Part>, base: nat, k: nat): seq<nat>
    requires k <= |parts|
  {
    if k == 0 then []
    else
      var p := parts[k - 1];
      EmittedAll(encode, parts, base, k - 1) + Emitted(encode, p.kind, p.code, p.lits, Begin(parts, base, k - 1))
  }

  lemma {:induction false} EmittedAllLength(encode: (Ins, nat) -> nat, parts: seq<Part>, base: nat, k: nat)
    requires k <= |parts|
    ensures Begin(parts, base, k) == base + 4 * |EmittedAll(encode, parts, base, k)|
  {
    if k > 0 {
      EmittedAllLength(encode, parts, base, k - 1);
    }
  }

  /** Emitted regions follow one another and do not overlap. */
  lemma {:induction false} RegionsDoNotOverlap(parts: seq<Part>, base: nat, j: nat, k: nat)
    requires j < k < |parts| && parts[j].code != []
    ensures Begin(parts, base, j) <= Entry(parts, base, j) < EndOfCode(parts, base, j) <= Begin(parts, base, j + 1)
    ensures Begin(parts, base, j + 1) <= Begin(parts, base, k)
    decreases k
  {
    if j + 1 < k {
      RegionsDoNotOverlap(parts, base, j, k - 1);
    }
  }

  lemma EntriesIncrease(parts: seq<Part>, base: nat, j: nat, k: nat)
    requires j < k < |parts| && parts[j].code != []
    ensures base <= Entry(parts, base, j) < Entry(parts, base, k)
  {
    RegionsDoNotOverlap(parts, base, j, k);
    BeginsAtBase(parts, base, j);
  }

  lemma {:induction false} BeginsAtBase(parts: seq<Part>, base: nat, k: nat)
    requires k <= |parts|
    ensures base <= Begin(parts, base, k)
  {
    if k > 0 {
      BeginsAtBase(parts, base, k - 1);
    }
  }

  /** Falling through to the next segment is running off the end of this one's code exactly when
      no literals lie between them. */
  lemma FallThroughIsPhysical(parts: seq<Part>, base: nat, k: nat)
    requires k + 1 < |parts| && parts[k].code != []
    ensures Entry(parts, base, k + 1) == EndOfCode(parts, base, k) <==>
      TrailingLiterals(parts[k].kind, parts[k].lits) == [] &&
        LeadingLiterals(parts[k + 1].kind, parts[k + 1].lits) == []
  {
  }

  /** Parts emitted for segments. */
  predicate ArePartsOf(parts: seq<Part>, ps: seq<Piece>) {
    |parts| == |ps| && forall k :: 0 <= k < |ps| ==> parts[k].kind == ps[k].kind && parts[k].code != []
  }

  /** In a super block without linking jumps every fall-through is physical, whatever code and
      literals the segments have. */
  lemma BlockFallsThrough(code: seq<MipsWord>, parts: seq<Part>, base: nat, k: nat)
    requires HasShortOffsets(code) && 0 < BlockLength(code) < 0x4000_0000 && NoFarWrap(code, BlockLength(code))
    requires ArePartsOf(parts, Pieces(code)) && k + 1 < |parts|
    requires forall i :: 0 <= i < BlockLength(code) ==> code[i] != Jump(true)
    ensures Entry(parts, base, k + 1) == EndOfCode(parts, base, k)
  {
    hide Pieces, NoFarWrap, HasShape;
    var (n, ps) := (BlockLength(code), Pieces(code));
    PiecesArePartition(code);
    PiecesAreSound(code);
    CoversBounds(ps, 0, n, k);
    CoversBounds(ps, 0, n, k + 1);
    assert ps[k] in ps && ps[k + 1] in ps;
    KindBetween(code, n, ps[k], ps[k + 1]);
    FallThroughIsPhysical(parts, base, k);
  }

  /** Neither is the next segment a START one, nor does this one end in a jump. */
  lemma KindBetween(code: seq<MipsWord>, n: nat, p: Piece, q: Piece)
    requires IsBlock(code, n) && (forall i :: 0 <= i < n ==> code[i] != Jump(true))
    requires HasShape(code, n, p) &&
      (if p.start > 0 then HasKind(code, n, p) else p.kind == Start || p.kind == Sandwich)
    requires HasShape(code, n, q) && HasKind(code, n, q) && q.start == p.start + p.len
    ensures p.kind != End && q.kind != Start && q.kind != Alone
  {
    var last := code[p.start + p.len - 1];
    assert !Stops(last);
  }
}
