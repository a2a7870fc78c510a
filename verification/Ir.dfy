/** The intermediate representation shared by every translation pass: register numbers,
    conditions, opcodes, instructions, and the singly linked list of instructions that a code
    segment owns and that the passes rewrite in place.
 */
module Ir {

  /** A register number as the recompiler stores it, in sixteen bits. */
  type Reg = r: int | 0 <= r < 0x1_0000 witness 0

  const REG_NOT_USED: Reg := 0xffff
  /** Added to a general register: the upper half of the 64-bit value. */
  const REG_WIDE: Reg := 0x40
  /** Registers from here up to REG_TEMP are coprocessor and special registers. */
  const REG_CO: Reg := 0x80
  const REG_MULTHI: Reg := 0xa4
  const REG_MULTLO: Reg := 0xa6
  /** Registers below REG_TEMP are emulated: they live in the register file in memory. */
  const REG_TEMP: Reg := 0x100
  const REG_TEMP_SCRATCH0: Reg := 0x100
  const REG_TEMP_SCRATCH1: Reg := 0x101
  const REG_TEMP_SCRATCH3: Reg := 0x103
  /** Registers from REG_HOST on are registers of the ARM host. */
  const REG_HOST: Reg := 0x200
  const REG_HOST_R0: Reg := 0x200
  const REG_HOST_R1: Reg := 0x201
  const REG_HOST_R2: Reg := 0x202
  const REG_HOST_R3: Reg := 0x203
  const REG_EMU_FLAGS: Reg := 0x205
  const REG_EMU_FP: Reg := 0x20a
  const REG_HOST_LR: Reg := 0x20e
  const REG_HOST_PC: Reg := 0x20f

  datatype Option<T> = None | Some(value: T)

  datatype Cond = EQ | NE | CS | CC | MI | PL | VS | VC | HI | LS | GE | LT | GT | LE | AL | NV

  datatype ShiftType = LogicalLeft | LogicalRight | ArithmeticRight | RotateRight

  /** The opcodes the modelled passes look at; Other stands for all remaining ones. */
  datatype Opcode =
    | NoOp | IntBranch | IntBranchLink
    | MipsSll | MipsLui | MipsCache | MipsSyscall | MipsBreak | MipsSync
    | MipsDmult | MipsDmultu | MipsAnd | MipsOr | MipsXor
    | MipsDadd | MipsDaddu | MipsDsub | MipsDsubu
    | MipsDsll | MipsDsrl | MipsDsra | MipsDsll32 | MipsDsrl32 | MipsDsra32
    | MipsAndi | MipsOri | MipsXori
    | MipsBeq | MipsBne | MipsBeql | MipsBnel | MipsBltz | MipsBgez | MipsBlez | MipsBgtz | MipsJ
    | ArmAdc | ArmAdd | ArmAnd | ArmB | ArmBl | ArmBic | ArmCmp | ArmEor | ArmLdr | ArmLdrLit
    | ArmMov | ArmMvn | ArmOrr | ArmRsb | ArmSbc | ArmStr | ArmStrLit | ArmSub | ArmTeq | ArmTst
    | ArmUmlal | ArmUmull
    | MipsMfc0 | ArmStm | ArmLdm | ArmBx
    | Other(code: nat)

  /** What an instruction does, apart from the registers it does it to. */
  datatype Operation = Operation(
    op: Opcode, imm: int, shift: nat, shiftType: ShiftType,
    isImm: bool, setFlags: bool, up: bool)

  datatype Ins = Ins(
    what: Operation, cond: Cond,
    rd1: Reg, rd2: Reg, r1: Reg, r2: Reg, r3: Reg, r4: Reg)
  {
    predicate Reads(r: Reg) {
      r1 == r || r2 == r || r3 == r || r4 == r
    }

    predicate Names(r: Reg) {
      rd1 == r || rd2 == r
    }

    predicate Mentions(r: Reg) {
      Reads(r) || Names(r)
    }

    /** An unconditional instruction that names r as a destination. */
    predicate Overwrites(r: Reg) {
      cond == AL && Names(r)
    }
  }

  /** The instruction newEmptyInstr returns, with its opcode and condition filled in. */
  function Blank(op: Opcode, cond: Cond): Ins {
    Ins(Operation(op, 0, 0, LogicalLeft, false, false, true), cond,
        REG_NOT_USED, REG_NOT_USED, REG_NOT_USED, REG_NOT_USED, REG_NOT_USED, REG_NOT_USED)
  }

  /** Instr: overwrite the opcode, condition and first registers of an existing instruction.
      The other fields keep whatever the instruction held before. */
  function Instr(old': Ins, op: Opcode, cond: Cond, rd1: Reg, r1: Reg, r2: Reg): Ins {
    old'.(what := old'.what.(op := op, imm := 0, isImm := false, setFlags := false),
          cond := cond, rd1 := rd1, r1 := r1, r2 := r2)
  }

  /** InstrI: the same with an immediate operand; a negative displacement of a load or store
      becomes its absolute value with the up bit cleared. */
  function InstrI(old': Ins, op: Opcode, cond: Cond, rd1: Reg, r1: Reg, r2: Reg, imm: int): Ins {
    var down := imm < 0 && op in {ArmLdr, ArmStr, ArmLdrLit, ArmStrLit};
    old'.(what := old'.what.(op := op, imm := if down then -imm else imm,
                             isImm := op != ArmB, setFlags := false,
                             up := old'.what.up && !down),
          cond := cond, rd1 := rd1, r1 := r1, r2 := r2)
  }

  /** The signed displacement of a load or store. */
  function Displacement(x: Ins): int {
    if x.what.up then x.what.imm else -x.what.imm
  }

  /** InstrS: a register operand and the S bit; the immediate is left alone. */
  function InstrS(old': Ins, op: Opcode, cond: Cond, rd1: Reg, r1: Reg, r2: Reg): Ins {
    old'.(what := old'.what.(op := op, isImm := false, setFlags := true),
          cond := cond, rd1 := rd1, r1 := r1, r2 := r2)
  }

  /** The sequence s with x put in at position k. */
  function Inserted<T>(s: seq<T>, k: nat, x: T): (r: seq<T>)
    requires k <= |s|
    ensures |r| == |s| + 1 && r[k] == x
    ensures forall i :: 0 <= i < k ==> r[i] == s[i]
    ensures forall i :: k < i < |r| ==> r[i] == s[i - 1]
  {
    s[..k] + [x] + s[k..]
  }

  lemma Associate<T>(a: seq<T>, b: seq<T>, c: seq<T>)
    ensures a + b + c == a + (b + c)
  {
  }

  lemma AssociateFour<T>(a: seq<T>, b: seq<T>, c: seq<T>, d: seq<T>)
    ensures a + b + c + d == a + (b + c + d)
  {
  }

  class Instruction {
    var ins: Ins
    var next: Instruction?
    var branchTo: Instruction?

    constructor (ins: Ins)
      ensures this.ins == ins && next == null && branchTo == null
    {
      this.ins, next, branchTo := ins, null, null;
    }
  }

  /** The intermediate code of one segment: a linked list, with the nodes it consists of
      recorded in order. */
  class InstrList {
    var head: Instruction?
    ghost var nodes: seq<Instruction>

    constructor ()
      ensures Valid() && nodes == []
    {
      head, nodes := null, [];
    }

    ghost predicate Valid()
      reads this, nodes
    {
      && (forall i, j :: 0 <= i < j < |nodes| ==> nodes[i] != nodes[j])
      && (forall i {:trigger nodes[i].next} :: 0 <= i < |nodes| ==> nodes[i].next == NodeAt(i + 1))
      && head == NodeAt(0)
    }

    ghost function NodeAt(i: nat): Instruction?
      reads this
    {
      if i < |nodes| then nodes[i] else null
    }

    ghost function Code(): (c: seq<Ins>)
      reads this, nodes
      ensures |c| == |nodes| && forall i :: 0 <= i < |c| ==> c[i] == nodes[i].ins
    {
      seq(|nodes|, i requires 0 <= i < |nodes| reads this, nodes => nodes[i].ins)
    }

    /** ADD_LL_NEXT: put a new instruction behind cur, which is node k of the list. */
    method InsertAfter(cur: Instruction, ghost k: nat, x: Ins) returns (n: Instruction)
      requires Valid() && k < |nodes| && cur == nodes[k]
      modifies this`nodes, cur`next
      ensures Valid() && fresh(n) && n.ins == x && n.branchTo == null
      ensures nodes == Inserted(old(nodes), k + 1, n)
      ensures Code() == Inserted(old(Code()), k + 1, x)
    {
      n := new Instruction(x);
      n.next := cur.next;
      cur.next := n;
      nodes := Inserted(nodes, k + 1, n);
    }

    /** Put the instructions of more behind cur, which is node k; last is the node of the last one, node j. */
    method InsertAllAfter(cur: Instruction, ghost k: nat, more: seq<Ins>) returns (last: Instruction, ghost j: nat)
      requires Valid() && k < |nodes| && cur == nodes[k]
      modifies this`nodes, cur`next
      ensures Valid() && j == k + |more| && j < |nodes| && last == nodes[j]
      ensures forall n :: n in nodes ==> n in old(nodes) || (fresh(n) && n.branchTo == null)
      ensures Code()[..j + 1] == old(Code())[..k + 1] + more && Code()[j + 1..] == old(Code())[k + 1..]
    {
      last, j := cur, k;
      for i := 0 to |more|
        invariant Valid() && j == k + i && j < |nodes| && last == nodes[j]
        invariant last == cur || fresh(last)
        invariant forall n :: n in nodes ==> n in old(nodes) || (fresh(n) && n.branchTo == null)
        invariant Code()[..j + 1] == old(Code())[..k + 1] + more[..i]
        invariant Code()[j + 1..] == old(Code())[k + 1..]
      {
        assert more[..i + 1] == more[..i] + [more[i]];
        last := InsertAfter(last, j, more[i]);
        j := j + 1;
      }
    }

    /** Put a new instruction in front of the list. */
    method InsertHead(x: Ins) returns (n: Instruction)
      requires Valid()
      modifies this
      ensures Valid() && fresh(n) && n.ins == x && n.branchTo == null
      ensures nodes == [n] + old(nodes)
    {
      n := new Instruction(x);
      n.next := head;
      head := n;
      nodes := [n] + nodes;
    }

    /** Unlink the first node. */
    method RemoveHead()
      requires Valid() && |nodes| > 0
      modifies this
      ensures Valid() && nodes == old(nodes[1..])
    {
      head := head.next;
      nodes := nodes[1..];
    }

    /** Unlink node k, the one behind prev. */
    method RemoveAfter(prev: Instruction, ghost k: nat)
      requires Valid() && 0 < k < |nodes| && prev == nodes[k - 1]
      modifies this`nodes, prev`next
      ensures Valid() && nodes == old(nodes[..k] + nodes[k + 1..])
    {
      prev.next := prev.next.next;
      nodes := nodes[..k] + nodes[k + 1..];
    }
  }
}
