/** What one BPF instruction does to registers and memory.  The block-level machine (module Cfg) and the
    byte-level machine (module ByteMachine) both execute instructions with `Exec`, so the theorems that
    relate them hold for every environment `Env`. */
module Isa {
  import opened Words

  type Reg = nat
  type Regs = map<Reg, Word>
  type Mem = map<Word, Byte>

  /** Registers and byte memory; a register or byte never written reads as 0. */
  datatype Mach = Mach(regs: Regs, mem: Mem)

  datatype AluOp = ADD | SUB | MUL | DIV | OR | AND | SLL | SRL | XOR | SRA

  /** The six comparisons that have a jump instruction. */
  datatype Cmp = EQ | UGT | UGE | NE | SGT | SGE

  datatype Size = W | H | B | DW

  datatype Src = InReg(r: Reg) | Const(v: int)

  datatype Base = RegBase(r: Reg) | FrameBase(fi: int)

  datatype Callee = Helper(id: int) | External(sym: nat)

  /** An instruction with its operands told apart.  `target` is a block number in a machine function and
      a slot displacement in decoded bytes. */
  datatype Insn =
    | Arith(op: AluOp, d: Reg, s: Reg, x: Src)
    | Move(d: Reg, x: Src)
    | FrameAddr(d: Reg, fi: int)
    | Wide(d: Reg, imm: Word)
    | WideSym(d: Reg, sym: nat)
    | LoadMem(sz: Size, d: Reg, base: Base, off: int)
    | StoreMem(sz: Size, v: Reg, base: Base, off: int)
    | AtomicAdd(sz: Size, d: Reg, base: Base, off: int, v: Reg)
    | BranchIf(cc: Cmp, a: Reg, x: Src, target: int)
    | Branch(target: int)
    | Call(callee: Callee)
    | Leave
    | Choose(d: Reg, cc: Cmp, a: Reg, b: Reg, yes: Reg, no: Reg)
    | DebugOnly

  /** Everything the instructions leave to their surroundings.
      `alu` gives every operation but ADD; `call` gives the registers and memory a callee leaves behind;
      `fetched` gives the register result of an atomic add; `fp` is the frame pointer of the running
      function and `frame` the offset of each frame object from it. */
  datatype Env = Env(
    alu: (AluOp, Word, Word) -> Word,
    call: (Callee, Mach) -> Mach,
    fetched: (Size, Word, Word) -> Word,
    symbol: nat -> Word,
    fp: Word,
    frame: int -> int)

  datatype Effect = Next(m: Mach) | Jump(target: int, m: Mach) | Return(m: Mach) | Fault

  const FRAME_REG: Reg := 10

  function Get(regs: Regs, r: Reg): Word {
    if r in regs then regs[r] else 0
  }

  function Value(m: Mach, x: Src): Word {
    match x
    case InReg(r) => Get(m.regs, r)
    case Const(v) => Wrap64(v)
  }

  function BaseValue(e: Env, m: Mach, b: Base): Word {
    match b
    case RegBase(r) => Get(m.regs, r)
    case FrameBase(fi) => Wrap64(e.fp + e.frame(fi))
  }

  /** The effective address of a memory operand, modulo 2^64. */
  function Address(e: Env, m: Mach, b: Base, off: int): Word {
    Wrap64(BaseValue(e, m, b) + off)
  }

  function AluValue(e: Env, op: AluOp, a: Word, b: Word): Word {
    if op == ADD then Wrap64(a + b) else e.alu(op, a, b)
  }

  predicate Holds(cc: Cmp, a: Word, b: Word) {
    match cc
    case EQ => a == b
    case NE => a != b
    case UGT => a > b
    case UGE => a >= b
    case SGT => Low64Signed(a) > Low64Signed(b)
    case SGE => Low64Signed(a) >= Low64Signed(b)
  }

  function SizeInBytes(sz: Size): nat {
    match sz
    case W => 4
    case H => 2
    case B => 1
    case DW => 8
  }

  function ReadLE(mem: Mem, a: Word, n: nat): nat
    decreases n
  {
    if n == 0 then 0
    else (if a in mem then mem[a] else 0) + 0x100 * ReadLE(mem, Wrap64(a + 1), n - 1)
  }

  function WriteLE(mem: Mem, a: Word, v: nat, n: nat): Mem
    decreases n
  {
    if n == 0 then mem else WriteLE(mem[a := v % 0x100], Wrap64(a + 1), v / 0x100, n - 1)
  }

  /** A call writes R0 to R5 (`Defs` of JAL) and memory, and no other register. */
  function AfterCall(e: Env, c: Callee, m: Mach): Mach {
    var out := e.call(c, m);
    Mach(m.regs + (map r: Reg | 0 <= r <= 5 :: Get(out.regs, r)), out.mem)
  }

  function Exec(e: Env, i: Insn, m: Mach): Effect {
    match i
    case Arith(op, d, s, x) =>
      Next(m.(regs := m.regs[d := AluValue(e, op, Get(m.regs, s), Value(m, x))]))
    case Move(d, x) => Next(m.(regs := m.regs[d := Value(m, x)]))
    case FrameAddr(d, fi) => Next(m.(regs := m.regs[d := BaseValue(e, m, FrameBase(fi))]))
    case Wide(d, imm) => Next(m.(regs := m.regs[d := imm]))
    case WideSym(d, sym) => Next(m.(regs := m.regs[d := e.symbol(sym)]))
    case LoadMem(sz, d, b, off) =>
      Next(m.(regs := m.regs[d := Wrap64(ReadLE(m.mem, Address(e, m, b, off), SizeInBytes(sz)))]))
    case StoreMem(sz, v, b, off) =>
      Next(m.(mem := WriteLE(m.mem, Address(e, m, b, off), Get(m.regs, v), SizeInBytes(sz))))
    case AtomicAdd(sz, d, b, off, v) =>
      var a := Address(e, m, b, off);
      var was := ReadLE(m.mem, a, SizeInBytes(sz));
      Next(Mach(m.regs[d := e.fetched(sz, Wrap64(was), Get(m.regs, d))],
                WriteLE(m.mem, a, was + Get(m.regs, v), SizeInBytes(sz))))
    case BranchIf(cc, a, x, t) =>
      if Holds(cc, Get(m.regs, a), Value(m, x)) then Jump(t, m) else Next(m)
    case Branch(t) => Jump(t, m)
    case Call(c) => Next(AfterCall(e, c, m))
    case Leave => Return(m)
    case Choose(d, cc, a, b, yes, no) =>
      Next(m.(regs := m.regs[d := Get(m.regs, if Holds(cc, Get(m.regs, a), Get(m.regs, b)) then yes else no)]))
    case DebugOnly => Next(m)
  }

  /** The register an instruction writes, apart from the call-clobbered ones. */
  function Written(i: Insn): Option<Reg> {
    match i
    case Arith(_, d, _, _) => Some(d)
    case Move(d, _) => Some(d)
    case FrameAddr(d, _) => Some(d)
    case Wide(d, _) => Some(d)
    case WideSym(d, _) => Some(d)
    case LoadMem(_, d, _, _) => Some(d)
    case AtomicAdd(_, d, _, _, _) => Some(d)
    case Choose(d, _, _, _, _, _) => Some(d)
    case _ => None
  }

  /** The frame pointer survives every instruction that does not name R10 as its result. */
  lemma FramePointerKept(e: Env, i: Insn, m: Mach)
    requires Written(i) != Some(FRAME_REG)
    ensures var r := Exec(e, i, m); r.Fault? || Get(r.m.regs, FRAME_REG) == Get(m.regs, FRAME_REG)
  {
  }
}
