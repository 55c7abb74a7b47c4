/** Machine instructions as LLVM holds them: an opcode and a list of operands. */
module Mir {
  import opened Words
  import opened Isa

  type BlockId = int

  /** The opcodes of BPFInstrInfo.td that reach this backend's code, with LLVM's PHI and DBG_VALUE. */
  datatype Opcode =
    | ALU_rr(op: AluOp) | ALU_ri(op: AluOp)
    | MOV_rr | MOV_ri | LD_imm64
    | LD(sz: Size) | ST(sz: Size) | XADD(sz: Size)
    | J_rr(cc: Cmp) | J_ri(cc: Cmp) | JMP
    | JAL | NOP | RET
    | Select | PHI | DBG_VALUE

  datatype Operand =
    | Reg(r: Isa.Reg, implicit: bool)
    | Imm(v: int)
    | MBB(b: BlockId)
    | FI(fi: int)
    | Global(sym: nat)
    | RegMask

  datatype MInstr = MInstr(opc: Opcode, ops: seq<Operand>)

  /** Implicit registers and call masks are not part of the instruction's own operand list. */
  predicate IsImplicit(o: Operand) {
    o.RegMask? || (o.Reg? && o.implicit)
  }

  function Explicit(ops: seq<Operand>): seq<Operand> {
    if ops == [] then []
    else (if IsImplicit(ops[0]) then [] else [ops[0]]) + Explicit(ops[1..])
  }

  function Use(r: Isa.Reg): Operand {
    Reg(r, false)
  }

  predicate IsBase(o: Operand) {
    o.Reg? || o.FI?
  }

  function BaseOf(o: Operand): Base
    requires IsBase(o)
  {
    if o.Reg? then RegBase(o.r) else FrameBase(o.fi)
  }

  /** The comparison behind a value of LLVM's ISD::CondCode enumeration, if it has a jump. */
  function CmpOfIsd(n: int): Option<Cmp> {
    match n
    case 10 => Some(UGT)
    case 11 => Some(UGE)
    case 17 => Some(EQ)
    case 18 => Some(SGT)
    case 19 => Some(SGE)
    case 22 => Some(NE)
    case _ => None
  }

  /** The meaning of an operand list; None when it does not have the shape the opcode asks for. */
  function DenoteOperands(opc: Opcode, o: seq<Operand>): Option<Insn> {
    match opc
    case ALU_rr(op) =>
      if |o| == 3 && o[0].Reg? && o[1].Reg? && o[2].Reg?
      then Some(Arith(op, o[0].r, o[1].r, InReg(o[2].r))) else None
    case ALU_ri(op) =>
      if |o| == 3 && o[0].Reg? && o[1].Reg? && o[2].Imm?
      then Some(Arith(op, o[0].r, o[1].r, Const(o[2].v))) else None
    case MOV_rr =>
      if |o| == 2 && o[0].Reg? && o[1].Reg? then Some(Move(o[0].r, InReg(o[1].r)))
      else if |o| == 2 && o[0].Reg? && o[1].FI? then Some(FrameAddr(o[0].r, o[1].fi))
      else None
    case MOV_ri =>
      if |o| == 2 && o[0].Reg? && o[1].Imm? then Some(Move(o[0].r, Const(o[1].v))) else None
    case LD_imm64 =>
      if |o| == 2 && o[0].Reg? && o[1].Imm? then Some(Wide(o[0].r, Wrap64(o[1].v)))
      else if |o| == 2 && o[0].Reg? && o[1].Global? then Some(WideSym(o[0].r, o[1].sym))
      else None
    case LD(sz) =>
      if |o| == 3 && o[0].Reg? && IsBase(o[1]) && o[2].Imm?
      then Some(LoadMem(sz, o[0].r, BaseOf(o[1]), o[2].v)) else None
    case ST(sz) =>
      if |o| == 3 && o[0].Reg? && IsBase(o[1]) && o[2].Imm?
      then Some(StoreMem(sz, o[0].r, BaseOf(o[1]), o[2].v)) else None
    case XADD(sz) =>
      if |o| == 4 && o[0].Reg? && IsBase(o[1]) && o[2].Imm? && o[3].Reg?
      then Some(AtomicAdd(sz, o[0].r, BaseOf(o[1]), o[2].v, o[3].r)) else None
    case J_rr(cc) =>
      if |o| == 3 && o[0].Reg? && o[1].Reg? && o[2].MBB?
      then Some(BranchIf(cc, o[0].r, InReg(o[1].r), o[2].b)) else None
    case J_ri(cc) =>
      if |o| == 3 && o[0].Reg? && o[1].Imm? && o[2].MBB?
      then Some(BranchIf(cc, o[0].r, Const(o[1].v), o[2].b)) else None
    case JMP =>
      if |o| == 1 && o[0].MBB? then Some(Branch(o[0].b)) else None
    case JAL =>
      if |o| == 1 && o[0].Imm? then Some(Call(Helper(o[0].v)))
      else if |o| == 1 && o[0].Global? then Some(Call(External(o[0].sym)))
      else None
    case NOP =>
      // the encoding comment: mov r0, r0 == nop
      Some(Move(0, InReg(0)))
    case RET =>
      if |o| == 0 then Some(Leave) else None
    case Select =>
      if |o| == 6 && o[0].Reg? && o[1].Reg? && o[2].Reg? && o[3].Imm? && o[4].Reg? && o[5].Reg?
         && CmpOfIsd(o[3].v).Some?
      then Some(Choose(o[0].r, CmpOfIsd(o[3].v).value, o[1].r, o[2].r, o[4].r, o[5].r)) else None
    case PHI => None
    case DBG_VALUE => Some(DebugOnly)
  }

  function Denote(mi: MInstr): Option<Insn> {
    DenoteOperands(mi.opc, Explicit(mi.ops))
  }

  // isTerminator, isBranch and isBarrier as the instruction definitions set them.

  predicate IsBranch(mi: MInstr) {
    mi.opc.JMP? || mi.opc.J_rr? || mi.opc.J_ri?
  }

  predicate IsTerminator(mi: MInstr) {
    IsBranch(mi) || mi.opc.RET?
  }

  predicate IsBarrier(mi: MInstr) {
    mi.opc.JMP? || mi.opc.RET?
  }

  /** The blocks a branch names. */
  function BranchTargets(mi: MInstr): set<BlockId> {
    if IsBranch(mi) then set o | o in mi.ops && o.MBB? :: o.b else {}
  }

  lemma ExplicitConcat(a: seq<Operand>, b: seq<Operand>)
    ensures Explicit(a + b) == Explicit(a) + Explicit(b)
  {
    if a == [] {
      assert a + b == b;
    } else {
      assert (a + b)[1..] == a[1..] + b;
      ExplicitConcat(a[1..], b);
    }
  }

  lemma ExplicitMember(ops: seq<Operand>, o: Operand)
    ensures o in Explicit(ops) ==> o in ops
  {
    if ops != [] {
      ExplicitMember(ops[1..], o);
    }
  }

  /** An operand list without implicit operands is its own explicit list. */
  lemma ExplicitAll(ops: seq<Operand>)
    requires forall o :: o in ops ==> !IsImplicit(o)
    ensures Explicit(ops) == ops
  {
    if ops != [] {
      ExplicitAll(ops[1..]);
    }
  }
}
