/** From machine instructions to bytes: operand lowering, the bit layout of the instruction formats,
    emission, and the decoder that gives the bytes their meaning (RFC 9669, sections 3.1 and 3.2). */
module Encoding {
  import opened Words
  import opened Isa
  import opened Mir
  import Bits

  // ----- MC instructions -----

  datatype Symbol = Label(b: BlockId) | GlobalSym(sym: nat)

  datatype MCOperand = MCReg(r: Isa.Reg) | MCImm(v: int) | MCExpr(s: Symbol)

  datatype MCInst = MCInst(opc: Opcode, ops: seq<MCOperand>)

  datatype FixupKind = FK_PCRel_2 | FK_SecRel_4 | FK_SecRel_8

  datatype Fixup = Fixup(offset: nat, target: Symbol, kind: FixupKind)

  /** The lowering of an operand that is neither implicit, a call mask nor a frame index. */
  function LowerOperand(o: Operand): MCOperand
    requires !IsImplicit(o) && !o.FI?
  {
    match o
    case Reg(r, _) => MCReg(r)
    case Imm(v) => MCImm(v)
    case MBB(b) => MCExpr(Label(b))
    case Global(s) => MCExpr(GlobalSym(s))
  }

  predicate NoFrameIndex(ops: seq<Operand>) {
    forall i :: 0 <= i < |ops| ==> !ops[i].FI?
  }

  function LowerOperands(ops: seq<Operand>): (r: seq<MCOperand>)
    requires NoFrameIndex(ops)
  {
    if ops == [] then []
    else (if IsImplicit(ops[0]) then [] else [LowerOperand(ops[0])]) + LowerOperands(ops[1..])
  }

  function Lowered(mi: MInstr): MCInst
    requires NoFrameIndex(mi.ops)
  {
    MCInst(mi.opc, LowerOperands(mi.ops))
  }

  /** Skips implicit registers and call masks and appends the rest in order. */
  method Lower(mi: MInstr) returns (out: MCInst)
    requires NoFrameIndex(mi.ops)
    ensures out == Lowered(mi)
  {
    hide LowerOperands, LowerOperand, IsImplicit;
    var ops: seq<MCOperand> := [];
    for i := 0 to |mi.ops|
      invariant LowerOperands(mi.ops) == ops + LowerOperands(mi.ops[i..])
    {
      var mo := mi.ops[i];
      LowerStep(mi.ops, i);
      if mo.Reg? && mo.implicit {
        continue;
      }
      if mo.RegMask? {
        continue;
      }
      ops := ops + [LowerOperand(mo)];
    }
    LowerNothing(mi.ops);
    out := MCInst(mi.opc, ops);
  }

  lemma {:induction false} LowerStep(ops: seq<Operand>, i: nat)
    requires NoFrameIndex(ops) && i < |ops|
    ensures LowerOperands(ops[i..]) ==
            (if IsImplicit(ops[i]) then [] else [LowerOperand(ops[i])]) + LowerOperands(ops[i + 1..])
    ensures IsImplicit(ops[i]) <==> ops[i].RegMask? || (ops[i].Reg? && ops[i].implicit)
  {
    assert ops[i..][1..] == ops[i + 1..];
  }

  lemma {:induction false} LowerNothing(ops: seq<Operand>)
    ensures LowerOperands(ops[|ops|..]) == []
  {
  }

  /** Lowering sees exactly the explicit operands. */
  lemma {:induction false} LoweredExplicit(ops: seq<Operand>)
    requires NoFrameIndex(ops)
    ensures var x := Explicit(ops); var l := LowerOperands(ops);
            && |l| == |x|
            && (forall i :: 0 <= i < |x| ==> !IsImplicit(x[i]) && !x[i].FI? && l[i] == LowerOperand(x[i]))
  {
    if ops != [] {
      LoweredExplicit(ops[1..]);
    }
  }

  // ----- bit layout -----

  function AluBits(op: AluOp): nat {
    match op
    case ADD => 0x0
    case SUB => 0x1
    case MUL => 0x2
    case DIV => 0x3
    case OR => 0x4
    case AND => 0x5
    case SLL => 0x6
    case SRL => 0x7
    case XOR => 0xa
    case SRA => 0xc
  }

  function JumpBits(cc: Cmp): nat {
    match cc
    case EQ => 0x1
    case UGT => 0x2
    case UGE => 0x3
    case NE => 0x5
    case SGT => 0x6
    case SGE => 0x7
  }

  function SizeBits(sz: Size): nat {
    match sz
    case W => 0
    case H => 1
    case B => 2
    case DW => 3
  }

  /** Inst{63-60} = op, Inst{59} = src, Inst{58-56} = class. */
  function OpByte(op: nat, src: nat, cls: nat): Byte
    requires op < 16 && src < 2 && cls < 8
  {
    op * 16 + src * 8 + cls
  }

  /** Inst{63-61} = mode, Inst{60-59} = size, Inst{58-56} = class. */
  function MemByte(mode: nat, size: nat, cls: nat): Byte
    requires mode < 8 && size < 4 && cls < 8
  {
    mode * 32 + size * 8 + cls
  }

  /** The fields of an instruction word: Inst{63-56}, Inst{55-52} = src, Inst{51-48} = dst,
      Inst{47-32} = off, Inst{31-0} = imm. */
  datatype Fields = Fields(op: Byte, src: nat, dst: nat, off: nat, imm: nat)

  predicate FieldsFit(w: Fields) {
    w.src < 16 && w.dst < 16 && w.off < 0x1_0000 && w.imm < 0x1_0000_0000
  }

  /** The 64-bit word getBinaryCodeForInstr returns: the fields do not overlap, so their or is a sum. */
  function Word64(w: Fields): nat {
    w.op * 0x100_0000_0000_0000 + w.src * 0x10_0000_0000_0000 + w.dst * 0x1_0000_0000_0000
    + w.off * 0x1_0000_0000 + w.imm
  }

  /** getMachineOpValue: a register number, an immediate cut to 32 bits, or zero for a symbol. */
  function MachineOpValue(o: MCOperand): nat {
    match o
    case MCReg(r) => r
    case MCImm(v) => v % 0x1_0000_0000
    case MCExpr(_) => 0
  }

  /** getMemoryOpValue: operands 1 and 2, the base register above a 16-bit offset. */
  function MemoryOpValue(mc: MCInst): nat
    requires |mc.ops| >= 3 && mc.ops[1].MCReg? && mc.ops[2].MCImm?
  {
    mc.ops[1].r * 0x1_0000 + mc.ops[2].v % 0x1_0000
  }

  predicate PhysicalReg(o: MCOperand) {
    o.MCReg? && o.r <= 11
  }

  predicate IsBlockLabel(o: MCOperand) {
    o.MCExpr? && o.s.Label?
  }

  predicate IsGlobal(o: MCOperand) {
    o.MCExpr? && o.s.GlobalSym?
  }

  predicate IsMemory(o: seq<MCOperand>, i: nat) {
    i + 2 <= |o| && PhysicalReg(o[i]) && o[i + 1].MCImm?
  }

  /** The operands each format asks for, over physical registers. */
  predicate Encodable(mc: MCInst) {
    var o := mc.ops;
    match mc.opc
    case ALU_rr(_) => |o| == 3 && PhysicalReg(o[0]) && PhysicalReg(o[1]) && PhysicalReg(o[2])
    case ALU_ri(_) => |o| == 3 && PhysicalReg(o[0]) && PhysicalReg(o[1]) && o[2].MCImm?
    case MOV_rr => |o| == 2 && PhysicalReg(o[0]) && PhysicalReg(o[1])
    case MOV_ri => |o| == 2 && PhysicalReg(o[0]) && o[1].MCImm?
    case LD_imm64 => |o| == 2 && PhysicalReg(o[0]) && (o[1].MCImm? || IsGlobal(o[1]))
    case LD(_) => |o| == 3 && PhysicalReg(o[0]) && IsMemory(o, 1)
    case ST(_) => |o| == 3 && PhysicalReg(o[0]) && IsMemory(o, 1)
    case XADD(_) => |o| == 4 && PhysicalReg(o[0]) && IsMemory(o, 1) && PhysicalReg(o[3])
    case J_rr(_) => |o| == 3 && PhysicalReg(o[0]) && PhysicalReg(o[1]) && IsBlockLabel(o[2])
    case J_ri(_) => |o| == 3 && PhysicalReg(o[0]) && o[1].MCImm? && IsBlockLabel(o[2])
    case JMP => |o| == 1 && IsBlockLabel(o[0])
    case JAL => |o| == 1 && (o[0].MCImm? || IsGlobal(o[0]))
    case NOP => |o| == 1 && o[0].MCImm?
    case RET => |o| == 0
    case Select => false
    case PHI => false
    case DBG_VALUE => false
  }

  /** The fields of each format; a bit no format sets is zero. */
  function FieldsOf(mc: MCInst): (w: Fields)
    requires Encodable(mc)
    ensures FieldsFit(w)
  {
    var o := mc.ops;
    var v := (i: nat) requires i < |o| => MachineOpValue(o[i]);
    match mc.opc
    case ALU_rr(op) => Fields(OpByte(AluBits(op), 1, 7), v(2), v(0), 0, 0)
    case ALU_ri(op) => Fields(OpByte(AluBits(op), 0, 7), 0, v(0), 0, v(2))
    case MOV_rr => Fields(OpByte(0xb, 1, 7), v(1), v(0), 0, 0)
    case MOV_ri => Fields(OpByte(0xb, 0, 7), 0, v(0), 0, v(1))
    case LD_imm64 => Fields(MemByte(0, 3, 0), 0, v(0), 0, v(1))
    case LD(sz) =>
      var a := MemoryOpValue(mc);
      Fields(MemByte(3, SizeBits(sz), 1), a / 0x1_0000, v(0), a % 0x1_0000, 0)
    case ST(sz) =>
      var a := MemoryOpValue(mc);
      Fields(MemByte(3, SizeBits(sz), 3), v(0), a / 0x1_0000, a % 0x1_0000, 0)
    case XADD(sz) =>
      // field rX names no operand, so the first operand not used by name fills it: dst, which is tied to val
      var a := MemoryOpValue(mc);
      Fields(MemByte(6, SizeBits(sz), 3), v(0), a / 0x1_0000, a % 0x1_0000, 0)
    case J_rr(cc) => Fields(OpByte(JumpBits(cc), 1, 5), v(1), v(0), v(2), 0)
    case J_ri(cc) => Fields(OpByte(JumpBits(cc), 0, 5), 0, v(0), v(2), v(1))
    case JMP => Fields(OpByte(0x0, 0, 5), 0, 0, v(0), 0)
    case JAL => Fields(OpByte(0x8, 0, 5), 0, 0, 0, v(0))
    case NOP => Fields(OpByte(0xb, 1, 7), 0, 0, 0, 0)
    case RET => Fields(OpByte(0x9, 0, 5), 0, 0, 0, 0)
  }

  // ----- emission -----

  /** One slot: two bytes, a 16-bit and a 32-bit little-endian number. */
  function SlotBytes(top: nat, second: nat, mid: nat, low: nat): (s: seq<Byte>)
    ensures |s| == 8
  {
    [top % 0x100, second % 0x100] + LittleEndian(mid, 2) + LittleEndian(low, 4)
  }

  /** The eight bytes of an instruction word. */
  function Bytes(w: Fields): (s: seq<Byte>)
    requires FieldsFit(w)
    ensures |s| == 8
  {
    SlotBytes(w.op, w.src * 16 + w.dst, w.off, w.imm)
  }

  function HighHalf(mc: MCInst): nat
    requires Encodable(mc) && mc.opc.LD_imm64?
  {
    if mc.ops[1].MCImm? then Wrap64(mc.ops[1].v) / 0x1_0000_0000 else 0
  }

  /** The bytes of one instruction: eight, or sixteen for LD_imm64. */
  function Encoded(mc: MCInst): seq<Byte>
    requires Encodable(mc)
  {
    Bytes(FieldsOf(mc)) + (if mc.opc.LD_imm64? then Bytes(Fields(0, 0, 0, 0, HighHalf(mc))) else [])
  }

  /** The fixup a symbol operand leaves, at offset 0 of its instruction. */
  function FixupOf(opc: Opcode, s: Symbol): Fixup {
    Fixup(0, s, if opc.JAL? then FK_SecRel_4 else if opc.LD_imm64? then FK_SecRel_8 else FK_PCRel_2)
  }

  /** The operand that can be a symbol. */
  function SymbolPosition(opc: Opcode): nat {
    match opc
    case J_rr(_) => 2
    case J_ri(_) => 2
    case LD_imm64 => 1
    case _ => 0
  }

  function FixupsOf(mc: MCInst): seq<Fixup>
    requires Encodable(mc)
  {
    var i := SymbolPosition(mc.opc);
    if i < |mc.ops| && mc.ops[i].MCExpr? then [FixupOf(mc.opc, mc.ops[i].s)] else []
  }

  /** The four pieces the emitter shifts and masks out of a word. */
  predicate SplitsInto(v: nat, w: Fields) {
    && v / 0x100_0000_0000_0000 == w.op
    && (v / 0x1_0000_0000_0000) % 0x100 == w.src * 16 + w.dst
    && (v / 0x1_0000_0000) % 0x1_0000 == w.off
    && v % 0x1_0000_0000 == w.imm
  }

  /** They are the fields. */
  lemma {:induction false} WordSplits(w: Fields)
    requires FieldsFit(w)
    ensures Word64(w) < TWO_64 && SplitsInto(Word64(w), w)
  {
    var v := Word64(w);
    var regs := w.src * 16 + w.dst;
    var top16 := w.op * 0x100 + regs;
    var top32 := top16 * 0x1_0000 + w.off;
    assert v == top32 * 0x1_0000_0000 + w.imm;
    assert v / 0x1_0000_0000 == top32;
    assert v / 0x1_0000_0000_0000 == top16 by { assert v == top16 * 0x1_0000_0000_0000 + w.off * 0x1_0000_0000 + w.imm; }
    assert v / 0x100_0000_0000_0000 == w.op by {
      assert v == w.op * 0x100_0000_0000_0000 + regs * 0x1_0000_0000_0000 + w.off * 0x1_0000_0000 + w.imm;
    }
  }

  /** The word put together from its fields. */
  method PackWord(w: Fields) returns (value: nat)
    requires FieldsFit(w)
    ensures value < TWO_64 && SplitsInto(value, w)
  {
    WordSplits(w);
    value := Word64(w);
  }

  lemma {:induction false} ReverseAppend(s: seq<Byte>, x: Byte)
    ensures Reverse(s + [x]) == [x] + Reverse(s)
  {
    if s == [] {
      assert [x][1..] == [];
    } else {
      assert (s + [x])[1..] == s[1..] + [x];
      ReverseAppend(s[1..], x);
    }
  }

  /** Reversing puts byte i where byte |s| - 1 - i was. */
  lemma {:induction false} ReverseAt(s: seq<Byte>, i: nat)
    requires i < |s|
    ensures Reverse(s)[i] == s[|s| - 1 - i]
  {
    if i < |s| - 1 {
      ReverseAt(s[1..], i);
    }
  }

  /** One more byte, the most significant, at the end. */
  lemma {:induction false} LittleEndianSnoc(v: nat, n: nat)
    ensures LittleEndian(v, n + 1) == LittleEndian(v, n) + [(v / Pow256(n)) % 0x100]
  {
    if n > 0 {
      LittleEndianSnoc(v / 0x100, n - 1);
      DivTwice(v, Pow256(n - 1));
    }
  }

  lemma {:induction false} DivTwice(v: nat, p: nat)
    requires p > 0
    ensures v / (0x100 * p) == (v / 0x100) / p
  {
    var q, r := (v / 0x100) / p, (v / 0x100) % p;
    var low := r * 0x100 + v % 0x100;
    assert v / 0x100 == p * q + r;
    assert v == (0x100 * p) * q + low by { assert 0x100 * (p * q) == (0x100 * p) * q; }
    assert 0 <= low < 0x100 * p;
    Bits.DivModUnique(v, 0x100 * p, q, low);
  }

  /** The most significant byte comes first in the big-endian order. */
  lemma {:induction false} BigEndianStep(v: nat, n: nat)
    ensures Reverse(LittleEndian(v, n + 1)) == [(v / Pow256(n)) % 0x100] + Reverse(LittleEndian(v, n))
  {
    LittleEndianSnoc(v, n);
    ReverseAppend(LittleEndian(v, n), (v / Pow256(n)) % 0x100);
  }

  lemma NoBytes(v: nat)
    ensures Reverse(LittleEndian(v, 0)) == []
  {
  }

  /** The stream and the fixups of an instruction being encoded. */
  class CodeEmitter {
    var OS: seq<Byte>
    var Fixups: seq<Fixup>

    constructor ()
      ensures OS == [] && Fixups == []
    {
      OS, Fixups := [], [];
    }

    method EmitByte(c: nat, cur0: nat) returns (cur: nat)
      modifies this`OS
      ensures OS == old(OS) + [c % 0x100] && cur == cur0 + 1
    {
      OS := OS + [c % 0x100];
      cur := cur0 + 1;
    }

    /** Emits the Size low bytes of Val, least significant first. */
    method EmitLEConstant(val: nat, size: nat, cur0: nat) returns (cur: nat)
      requires size <= 8
      modifies this`OS
      ensures OS == old(OS) + LittleEndian(val, size) && cur == cur0 + size
    {
      cur := cur0;
      var v := val;
      for i := 0 to size
        invariant cur == cur0 + i
        invariant OS + LittleEndian(v, size - i) == old(OS) + LittleEndian(val, size)
      {
        cur := EmitByte(v % 0x100, cur);
        v := v / 0x100;
      }
    }

    /** Emits the Size low bytes of Val, most significant first. */
    method EmitBEConstant(val: nat, size: nat, cur0: nat) returns (cur: nat)
      requires size <= 8
      modifies this`OS
      ensures OS == old(OS) + Reverse(LittleEndian(val, size)) && cur == cur0 + size
    {
      hide Pow256, LittleEndian, Reverse;
      cur := cur0;
      ghost var start := OS;
      var i: int := size - 1;
      while i >= 0
        invariant -1 <= i < size && cur == cur0 + size - 1 - i
        invariant OS + Reverse(LittleEndian(val, i + 1)) == start + Reverse(LittleEndian(val, size))
      {
        BigEndianStep(val, i);
        cur := EmitByte((val / Pow256(i)) % 0x100, cur);
        i := i - 1;
      }
      NoBytes(val);
    }

    /** A symbol operand records a fixup and contributes zero. */
    method GetMachineOpValue(mc: MCInst, mo: MCOperand) returns (v: nat)
      modifies this`Fixups
      ensures v == MachineOpValue(mo)
      ensures Fixups == old(Fixups) + (if mo.MCExpr? then [FixupOf(mc.opc, mo.s)] else [])
    {
      if mo.MCReg? {
        return mo.r;
      }
      if mo.MCImm? {
        return mo.v % 0x1_0000_0000;
      }
      if mc.opc.JAL? {
        Fixups := Fixups + [Fixup(0, mo.s, FK_SecRel_4)];
      } else if mc.opc.LD_imm64? {
        Fixups := Fixups + [Fixup(0, mo.s, FK_SecRel_8)];
      } else {
        Fixups := Fixups + [Fixup(0, mo.s, FK_PCRel_2)];
      }
      v := 0;
    }

    /** The base register above the offset's low 16 bits. */
    method GetMemoryOpValue(mc: MCInst) returns (encoding: nat)
      requires |mc.ops| >= 3 && mc.ops[1].MCReg? && mc.ops[2].MCImm?
      ensures encoding == MemoryOpValue(mc)
    {
      encoding := mc.ops[1].r;
      encoding := encoding * 0x1_0000;
      encoding := encoding + mc.ops[2].v % 0x1_0000;
    }

    method GetAluFields(mc: MCInst) returns (w: Fields)
      requires Encodable(mc)
      requires mc.opc.ALU_rr? || mc.opc.ALU_ri? || mc.opc.MOV_rr? || mc.opc.MOV_ri? || mc.opc.NOP?
      modifies this`Fixups
      ensures w == FieldsOf(mc) && Fixups == old(Fixups) + FixupsOf(mc)
    {
      if mc.opc.NOP? {
        return Fields(OpByte(0xb, 1, 7), 0, 0, 0, 0);
      }
      var op := if mc.opc.ALU_rr? || mc.opc.ALU_ri? then AluBits(mc.opc.op) else 0xb;
      var rA := GetMachineOpValue(mc, mc.ops[0]);
      var last := GetMachineOpValue(mc, mc.ops[|mc.ops| - 1]);
      if mc.opc.ALU_rr? || mc.opc.MOV_rr? {
        w := Fields(OpByte(op, 1, 7), last, rA, 0, 0);
      } else {
        w := Fields(OpByte(op, 0, 7), 0, rA, 0, last);
      }
    }

    method GetJumpFields(mc: MCInst) returns (w: Fields)
      requires Encodable(mc)
      requires mc.opc.J_rr? || mc.opc.J_ri? || mc.opc.JMP? || mc.opc.JAL? || mc.opc.RET?
      modifies this`Fixups
      ensures w == FieldsOf(mc) && Fixups == old(Fixups) + FixupsOf(mc)
    {
      if mc.opc.RET? {
        return Fields(OpByte(0x9, 0, 5), 0, 0, 0, 0);
      }
      var first := GetMachineOpValue(mc, mc.ops[0]);
      if mc.opc.JMP? {
        w := Fields(OpByte(0x0, 0, 5), 0, 0, first, 0);
      } else if mc.opc.JAL? {
        w := Fields(OpByte(0x8, 0, 5), 0, 0, 0, first);
      } else {
        var second := GetMachineOpValue(mc, mc.ops[1]);
        var dst := GetMachineOpValue(mc, mc.ops[2]);
        w := if mc.opc.J_rr? then Fields(OpByte(JumpBits(mc.opc.cc), 1, 5), second, first, dst, 0)
             else Fields(OpByte(JumpBits(mc.opc.cc), 0, 5), 0, first, dst, second);
      }
    }

    method GetMemoryFields(mc: MCInst) returns (w: Fields)
      requires Encodable(mc)
      requires mc.opc.LD_imm64? || mc.opc.LD? || mc.opc.ST? || mc.opc.XADD?
      modifies this`Fixups
      ensures w == FieldsOf(mc) && Fixups == old(Fixups) + FixupsOf(mc)
    {
      var first := GetMachineOpValue(mc, mc.ops[0]);
      if mc.opc.LD_imm64? {
        var imm := GetMachineOpValue(mc, mc.ops[1]);
        return Fields(MemByte(0, 3, 0), 0, first, 0, imm);
      }
      var addr := GetMemoryOpValue(mc);
      if mc.opc.LD? {
        w := Fields(MemByte(3, SizeBits(mc.opc.sz), 1), addr / 0x1_0000, first, addr % 0x1_0000, 0);
      } else {
        w := Fields(MemByte(if mc.opc.ST? then 3 else 6, SizeBits(mc.opc.sz), 3), first, addr / 0x1_0000,
                    addr % 0x1_0000, 0);
      }
    }

    /** The generated encoder: every operand asked for its value and put into its field, and the fixup of a
        symbol operand. */
    method GetBinaryCodeForInstr(mc: MCInst) returns (value: nat)
      requires Encodable(mc)
      modifies this`Fixups
      ensures value < TWO_64 && SplitsInto(value, FieldsOf(mc))
      ensures Fixups == old(Fixups) + FixupsOf(mc)
    {
      hide FieldsOf, SplitsInto, FixupsOf;
      var w: Fields;
      if mc.opc.LD_imm64? || mc.opc.LD? || mc.opc.ST? || mc.opc.XADD? {
        w := GetMemoryFields(mc);
      } else if mc.opc.J_rr? || mc.opc.J_ri? || mc.opc.JMP? || mc.opc.JAL? || mc.opc.RET? {
        w := GetJumpFields(mc);
      } else {
        w := GetAluFields(mc);
      }
      value := PackWord(w);
    }

    /** The eight bytes of an instruction word whose 16-bit field holds `mid`. */
    method EmitSlot(top: nat, second: nat, mid: nat, low: nat, cur0: nat) returns (cur: nat)
      modifies this`OS
      ensures OS == old(OS) + SlotBytes(top, second, mid, low)
      ensures cur == cur0 + 8
    {
      cur := EmitByte(top, cur0);
      cur := EmitByte(second, cur);
      cur := EmitLEConstant(mid, 2, cur);
      cur := EmitLEConstant(low, 4, cur);
    }

    /** Takes the word apart and emits it. */
    method EmitWord(value: nat, ghost w: Fields, cur0: nat) returns (cur: nat)
      requires FieldsFit(w) && SplitsInto(value, w)
      modifies this`OS
      ensures OS == old(OS) + Bytes(w) && cur == cur0 + 8
    {
      cur := EmitSlot(value / 0x100_0000_0000_0000, (value / 0x1_0000_0000_0000) % 0x100,
                      (value / 0x1_0000_0000) % 0x1_0000, value % 0x1_0000_0000, cur0);
    }

    /** The second slot of LD_imm64, with the upper half of the immediate. */
    method EmitUpperHalf(mc: MCInst, cur0: nat) returns (cur: nat)
      requires Encodable(mc) && mc.opc.LD_imm64?
      modifies this`OS
      ensures OS == old(OS) + Bytes(Fields(0, 0, 0, 0, HighHalf(mc))) && cur == cur0 + 8
    {
      var mo := mc.ops[1];
      var imm := if mo.MCImm? then Wrap64(mo.v) else 0;
      cur := EmitSlot(0, 0, 0, imm / 0x1_0000_0000, cur0);
    }

    /** The first slot of LD_imm64; its 16-bit field is written as zero. */
    method EmitLowerHalf(value: nat, ghost w: Fields, cur0: nat) returns (cur: nat)
      requires FieldsFit(w) && SplitsInto(value, w) && w.off == 0
      modifies this`OS
      ensures OS == old(OS) + Bytes(w) && cur == cur0 + 8
    {
      cur := EmitSlot(value / 0x100_0000_0000_0000, (value / 0x1_0000_0000_0000) % 0x100, 0, value % 0x1_0000_0000, cur0);
    }

    /** LD_imm64 takes a second slot. */
    method EncodeInstruction(mc: MCInst)
      requires Encodable(mc)
      modifies this
      ensures OS == old(OS) + Encoded(mc) && Fixups == old(Fixups) + FixupsOf(mc)
    {
      hide FieldsOf, Encodable, Bytes, HighHalf, SplitsInto, FixupsOf;
      var cur := 0;
      if mc.opc.LD_imm64? {
        var value := GetBinaryCodeForInstr(mc);
        WideOffIsZero(mc);
        cur := EmitLowerHalf(value, FieldsOf(mc), cur);
        cur := EmitUpperHalf(mc, cur);
      } else {
        var value := GetBinaryCodeForInstr(mc);
        cur := EmitWord(value, FieldsOf(mc), cur);
      }
    }
  }

  lemma WideOffIsZero(mc: MCInst)
    requires Encodable(mc) && mc.opc.LD_imm64?
    ensures FieldsOf(mc).off == 0
  {
  }

  /** What a little-endian constant is worth: the value modulo 256^size. */
  lemma {:induction false} LittleEndianValue(v: nat, n: nat)
    ensures FromLittleEndian(LittleEndian(v, n)) == v % Pow256(n)
  {
    if n > 0 {
      var s := LittleEndian(v, n);
      assert s[1..] == LittleEndian(v / 0x100, n - 1);
      LittleEndianValue(v / 0x100, n - 1);
      var p := Pow256(n - 1);
      var q, r := (v / 0x100) / p, (v / 0x100) % p;
      assert v / 0x100 == p * q + r;
      assert v == (0x100 * p) * q + (0x100 * r + v % 0x100) by { assert 0x100 * (p * q) == (0x100 * p) * q; }
      Bits.DivModUnique(v, 0x100 * p, q, 0x100 * r + v % 0x100);
    }
  }
}
