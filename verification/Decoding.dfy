/** The meaning of instruction bytes, and the round trip through the encoder.  The decoder follows RFC 9669,
    sections 3.1, 3.2, 4.3, 5.1 and 5.4, and refuses reserved fields that are not zero; the class, source and
    operation codes are those of BPFInstrInfo.td. */
module Decoding {
  import opened Words
  import opened Isa
  import opened Mir
  import opened Encoding
  import Bits

  /** An instruction and the number of slots it takes. */
  datatype Decoded = Decoded(i: Insn, slots: nat)

  function AluOf(k: nat): Option<AluOp> {
    match k
    case 0x0 => Some(ADD)
    case 0x1 => Some(SUB)
    case 0x2 => Some(MUL)
    case 0x3 => Some(DIV)
    case 0x4 => Some(OR)
    case 0x5 => Some(AND)
    case 0x6 => Some(SLL)
    case 0x7 => Some(SRL)
    case 0xa => Some(XOR)
    case 0xc => Some(SRA)
    case _ => None
  }

  function CmpOf(k: nat): Option<Cmp> {
    match k
    case 0x1 => Some(EQ)
    case 0x2 => Some(UGT)
    case 0x3 => Some(UGE)
    case 0x5 => Some(NE)
    case 0x6 => Some(SGT)
    case 0x7 => Some(SGE)
    case _ => None
  }

  function SizeOf(k: nat): Size {
    if k == 0 then W else if k == 1 then H else if k == 2 then B else DW
  }

  /** Class 7: 64-bit arithmetic and moves. */
  function DecodeAlu(w: Fields): Option<Insn> {
    var k, fromReg := w.op / 16, (w.op / 8) % 2 == 1;
    var x := if fromReg then InReg(w.src) else Const(Low32Signed(w.imm));
    if w.off != 0 || (if fromReg then w.imm != 0 else w.src != 0) then None
    else if k == 0xb then Some(Move(w.dst, x))
    else if AluOf(k).Some? then Some(Arith(AluOf(k).value, w.dst, w.dst, x))
    else None
  }

  /** Class 5: jumps, calls and exit. */
  function DecodeJump(w: Fields): Option<Insn> {
    var k, fromReg := w.op / 16, (w.op / 8) % 2 == 1;
    if k == 0x0 then
      if !fromReg && w.dst == 0 && w.src == 0 && w.imm == 0 then Some(Branch(Low16Signed(w.off))) else None
    else if k == 0x8 then
      if !fromReg && w.dst == 0 && w.src == 0 && w.off == 0 then Some(Call(Helper(Low32Signed(w.imm)))) else None
    else if k == 0x9 then
      if !fromReg && w.dst == 0 && w.src == 0 && w.off == 0 && w.imm == 0 then Some(Leave) else None
    else if CmpOf(k).None? || (if fromReg then w.imm != 0 else w.src != 0) then None
    else
      Some(BranchIf(CmpOf(k).value, w.dst, if fromReg then InReg(w.src) else Const(Low32Signed(w.imm)),
                    Low16Signed(w.off)))
  }

  /** Classes 1 and 3: loads, stores and atomic adds. */
  function DecodeMemory(w: Fields): Option<Insn> {
    var mode, sz, cls := w.op / 32, SizeOf((w.op / 8) % 4), w.op % 8;
    var off := Low16Signed(w.off);
    if w.imm != 0 then None
    else if cls == 1 && mode == 3 then Some(LoadMem(sz, w.dst, RegBase(w.src), off))
    else if cls == 3 && mode == 3 then Some(StoreMem(sz, w.src, RegBase(w.dst), off))
    else if cls == 3 && mode == 6 then Some(AtomicAdd(sz, w.src, RegBase(w.dst), off, w.src))
    else None
  }

  /** An instruction of one slot. */
  function DecodeFields(w: Fields): Option<Insn> {
    var cls := w.op % 8;
    if w.src > 11 || w.dst > 11 then None
    else if cls == 7 then DecodeAlu(w)
    else if cls == 5 then DecodeJump(w)
    else if cls == 1 || cls == 3 then DecodeMemory(w)
    else None
  }

  /** The fields of the slot that begins the bytes. */
  function Slot(b: seq<Byte>): Fields
    requires |b| >= 8
  {
    Fields(b[0], b[1] / 16, b[1] % 16, FromLittleEndian(b[2..4]), FromLittleEndian(b[4..8]))
  }

  const LD_IMM64_OP: Byte := 0x18

  /** The instruction that begins the bytes.  Opcode 0x18 takes two slots; the second holds only the upper
      half of the immediate. */
  function Decode(b: seq<Byte>): Option<Decoded> {
    if |b| < 8 then None
    else
      var w := Slot(b);
      if w.op == LD_IMM64_OP then
        if |b| < 16 then None
        else
          var u := Slot(b[8..]);
          if w.src == 0 && w.dst <= 11 && w.off == 0 && u == Fields(0, 0, 0, 0, u.imm)
          then Some(Decoded(Wide(w.dst, Wrap64(w.imm + u.imm * 0x1_0000_0000)), 2))
          else None
      else
        var i := DecodeFields(w);
        if i.Some? then Some(Decoded(i.value, 1)) else None
  }

  // ----- bytes back to fields -----

  lemma {:induction false} SlotOfBytes(w: Fields, rest: seq<Byte>)
    requires FieldsFit(w)
    ensures Slot(Bytes(w) + rest) == w
  {
    var b := Bytes(w) + rest;
    assert b[2..4] == LittleEndian(w.off, 2);
    assert b[4..8] == LittleEndian(w.imm, 4);
    LittleEndianValue(w.off, 2);
    LittleEndianValue(w.imm, 4);
    assert Pow256(2) == 0x1_0000 && Pow256(4) == 0x1_0000_0000 by { assert Pow256(3) == 0x100_0000; }
  }

  // ----- which instructions survive the encoding -----

  predicate SrcInRange(x: Src) {
    x.Const? ==> FitsInt32(x.v)
  }

  /** What the formats can express: 16-bit offsets and displacements, 32-bit immediates, a destination that
      is also the first source, an atomic add whose result register is its addend; no symbol. */
  predicate InRange(i: Insn) {
    match i
    case Arith(_, d, s, x) => d == s && SrcInRange(x)
    case Move(_, x) => SrcInRange(x)
    case Wide(_, _) => true
    case LoadMem(_, _, b, off) => b.RegBase? && FitsInt16(off)
    case StoreMem(_, _, b, off) => b.RegBase? && FitsInt16(off)
    case AtomicAdd(_, d, b, off, v) => b.RegBase? && FitsInt16(off) && d == v
    case BranchIf(_, _, x, t) => SrcInRange(x) && FitsInt16(t)
    case Branch(t) => FitsInt16(t)
    case Call(c) => c.Helper? && FitsInt32(c.id)
    case Leave => true
    case _ => false
  }

  /** The instruction with its label replaced by a slot displacement. */
  function Placed(i: Insn, disp: int): Insn {
    match i
    case BranchIf(cc, a, x, _) => BranchIf(cc, a, x, disp)
    case Branch(_) => Branch(disp)
    case _ => i
  }

  function StoredSrc(x: Src): Src {
    match x
    case InReg(_) => x
    case Const(v) => Const(Low32Signed(v))
  }

  /** What the fields of an instruction keep of it: 32 bits of an immediate, 16 of an offset or displacement, the
      destination where the first source is not it, and zero for a symbol. */
  function Stored(i: Insn): Insn {
    match i
    case Arith(op, d, _, x) => Arith(op, d, d, StoredSrc(x))
    case Move(d, x) => Move(d, StoredSrc(x))
    case WideSym(d, _) => Wide(d, 0)
    case LoadMem(sz, d, b, off) => LoadMem(sz, d, b, Low16Signed(off))
    case StoreMem(sz, v, b, off) => StoreMem(sz, v, b, Low16Signed(off))
    case AtomicAdd(sz, d, b, off, _) => AtomicAdd(sz, d, b, Low16Signed(off), d)
    case BranchIf(cc, a, x, t) => BranchIf(cc, a, StoredSrc(x), Low16Signed(t))
    case Branch(t) => Branch(Low16Signed(t))
    case Call(Helper(id)) => Call(Helper(Low32Signed(id)))
    case Call(External(_)) => Call(Helper(0))
    case _ => i
  }

  predicate HasLabel(opc: Opcode) {
    opc.J_rr? || opc.J_ri? || opc.JMP?
  }

  /** The fields after the fixup: a branch gets its displacement, everything else stays. */
  function PatchedFields(mc: MCInst, disp: int): (w: Fields)
    requires Encodable(mc)
    ensures FieldsFit(w)
  {
    if HasLabel(mc.opc) then FieldsOf(mc).(off := disp % 0x1_0000) else FieldsOf(mc)
  }

  function PatchedBytes(mc: MCInst, disp: int): seq<Byte>
    requires Encodable(mc)
  {
    Bytes(PatchedFields(mc, disp)) + (if mc.opc.LD_imm64? then Bytes(Fields(0, 0, 0, 0, HighHalf(mc))) else [])
  }

  /** What an MC instruction means, its label as target. */
  function Meaning(mc: MCInst): Insn
    requires Encodable(mc)
  {
    var o := mc.ops;
    match mc.opc
    case ALU_rr(op) => Arith(op, o[0].r, o[1].r, InReg(o[2].r))
    case ALU_ri(op) => Arith(op, o[0].r, o[1].r, Const(o[2].v))
    case MOV_rr => Move(o[0].r, InReg(o[1].r))
    case MOV_ri => Move(o[0].r, Const(o[1].v))
    case LD_imm64 => if o[1].MCImm? then Wide(o[0].r, Wrap64(o[1].v)) else WideSym(o[0].r, o[1].s.sym)
    case LD(sz) => LoadMem(sz, o[0].r, RegBase(o[1].r), o[2].v)
    case ST(sz) => StoreMem(sz, o[0].r, RegBase(o[1].r), o[2].v)
    case XADD(sz) => AtomicAdd(sz, o[0].r, RegBase(o[1].r), o[2].v, o[3].r)
    case J_rr(cc) => BranchIf(cc, o[0].r, InReg(o[1].r), o[2].s.b)
    case J_ri(cc) => BranchIf(cc, o[0].r, Const(o[1].v), o[2].s.b)
    case JMP => Branch(o[0].s.b)
    case JAL => Call(if o[0].MCImm? then Helper(o[0].v) else External(o[0].s.sym))
    case NOP => Move(0, InReg(0))
    case RET => Leave
  }

  lemma {:induction false} Low16Exact(v: int)
    ensures Low16Signed(v % 0x1_0000) == v <==> FitsInt16(v)
  {
  }

  lemma {:induction false} Low32Exact(v: int)
    ensures Low32Signed(v % 0x1_0000_0000) == v <==> FitsInt32(v)
  {
  }

  lemma {:induction false} LowTwice(v: int)
    ensures Low16Signed(v % 0x1_0000) == Low16Signed(v) && Low32Signed(v % 0x1_0000_0000) == Low32Signed(v)
  {
  }

  lemma {:induction false} OpByteParts(k: nat, src: nat, cls: nat)
    requires k < 16 && src < 2 && cls < 8
    ensures var b := OpByte(k, src, cls); b / 16 == k && (b / 8) % 2 == src && b % 8 == cls
  {
    var b := OpByte(k, src, cls);
    Bits.DivModUnique(b, 16, k, src * 8 + cls);
    Bits.DivModUnique(b, 8, k * 2 + src, cls);
    Bits.DivModUnique(k * 2 + src, 2, k, src);
  }

  lemma {:induction false} MemByteParts(mode: nat, size: nat, cls: nat)
    requires mode < 8 && size < 4 && cls < 8
    ensures var b := MemByte(mode, size, cls); b / 32 == mode && (b / 8) % 4 == size && b % 8 == cls
  {
    var b := MemByte(mode, size, cls);
    Bits.DivModUnique(b, 32, mode, size * 8 + cls);
    Bits.DivModUnique(b, 8, mode * 4 + size, cls);
    Bits.DivModUnique(mode * 4 + size, 4, mode, size);
  }

  lemma {:induction false} CodesInvert(op: AluOp, cc: Cmp, sz: Size)
    ensures AluOf(AluBits(op)) == Some(op) && AluBits(op) != 0xb
    ensures CmpOf(JumpBits(cc)) == Some(cc)
    ensures SizeOf(SizeBits(sz)) == sz
  {
  }

  lemma {:induction false} AluRoundTrip(mc: MCInst, disp: int)
    requires Encodable(mc)
    requires mc.opc.ALU_rr? || mc.opc.ALU_ri? || mc.opc.MOV_rr? || mc.opc.MOV_ri? || mc.opc.NOP?
    ensures DecodeFields(PatchedFields(mc, disp)) == Some(Stored(Placed(Meaning(mc), disp)))
  {
    var k := if mc.opc.ALU_rr? || mc.opc.ALU_ri? then AluBits(mc.opc.op) else 0xb;
    OpByteParts(k, if mc.opc.ALU_ri? || mc.opc.MOV_ri? then 0 else 1, 7);
    if mc.opc.ALU_rr? || mc.opc.ALU_ri? {
      CodesInvert(mc.opc.op, EQ, W);
    }
    if mc.opc.ALU_ri? {
      LowTwice(mc.ops[2].v);
    } else if mc.opc.MOV_ri? {
      LowTwice(mc.ops[1].v);
    }
  }

  lemma {:induction false} MemoryRoundTrip(mc: MCInst, disp: int)
    requires Encodable(mc) && (mc.opc.LD? || mc.opc.ST? || mc.opc.XADD?)
    ensures DecodeFields(PatchedFields(mc, disp)) == Some(Stored(Placed(Meaning(mc), disp)))
  {
    MemByteParts(if mc.opc.XADD? then 6 else 3, SizeBits(mc.opc.sz), if mc.opc.LD? then 1 else 3);
    CodesInvert(ADD, EQ, mc.opc.sz);
    LowTwice(mc.ops[2].v);
    var a := MemoryOpValue(mc);
    assert a / 0x1_0000 == mc.ops[1].r && a % 0x1_0000 == mc.ops[2].v % 0x1_0000;
  }

  lemma {:induction false} JumpRoundTrip(mc: MCInst, disp: int)
    requires Encodable(mc) && (HasLabel(mc.opc) || mc.opc.JAL? || mc.opc.RET?)
    ensures DecodeFields(PatchedFields(mc, disp)) == Some(Stored(Placed(Meaning(mc), disp)))
  {
    var k := if mc.opc.J_rr? || mc.opc.J_ri? then JumpBits(mc.opc.cc)
             else if mc.opc.JMP? then 0x0 else if mc.opc.JAL? then 0x8 else 0x9;
    OpByteParts(k, if mc.opc.J_rr? then 1 else 0, 5);
    if mc.opc.J_rr? || mc.opc.J_ri? {
      CodesInvert(ADD, mc.opc.cc, W);
    }
    LowTwice(disp);
    if mc.opc.J_ri? {
      LowTwice(mc.ops[1].v);
    } else if mc.opc.JAL? && mc.ops[0].MCImm? {
      LowTwice(mc.ops[0].v);
    }
  }

  function SlotsOf(opc: Opcode): nat {
    if opc.LD_imm64? then 2 else 1
  }

  /** Both slots of LD_imm64 give back the whole 64-bit immediate. */
  lemma {:induction false} WideRoundTrip(mc: MCInst, disp: int, rest: seq<Byte>)
    requires Encodable(mc) && mc.opc.LD_imm64?
    ensures var d := Decode(PatchedBytes(mc, disp) + rest);
            && d == Some(Decoded(Stored(Meaning(mc)), 2))
            && (mc.ops[1].MCImm? ==> d.value.i == Meaning(mc))
  {
    var w, u := PatchedFields(mc, disp), Fields(0, 0, 0, 0, HighHalf(mc));
    var b := PatchedBytes(mc, disp) + rest;
    assert b == Bytes(w) + (Bytes(u) + rest);
    assert b[8..] == Bytes(u) + rest;
    SlotOfBytes(w, Bytes(u) + rest);
    SlotOfBytes(u, rest);
    assert w.op == LD_IMM64_OP;
    if mc.ops[1].MCImm? {
      HalvesOfImmediate(mc.ops[1].v);
    }
  }

  lemma {:induction false} HalvesOfImmediate(v: int)
    ensures v % 0x1_0000_0000 + (Wrap64(v) / 0x1_0000_0000) * 0x1_0000_0000 == Wrap64(v)
  {
    assert Wrap64(v) % 0x1_0000_0000 == v % 0x1_0000_0000;
  }

  /** No one-slot instruction begins with the opcode of LD_imm64. */
  lemma {:induction false} OneSlotOpcode(mc: MCInst)
    requires Encodable(mc) && !mc.opc.LD_imm64?
    ensures FieldsOf(mc).op != LD_IMM64_OP
  {
    var w := FieldsOf(mc);
    if mc.opc.LD? || mc.opc.ST? || mc.opc.XADD? {
      MemByteParts(if mc.opc.XADD? then 6 else 3, SizeBits(mc.opc.sz), if mc.opc.LD? then 1 else 3);
    } else {
      assert w.op % 8 == 7 || w.op % 8 == 5;
    }
    assert LD_IMM64_OP % 8 == 0;
  }

  /** Nothing is lost exactly when the instruction is in range. */
  lemma {:induction false} StoredExact(mc: MCInst, disp: int)
    requires Encodable(mc)
    ensures var i := Placed(Meaning(mc), disp); Stored(i) == i <==> InRange(i)
  {
  }

  /** The patched bytes of any encodable instruction decode, whatever follows them, to what its fields keep of
      the instruction with its displacement: to that instruction itself exactly when it is in range. */
  lemma {:induction false} RoundTrip(mc: MCInst, disp: int, rest: seq<Byte>)
    requires Encodable(mc)
    ensures var d := Decode(PatchedBytes(mc, disp) + rest); var i := Placed(Meaning(mc), disp);
            && d == Some(Decoded(Stored(i), SlotsOf(mc.opc))) && |PatchedBytes(mc, disp)| == 8 * SlotsOf(mc.opc)
            && (d.value.i == i <==> InRange(i))
  {
    StoredExact(mc, disp);
    if mc.opc.LD_imm64? {
      WideRoundTrip(mc, disp, rest);
    } else {
      var w := PatchedFields(mc, disp);
      assert PatchedBytes(mc, disp) == Bytes(w);
      SlotOfBytes(w, rest);
      OneSlotOpcode(mc);
      if mc.opc.LD? || mc.opc.ST? || mc.opc.XADD? {
        MemoryRoundTrip(mc, disp);
      } else if HasLabel(mc.opc) || mc.opc.JAL? || mc.opc.RET? {
        JumpRoundTrip(mc, disp);
      } else {
        AluRoundTrip(mc, disp);
      }
    }
  }

  lemma {:induction false} LabelFieldZero(mc: MCInst)
    requires Encodable(mc)
    ensures Encoded(mc) == PatchedBytes(mc, 0)
  {
    assert HasLabel(mc.opc) ==> FieldsOf(mc).off == 0;
  }

  /** As emitted, before any fixup, an instruction decodes with zero for its label or symbol. */
  lemma {:induction false} EmittedDecodes(mc: MCInst, rest: seq<Byte>)
    requires Encodable(mc)
    ensures Decode(Encoded(mc) + rest) == Some(Decoded(Stored(Placed(Meaning(mc), 0)), SlotsOf(mc.opc)))
  {
    LabelFieldZero(mc);
    RoundTrip(mc, 0, rest);
  }

  /** Instructions that share their bytes mean the same. */
  lemma {:induction false} SameBytesSameMeaning(a: MCInst, b: MCInst, da: int, db: int)
    requires Encodable(a) && Encodable(b)
    requires InRange(Placed(Meaning(a), da)) && InRange(Placed(Meaning(b), db))
    requires PatchedBytes(a, da) == PatchedBytes(b, db)
    ensures Placed(Meaning(a), da) == Placed(Meaning(b), db)
  {
    hide Encodable, Meaning, InRange, PatchedBytes, Decode;
    RoundTrip(a, da, []);
    RoundTrip(b, db, []);
  }

  /** An instruction with its label, if it has one, put at a displacement. */
  function Relabelled(mc: MCInst, disp: int): MCInst {
    MCInst(mc.opc, seq(|mc.ops|, i requires 0 <= i < |mc.ops| =>
                         if mc.ops[i].MCExpr? && mc.ops[i].s.Label? then MCExpr(Label(disp)) else mc.ops[i]))
  }

  /** NOP has the bytes of mov r0, r0; its operand is not encoded.  A 64-bit immediate is an int64_t. */
  predicate OneReading(mc: MCInst) {
    !mc.opc.NOP? && forall i :: 0 <= i < |mc.ops| && mc.ops[i].MCImm? ==> FitsInt64(mc.ops[i].v)
  }

  /** Only one instruction has a given meaning. */
  lemma {:induction false} MeaningIsOne(a: MCInst, b: MCInst, da: int, db: int)
    requires Encodable(a) && Encodable(b) && OneReading(a) && OneReading(b)
    requires Placed(Meaning(a), da) == Placed(Meaning(b), db)
    ensures a.opc == b.opc && |a.ops| == |b.ops|
    ensures Relabelled(a, da).ops == Relabelled(b, db).ops
  {
    var x, y := Relabelled(a, da).ops, Relabelled(b, db).ops;
    if a.opc.LD_imm64? {
      assert a.ops[1].MCImm? ==> Wrap64(a.ops[1].v) == Wrap64(b.ops[1].v);
    }
    forall i | 0 <= i < |x| ensures x[i] == y[i] {
    }
  }

  /** NOP does share its bytes. */
  lemma {:induction false} NopIsMove(v: int)
    ensures var nop, mov := MCInst(NOP, [MCImm(v)]), MCInst(MOV_rr, [MCReg(0), MCReg(0)]);
            Encodable(nop) && Encodable(mov) && Encoded(nop) == Encoded(mov)
  {
    var nop, mov := MCInst(NOP, [MCImm(v)]), MCInst(MOV_rr, [MCReg(0), MCReg(0)]);
    assert FieldsOf(nop) == FieldsOf(mov);
  }

  /** Different instructions, NOP aside, never share their bytes. */
  lemma {:induction false} SameBytesSameInstruction(a: MCInst, b: MCInst, da: int, db: int)
    requires Encodable(a) && Encodable(b) && OneReading(a) && OneReading(b)
    requires InRange(Placed(Meaning(a), da)) && InRange(Placed(Meaning(b), db))
    requires PatchedBytes(a, da) == PatchedBytes(b, db)
    ensures Relabelled(a, da) == Relabelled(b, db)
  {
    hide Encodable, Meaning, InRange, PatchedBytes;
    SameBytesSameMeaning(a, b, da, db);
    MeaningIsOne(a, b, da, db);
  }

  // ----- against the published tables -----

  /** The opcode bytes of RFC 9669, section 3 and its opcode table. */
  lemma {:induction false} OpcodeTable(mc: MCInst)
    requires Encodable(mc)
    ensures var b: int := FieldsOf(mc).op;
            match mc.opc
            case ALU_ri(op) =>
              b == (match op case ADD => 0x07 case SUB => 0x17 case MUL => 0x27 case DIV => 0x37 case OR => 0x47
                             case AND => 0x57 case SLL => 0x67 case SRL => 0x77 case XOR => 0xa7 case SRA => 0xc7)
            case ALU_rr(op) =>
              b == (match op case ADD => 0x0f case SUB => 0x1f case MUL => 0x2f case DIV => 0x3f case OR => 0x4f
                             case AND => 0x5f case SLL => 0x6f case SRL => 0x7f case XOR => 0xaf case SRA => 0xcf)
            case MOV_ri => b == 0xb7
            case MOV_rr => b == 0xbf
            case NOP => b == 0xbf
            case LD_imm64 => b == 0x18
            case LD(sz) => b == (match sz case W => 0x61 case H => 0x69 case B => 0x71 case DW => 0x79)
            case ST(sz) => b == (match sz case W => 0x63 case H => 0x6b case B => 0x73 case DW => 0x7b)
            case XADD(sz) => b == (match sz case W => 0xc3 case H => 0xcb case B => 0xd3 case DW => 0xdb)
            case J_ri(cc) =>
              b == (match cc case EQ => 0x15 case UGT => 0x25 case UGE => 0x35
                             case NE => 0x55 case SGT => 0x65 case SGE => 0x75)
            case J_rr(cc) =>
              b == (match cc case EQ => 0x1d case UGT => 0x2d case UGE => 0x3d
                             case NE => 0x5d case SGT => 0x6d case SGE => 0x7d)
            case JMP => b == 0x05
            case JAL => b == 0x85
            case RET => b == 0x95
            case _ => true
  {
  }

  /** The order of the fields in the bytes (RFC 9669, section 3.1): opcode, source register above destination
      register, offset and immediate least significant byte first.  Here stxdw [r10 - 8], r1. */
  lemma {:induction false} StoreBytes()
    ensures var mc := MCInst(ST(DW), [MCReg(1), MCReg(10), MCImm(-8)]);
            Encodable(mc) && Encoded(mc) == [0x7b, 0x1a, 0xf8, 0xff, 0, 0, 0, 0]
  {
    var w := Fields(0x7b, 1, 10, 0xfff8, 0);
    assert FieldsOf(MCInst(ST(DW), [MCReg(1), MCReg(10), MCImm(-8)])) == w;
    assert LittleEndian(0xfff8, 2) == [0xf8, 0xff] by { assert LittleEndian(0xff, 1) == [0xff]; }
    assert LittleEndian(0, 4) == [0, 0, 0, 0] by { assert LittleEndian(0, 2) == [0, 0]; }
  }

  /** And jsgt r2, 0x12345678, before its label is known. */
  lemma {:induction false} JumpBytes(b: BlockId)
    ensures var mc := MCInst(J_ri(SGT), [MCReg(2), MCImm(0x1234_5678), MCExpr(Label(b))]);
            Encodable(mc) && Encoded(mc) == [0x65, 0x02, 0, 0, 0x78, 0x56, 0x34, 0x12]
  {
    var mc := MCInst(J_ri(SGT), [MCReg(2), MCImm(0x1234_5678), MCExpr(Label(b))]);
    assert FieldsOf(mc) == Fields(0x65, 0, 2, 0, 0x1234_5678);
    assert LittleEndian(0, 2) == [0, 0];
    assert LittleEndian(0x1234, 2) == [0x34, 0x12] by { assert LittleEndian(0x12, 1) == [0x12]; }
    assert LittleEndian(0x12_3456, 3) == [0x56] + LittleEndian(0x1234, 2);
    assert LittleEndian(0x1234_5678, 4) == [0x78] + LittleEndian(0x12_3456, 3);
  }
}
