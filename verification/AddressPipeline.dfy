/** From an address expression to the bytes of a memory access: SelectAddr, frame index elimination, operand
    lowering and encoding, one after the other. */
module AddressPipeline {
  import opened Words
  import opened Isa
  import opened Mir
  import opened Encoding
  import opened Decoding
  import AddressSelect
  import FrameIndex
  import Bits

  predicate IsAccess(opc: Opcode) {
    opc.LD? || opc.ST? || opc.XADD?
  }

  /** A load into v, a store of v, or an atomic add of v. */
  function Access(opc: Opcode, v: Reg, base: Operand, off: int): MInstr
    requires IsAccess(opc)
  {
    MInstr(opc, if opc.XADD? then [Use(v), base, Imm(off), Use(v)] else [Use(v), base, Imm(off)])
  }

  function AccessMeaning(opc: Opcode, v: Reg, base: Base, off: int): Insn
    requires IsAccess(opc)
  {
    match opc
    case LD(sz) => LoadMem(sz, v, base, off)
    case ST(sz) => StoreMem(sz, v, base, off)
    case XADD(sz) => AtomicAdd(sz, v, base, off, v)
  }

  /** The base operand SelectAddr's result becomes; a computed base is in register r. */
  function BaseOperand(b: AddressSelect.AddrBase, r: Reg): Operand {
    if b.TargetFrameIndex? then FI(b.fi) else Use(r)
  }

  /** The register the base is in once frame indices are gone. */
  function FinalBase(b: AddressSelect.AddrBase, r: Reg): Reg {
    if b.TargetFrameIndex? then FRAME_REG else r
  }

  /** The offset from that register, before any truncation. */
  function FinalOffset(frame: FrameIndex.FrameInfo, b: AddressSelect.AddrBase, offset: int): int {
    if b.TargetFrameIndex? then frame(b.fi) + offset else offset
  }

  /** The access after frame index elimination. */
  function Finished(opc: Opcode, v: Reg, b: AddressSelect.AddrBase, r: Reg, offset: int,
                    frame: FrameIndex.FrameInfo): seq<MInstr>
    requires IsAccess(opc)
  {
    FrameIndex.Rewritten(Access(opc, v, BaseOperand(b, r), offset), frame)
  }

  lemma {:induction false} AccessFrame(opc: Opcode, v: Reg, base: Operand, off: int)
    requires IsAccess(opc) && (base.FI? || base.Reg?)
    ensures var mi := Access(opc, v, base, off);
            && (FrameIndex.HasFI(mi) <==> base.FI?)
            && (base.FI? ==> FrameIndex.FirstFI(mi.ops) == 1 && FrameIndex.Eliminable(mi))
  {
    var ops := Access(opc, v, base, off).ops;
    assert !ops[0].FI? && ops[1] == base && ops[2].Imm?;
    if base.FI? {
      assert ops[1].FI?;
    }
  }

  /** It is one access through a register, its offset cut to 32 bits if a frame offset went into it. */
  lemma {:induction false} FinishedIs(opc: Opcode, v: Reg, b: AddressSelect.AddrBase, r: Reg, offset: int,
                                      frame: FrameIndex.FrameInfo)
    requires IsAccess(opc)
    ensures var f := FinalOffset(frame, b, offset);
            Finished(opc, v, b, r, offset, frame)
            == [Access(opc, v, Use(FinalBase(b, r)), if b.TargetFrameIndex? then Low32Signed(f) else f)]
  {
    hide FrameIndex.HasFI, FrameIndex.FirstFI;
    AccessFrame(opc, v, BaseOperand(b, r), offset);
    if b.TargetFrameIndex? {
      var low := Low32Signed(FinalOffset(frame, b, offset));
      assert Access(opc, v, FI(b.fi), offset).ops[1 := Use(FRAME_REG)][2 := Imm(low)]
             == Access(opc, v, Use(FRAME_REG), low).ops;
    }
  }

  lemma {:induction false} LoweredAccess(opc: Opcode, v: Reg, r: Reg, off: int)
    requires IsAccess(opc)
    ensures var ops := Access(opc, v, Use(r), off).ops;
            && NoFrameIndex(ops)
            && LowerOperands(ops) ==
                 if opc.XADD? then [MCReg(v), MCReg(r), MCImm(off), MCReg(v)] else [MCReg(v), MCReg(r), MCImm(off)]
  {
    var ops := Access(opc, v, Use(r), off).ops;
    LowerStep(ops, 0);
    LowerStep(ops, 1);
    LowerStep(ops, 2);
    if opc.XADD? {
      LowerStep(ops, 3);
    }
    LowerNothing(ops);
    assert ops[0..] == ops;
  }

  /** Whatever the offset, the bytes decode to the same access with the low 16 bits of it. */
  lemma {:induction false} AccessDecodes(opc: Opcode, v: Reg, r: Reg, off: int, rest: seq<Byte>)
    requires IsAccess(opc) && v <= 11 && r <= 11
    ensures NoFrameIndex(Access(opc, v, Use(r), off).ops)
    ensures var mc := Lowered(Access(opc, v, Use(r), off));
            && Encodable(mc)
            && Decode(Encoded(mc) + rest) == Some(Decoded(AccessMeaning(opc, v, RegBase(r), Low16Signed(off)), 1))
  {
    LoweredAccess(opc, v, r, off);
    var mc := Lowered(Access(opc, v, Use(r), off));
    AccessFields(mc, v, r, off);
    var w := FieldsOf(mc);
    SlotOfBytes(w, rest);
    assert Encoded(mc) == Bytes(w);
    OneSlotOpcode(mc);
  }

  lemma {:induction false} AccessFields(mc: MCInst, v: Reg, r: Reg, off: int)
    requires IsAccess(mc.opc) && v <= 11 && r <= 11
    requires mc.ops == if mc.opc.XADD? then [MCReg(v), MCReg(r), MCImm(off), MCReg(v)] else [MCReg(v), MCReg(r), MCImm(off)]
    ensures Encodable(mc) && DecodeFields(FieldsOf(mc)) == Some(AccessMeaning(mc.opc, v, RegBase(r), Low16Signed(off)))
  {
    MemByteParts(if mc.opc.XADD? then 6 else 3, SizeBits(mc.opc.sz), if mc.opc.LD? then 1 else 3);
    CodesInvert(ADD, EQ, mc.opc.sz);
    var a := MemoryOpValue(mc);
    assert a / 0x1_0000 == r && a % 0x1_0000 == off % 0x1_0000;
  }

  /** Cutting an offset, perhaps first to 32 and then to 16 bits, moves the address exactly when it does not
      fit 16 bits. */
  lemma {:induction false} CutOffset(a: Word, f: int)
    requires FitsInt64(f)
    ensures Low16Signed(Low32Signed(f)) == Low16Signed(f)
    ensures Wrap64(a + Low16Signed(f)) == Wrap64(a + f) <==> FitsInt16(f)
  {
    CutTwice(f);
    FrameIndex.SameWord(a, Low16Signed(f), f);
  }

  lemma {:induction false} CutTwice(f: int)
    ensures Low16Signed(Low32Signed(f)) == Low16Signed(f)
  {
    var q, u := f / TWO_32, f % TWO_32;
    var a, b := u / TWO_16, u % TWO_16;
    Bits.DivModUnique(f, TWO_16, q * TWO_16 + a, b);
    Bits.DivModUnique(u - TWO_32, TWO_16, a - TWO_16, b);
  }

  /** The address the selection meant, through the final base register. */
  lemma {:induction false} SelectedAddress(e: Env, m: Mach, addr: AddressSelect.Node,
                                           zero: AddressSelect.ZeroBits, r: Reg)
    requires AddressSelect.Sound(e, zero) && AddressSelect.SelectAddr(addr, zero).Match?
    requires Get(m.regs, FRAME_REG) == e.fp
    requires var b := AddressSelect.SelectAddr(addr, zero).base;
             b.Computed? ==> Get(m.regs, r) == AddressSelect.Eval(e, m, b.n)
    ensures var s := AddressSelect.SelectAddr(addr, zero);
            Wrap64(Get(m.regs, FinalBase(s.base, r)) + FinalOffset(e.frame, s.base, s.offset))
            == AddressSelect.Eval(e, m, addr)
  {
    hide AddressSelect.SelectAddr, AddressSelect.Sound;
    var s := AddressSelect.SelectAddr(addr, zero);
    AddressSelect.SelectionKeepsAddress(e, m, addr, zero);
    if s.base.TargetFrameIndex? {
      WrapAdd(e.fp + e.frame(s.base.fi), s.offset);
    }
  }

  /** An access whose address SelectAddr took apart ends up as one encodable instruction; its bytes decode to
      that access, and it goes to the address of the original expression, modulo 2^64, exactly when the final
      offset fits 16 bits. */
  lemma {:induction false} AddressSurvives(e: Env, m: Mach, addr: AddressSelect.Node, zero: AddressSelect.ZeroBits,
                                           opc: Opcode, v: Reg, r: Reg, rest: seq<Byte>)
    requires AddressSelect.Sound(e, zero) && AddressSelect.SelectAddr(addr, zero).Match?
    requires IsAccess(opc) && v <= 11 && r <= 11
    requires Get(m.regs, FRAME_REG) == e.fp
    requires var s := AddressSelect.SelectAddr(addr, zero);
             && (s.base.Computed? ==> Get(m.regs, r) == AddressSelect.Eval(e, m, s.base.n))
             && FitsInt64(FinalOffset(e.frame, s.base, s.offset))
    ensures var s := AddressSelect.SelectAddr(addr, zero);
            var f := FinalOffset(e.frame, s.base, s.offset);
            var base, off := RegBase(FinalBase(s.base, r)), Low16Signed(f);
            var code := Finished(opc, v, s.base, r, s.offset, e.frame);
            && |code| == 1 && NoFrameIndex(code[0].ops) && Encodable(Lowered(code[0]))
            && Decode(Encoded(Lowered(code[0])) + rest) == Some(Decoded(AccessMeaning(opc, v, base, off), 1))
            && (Address(e, m, base, off) == AddressSelect.Eval(e, m, addr) <==> FitsInt16(f))
  {
    hide AddressSelect.SelectAddr, AddressSelect.Sound, AddressSelect.Eval;
    hide Encodable, Encoded, Decode, Finished, Lowered, NoFrameIndex;
    var s := AddressSelect.SelectAddr(addr, zero);
    var f := FinalOffset(e.frame, s.base, s.offset);
    FinishedIs(opc, v, s.base, r, s.offset, e.frame);
    AccessDecodes(opc, v, FinalBase(s.base, r), if s.base.TargetFrameIndex? then Low32Signed(f) else f, rest);
    SelectedAddress(e, m, addr, zero, r);
    CutOffset(Get(m.regs, FinalBase(s.base, r)), f);
  }

  /** The address is frame object fi plus c. */
  predicate AtFrameObject(addr: AddressSelect.Node, zero: AddressSelect.ZeroBits, fi: int, c: int) {
    || (addr == AddressSelect.FrameIndexNode(fi) && c == 0)
    || (AddressSelect.Foldable(addr, zero) && addr.a == AddressSelect.FrameIndexNode(fi) && c == Low64Signed(addr.b.v))
  }

  /** An access at a frame object, alone or plus a constant that fits 32 bits, becomes exactly one access on R10,
      whatever register would have held a computed address. */
  lemma {:induction false} FrameAccessOnR10(addr: AddressSelect.Node, zero: AddressSelect.ZeroBits, fi: int, c: int,
                                            opc: Opcode, v: Reg, r: Reg, frame: FrameIndex.FrameInfo)
    requires IsAccess(opc) && AtFrameObject(addr, zero, fi, c)
    ensures var s := AddressSelect.SelectAddr(addr, zero);
            s.Match? && Finished(opc, v, s.base, r, s.offset, frame)
                        == [Access(opc, v, Use(10), Low32Signed(frame(fi) + c))]
  {
    hide AddressSelect.SelectAddr, Finished, Access, Low32Signed;
    var s := AddressSelect.SelectAddr(addr, zero);
    AddressSelect.FoldableIsFolded(addr, zero);
    FinishedIs(opc, v, s.base, r, s.offset, frame);
  }
}
