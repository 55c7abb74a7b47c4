/** eliminateFrameIndex: frame objects become offsets from the frame register. */
module FrameIndex {
  import opened Words
  import opened Isa
  import opened Mir
  import opened Cfg
  import opened MachineBlocks

  /** The byte offset of each frame object, `getObjectOffset`. */
  type FrameInfo = int -> int

  predicate HasFI(mi: MInstr) {
    exists i :: 0 <= i < |mi.ops| && mi.ops[i].FI?
  }

  /** The position of the first frame-index operand. */
  function FirstFI(ops: seq<Operand>): (i: nat)
    requires exists j :: 0 <= j < |ops| && ops[j].FI?
    ensures i < |ops| && ops[i].FI? && forall j :: 0 <= j < i ==> !ops[j].FI?
  {
    if ops[0].FI? then 0
    else
      assert exists j :: 0 <= j < |ops[1..]| && ops[1..][j].FI? by {
        var j :| 0 <= j < |ops| && ops[j].FI?;
        assert ops[1..][j - 1].FI?;
      }
      1 + FirstFI(ops[1..])
  }

  /** A register move has its destination before the frame index; everything else has an immediate after it. */
  predicate Eliminable(mi: MInstr) {
    HasFI(mi) &&
    var i := FirstFI(mi.ops);
    if mi.opc.MOV_rr? then i > 0 && mi.ops[i - 1].Reg? else i + 1 < |mi.ops| && mi.ops[i + 1].Imm?
  }

  /** The rewriting of one instruction.  The offset goes through a C++ `int`. */
  function Eliminated(mi: MInstr, frame: FrameInfo): seq<MInstr>
    requires Eliminable(mi)
  {
    var i := FirstFI(mi.ops);
    var fi := mi.ops[i].fi;
    if mi.opc.MOV_rr? then
      var r := mi.ops[i - 1].r;
      [mi.(ops := mi.ops[i := Use(FRAME_REG)]),
       MInstr(ALU_ri(ADD), [Use(r), Use(r), Imm(Low32Signed(frame(fi)))])]
    else
      [mi.(ops := mi.ops[i := Use(FRAME_REG)][i + 1 := Imm(Low32Signed(frame(fi) + mi.ops[i + 1].v))])]
  }

  /** The rewriting of the instruction at position k of a block, in place. */
  method EliminateFrameIndex(mbb: MachineBasicBlock, k: nat, frame: FrameInfo)
    requires k < |mbb.insts| && Eliminable(mbb.insts[k])
    modifies mbb`insts
    ensures mbb.insts == old(mbb.insts[..k]) + Eliminated(old(mbb.insts[k]), frame) + old(mbb.insts[k + 1..])
  {
    var mi := mbb.insts[k];
    var i: nat := 0;
    while !mi.ops[i].FI?
      invariant i < |mi.ops| && forall j :: 0 <= j < i ==> !mi.ops[j].FI?
      decreases |mi.ops| - i
    {
      i := i + 1;
    }
    var fi := mi.ops[i].fi;
    if mi.opc.MOV_rr? {
      var offset := Low32Signed(frame(fi));
      mbb.insts := mbb.insts[k := mi.(ops := mi.ops[i := Use(FRAME_REG)])];
      var r := mi.ops[i - 1].r;
      var add := MInstr(ALU_ri(ADD), [Use(r), Use(r), Imm(offset)]);
      mbb.insts := mbb.insts[..k + 1] + [add] + mbb.insts[k + 1..];
      return;
    }
    var offset := Low32Signed(frame(fi) + mi.ops[i + 1].v);
    // isInt<32>(Offset) is asked of an int: see GuardNeverFires
    mi := mi.(ops := mi.ops[i := Use(FRAME_REG)]);
    mi := mi.(ops := mi.ops[i + 1 := Imm(offset)]);
    mbb.insts := mbb.insts[k := mi];
  }

  function Rewritten(mi: MInstr, frame: FrameInfo): seq<MInstr> {
    if Eliminable(mi) then Eliminated(mi, frame) else [mi]
  }

  function EliminateAll(insts: seq<MInstr>, frame: FrameInfo): seq<MInstr> {
    if insts == [] then [] else Rewritten(insts[0], frame) + EliminateAll(insts[1..], frame)
  }

  lemma {:induction false} OneMore(done: seq<MInstr>, rest: seq<MInstr>, frame: FrameInfo)
    requires rest != []
    ensures done + EliminateAll(rest, frame) == (done + Rewritten(rest[0], frame)) + EliminateAll(rest[1..], frame)
  {
  }

  /** Prologue/epilogue insertion calls EliminateFrameIndex for every instruction that has a frame index. */
  method ReplaceFrameIndices(mbb: MachineBasicBlock, frame: FrameInfo)
    requires forall i :: 0 <= i < |mbb.insts| && HasFI(mbb.insts[i]) ==> Eliminable(mbb.insts[i])
    modifies mbb`insts
    ensures mbb.insts == EliminateAll(old(mbb.insts), frame)
  {
    ghost var before := mbb.insts;
    ghost var done: seq<MInstr> := [];
    ghost var rest := before;
    var k := 0;
    while k < |mbb.insts|
      invariant k == |done| && mbb.insts == done + rest
      invariant forall i :: 0 <= i < |rest| && HasFI(rest[i]) ==> Eliminable(rest[i])
      invariant EliminateAll(before, frame) == done + EliminateAll(rest, frame)
      decreases |rest|
    {
      var mi := mbb.insts[k];
      assert mi == rest[0];
      var step := 1;
      if HasFI(mi) {
        step := if mi.opc.MOV_rr? then 2 else 1;
        EliminateFrameIndex(mbb, k, frame);
      }
      assert mbb.insts == done + Rewritten(mi, frame) + rest[1..];
      OneMore(done, rest, frame);
      done := done + Rewritten(mi, frame);
      rest := rest[1..];
      k := k + step;
    }
  }

  // ----- the offset -----

  /** The overflow check after the addition can never fail: the sum is already an int. */
  lemma {:induction false} GuardNeverFires(sum: int)
    ensures FitsInt32(Low32Signed(sum))
    ensures Low32Signed(sum) == sum <==> FitsInt32(sum)
  {
  }

  lemma {:induction false} SameWord(a: int, x: int, y: int)
    requires -TWO_64 < x - y < TWO_64
    ensures Wrap64(a + x) == Wrap64(a + y) <==> x == y
  {
    var p, q := (a + x) / TWO_64, (a + y) / TWO_64;
    assert a + x == TWO_64 * p + Wrap64(a + x) && a + y == TWO_64 * q + Wrap64(a + y);
  }

  /** Folding an object offset and a constant into one 32-bit offset keeps the address exactly when their sum
      fits 32 bits. */
  lemma {:induction false} FoldExactWhenFits(fp: Word, offset: int, c: int)
    requires FitsInt64(offset + c)
    ensures Wrap64(fp + Low32Signed(offset + c)) == Wrap64(Wrap64(fp + offset) + c) <==> FitsInt32(offset + c)
  {
    var sum := offset + c;
    WrapAdd(fp + offset, c);
    var low := Low32Signed(sum);
    SameWord(fp, low, sum);
  }

  // ----- what instructions with a frame index look like -----

  /** A frame address, or a memory operand on the frame, as instruction selection builds them; debug values
      may name a frame object too. */
  predicate FrameShape(mi: MInstr) {
    HasFI(mi) ==>
      && Eliminable(mi)
      && (forall i :: 0 <= i < |mi.ops| ==> !IsImplicit(mi.ops[i]))
      && (forall i :: 0 <= i < |mi.ops| && mi.ops[i].FI? ==> i == FirstFI(mi.ops))
      && (mi.opc.DBG_VALUE? || (FirstFI(mi.ops) == 1 && mi.ops[0].Reg?))
      && match mi.opc
         case MOV_rr => |mi.ops| == 2
         case LD(_) => |mi.ops| == 3
         case ST(_) => |mi.ops| == 3
         case XADD(_) => |mi.ops| == 4 && mi.ops[3].Reg?
         case DBG_VALUE => true
         case _ => false
  }

  /** The offset of every frame access fits 32 bits. */
  predicate OffsetsFit(mi: MInstr, frame: FrameInfo) {
    HasFI(mi) && Eliminable(mi) && !mi.opc.DBG_VALUE? ==>
      var i := FirstFI(mi.ops);
      FitsInt32(frame(mi.ops[i].fi) + (if mi.opc.MOV_rr? then 0 else mi.ops[i + 1].v))
  }

  predicate KeepsFrameRegister(mi: MInstr) {
    Denote(mi).Some? ==> Written(Denote(mi).value) != Some(FRAME_REG)
  }

  predicate FrameSafe(mi: MInstr, frame: FrameInfo) {
    FrameShape(mi) && OffsetsFit(mi, frame) && KeepsFrameRegister(mi) && !mi.opc.PHI?
  }

  lemma {:induction false} NoneInOne(mi: MInstr, frame: FrameInfo)
    requires FrameShape(mi)
    ensures forall i :: 0 <= i < |Rewritten(mi, frame)| ==> !HasFI(Rewritten(mi, frame)[i])
  {
    var r := Rewritten(mi, frame);
    if HasFI(mi) {
      var i := FirstFI(mi.ops);
      assert forall j :: 0 <= j < |mi.ops| && j != i ==> !mi.ops[j].FI?;
      assert forall j :: 0 <= j < |r[0].ops| ==> !r[0].ops[j].FI?;
    }
  }

  /** After elimination no operand is a frame index. */
  lemma {:induction false} NoneLeft(insts: seq<MInstr>, frame: FrameInfo)
    requires forall i :: 0 <= i < |insts| ==> FrameShape(insts[i])
    ensures forall i :: 0 <= i < |EliminateAll(insts, frame)| ==> !HasFI(EliminateAll(insts, frame)[i])
  {
    if insts != [] {
      var first, rest := Rewritten(insts[0], frame), EliminateAll(insts[1..], frame);
      NoneLeft(insts[1..], frame);
      NoneInOne(insts[0], frame);
      forall i | 0 <= i < |first + rest| ensures !HasFI((first + rest)[i]) {
        assert (first + rest)[i] == if i < |first| then first[i] else rest[i - |first|];
      }
      assert EliminateAll(insts, frame) == first + rest;
    }
  }

  // ----- every instruction with a frame index, debug values included -----

  /** The offset an instruction gets is the sum cut to an int. */
  predicate CutTo32(off: int, sum: int) {
    FitsInt32(off) && (off - sum) % TWO_32 == 0
  }

  lemma {:induction false} LowIsCut(sum: int)
    ensures CutTo32(Low32Signed(sum), sum)
  {
    var q, u := sum / TWO_32, sum % TWO_32;
    assert Low32Signed(sum) - sum == if u < 0x8000_0000 then -q * TWO_32 else (-q - 1) * TWO_32;
  }

  /** Whatever the instruction, base and offset are rewritten and nothing else; they name the place the frame
      object and the constant named, modulo 2^64, exactly when the sum fits 32 bits. */
  lemma {:induction false} FoldedOperands(e: Env, m: Mach, mi: MInstr)
    requires Eliminable(mi) && !mi.opc.MOV_rr?
    requires Get(m.regs, FRAME_REG) == e.fp
    requires var i := FirstFI(mi.ops); FitsInt64(e.frame(mi.ops[i].fi) + mi.ops[i + 1].v)
    ensures var code, i := Eliminated(mi, e.frame), FirstFI(mi.ops);
            var fi, c := mi.ops[i].fi, mi.ops[i + 1].v;
            && |code| == 1 && code[0].opc == mi.opc && |code[0].ops| == |mi.ops|
            && (forall j :: 0 <= j < |mi.ops| && j != i && j != i + 1 ==> code[0].ops[j] == mi.ops[j])
            && code[0].ops[i] == Use(10) && code[0].ops[i + 1].Imm? && CutTo32(code[0].ops[i + 1].v, e.frame(fi) + c)
            && (Address(e, m, RegBase(10), code[0].ops[i + 1].v) == Address(e, m, FrameBase(fi), c)
                <==> FitsInt32(e.frame(fi) + c))
  {
    hide FirstFI, Low32Signed, CutTo32;
    var i := FirstFI(mi.ops);
    LowIsCut(e.frame(mi.ops[i].fi) + mi.ops[i + 1].v);
    FoldExactWhenFits(e.fp, e.frame(mi.ops[i].fi), mi.ops[i + 1].v);
  }

  /** A frame address becomes a copy of R10 and an addition to the register in front of the frame index. */
  lemma {:induction false} FoldedMove(e: Env, mi: MInstr)
    requires Eliminable(mi) && mi.opc.MOV_rr?
    requires FitsInt64(e.frame(mi.ops[FirstFI(mi.ops)].fi))
    ensures var code, i := Eliminated(mi, e.frame), FirstFI(mi.ops);
            var offset, r := e.frame(mi.ops[i].fi), mi.ops[i - 1].r;
            && |code| == 2 && code[0].opc.MOV_rr? && |code[0].ops| == |mi.ops| && code[0].ops[i] == Use(10)
            && (forall j :: 0 <= j < |mi.ops| && j != i ==> code[0].ops[j] == mi.ops[j])
            && code[1].opc == ALU_ri(ADD) && |code[1].ops| == 3 && code[1].ops[2].Imm?
            && code[1].ops[0] == code[1].ops[1] == Use(r) && CutTo32(code[1].ops[2].v, offset)
            && (Wrap64(e.fp + code[1].ops[2].v) == Wrap64(e.fp + offset) <==> FitsInt32(offset))
  {
    hide FirstFI, Low32Signed, CutTo32;
    var offset := e.frame(mi.ops[FirstFI(mi.ops)].fi);
    LowIsCut(offset);
    FoldExactWhenFits(e.fp, offset, 0);
  }

  /** What has no frame index is not touched, and each instruction is rewritten for itself. */
  lemma {:induction false} OthersUntouched(insts: seq<MInstr>, frame: FrameInfo)
    requires forall i :: 0 <= i < |insts| ==> !HasFI(insts[i])
    ensures EliminateAll(insts, frame) == insts
  {
    hide HasFI;
    if insts != [] {
      assert insts == [insts[0]] + insts[1..];
      OthersUntouched(insts[1..], frame);
    }
  }

  lemma {:induction false} EliminateConcat(a: seq<MInstr>, b: seq<MInstr>, frame: FrameInfo)
    ensures EliminateAll(a + b, frame) == EliminateAll(a, frame) + EliminateAll(b, frame)
  {
    hide Rewritten;
    if a == [] {
      assert a + b == b;
    } else {
      assert (a + b)[0] == a[0] && (a + b)[1..] == a[1..] + b;
      EliminateConcat(a[1..], b, frame);
    }
  }

  // ----- execution -----

  lemma {:induction false} MoveDenotes(mi: MInstr, frame: FrameInfo)
    requires FrameShape(mi) && HasFI(mi) && mi.opc.MOV_rr?
    ensures var d, fi, code := mi.ops[0].r, mi.ops[1].fi, Eliminated(mi, frame);
            && |code| == 2
            && Denote(mi) == Some(FrameAddr(d, fi))
            && Denote(code[0]) == Some(Move(d, InReg(FRAME_REG)))
            && Denote(code[1]) == Some(Arith(ADD, d, d, Const(Low32Signed(frame(fi)))))
  {
    var code := Eliminated(mi, frame);
    ExplicitAll(mi.ops);
    ExplicitAll(code[0].ops);
    ExplicitAll(code[1].ops);
  }

  lemma {:induction false} TwoSteps(e: Env, code: seq<MInstr>, m: Mach)
    requires |code| == 2
    requires ExecMI(e, code[0], m).Next? && ExecMI(e, code[1], ExecMI(e, code[0], m).m).Next?
    ensures RunList(e, code, m) == Fall(ExecMI(e, code[1], ExecMI(e, code[0], m).m).m)
  {
    var m1 := ExecMI(e, code[0], m).m;
    assert code[1..][1..] == [];
    assert RunList(e, code[1..], m1) == Fall(ExecMI(e, code[1], m1).m);
  }

  /** The instructions that replace a frame address compute it. */
  lemma {:induction false} MoveKept(e: Env, mi: MInstr, m: Mach)
    requires FrameShape(mi) && HasFI(mi) && mi.opc.MOV_rr? && FitsInt32(e.frame(mi.ops[1].fi))
    requires Get(m.regs, FRAME_REG) == e.fp
    ensures ExecMI(e, mi, m).Next? && RunList(e, Eliminated(mi, e.frame), m) == Fall(ExecMI(e, mi, m).m)
  {
    hide Denote, RunList;
    var d, fi, code := mi.ops[0].r, mi.ops[1].fi, Eliminated(mi, e.frame);
    MoveDenotes(mi, e.frame);
    GuardNeverFires(e.frame(fi));
    WrapAdd(e.fp, e.frame(fi));
    var w := Wrap64(e.fp + e.frame(fi));
    var m1 := m.(regs := m.regs[d := e.fp]);
    assert ExecMI(e, mi, m) == Next(m.(regs := m.regs[d := w]));
    assert ExecMI(e, code[0], m) == Next(m1);
    assert ExecMI(e, code[1], m1) == Next(m1.(regs := m1.regs[d := w]));
    assert m1.regs[d := w] == m.regs[d := w];
    assert ExecMI(e, code[1], m1).m == ExecMI(e, mi, m).m;
    TwoSteps(e, code, m);
  }

  lemma {:induction false} AddressKept(e: Env, m: Mach, fi: int, c: int)
    requires FitsInt32(e.frame(fi) + c) && Get(m.regs, FRAME_REG) == e.fp
    ensures Address(e, m, FrameBase(fi), c) == Address(e, m, RegBase(FRAME_REG), Low32Signed(e.frame(fi) + c))
  {
    GuardNeverFires(e.frame(fi) + c);
    WrapAdd(e.fp + e.frame(fi), c);
  }

  /** A load, store or atomic add on the frame, before and after. */
  lemma {:induction false} MemoryDenotes(mi: MInstr, frame: FrameInfo)
    requires FrameShape(mi) && HasFI(mi) && !mi.opc.MOV_rr? && !mi.opc.DBG_VALUE?
    ensures |Eliminated(mi, frame)| == 1
    ensures var was, now := Denote(mi), Denote(Eliminated(mi, frame)[0]);
            var fi, c := mi.ops[1].fi, mi.ops[2].v;
            var off := Low32Signed(frame(fi) + c);
            match mi.opc
            case LD(sz) => was == Some(LoadMem(sz, mi.ops[0].r, FrameBase(fi), c))
                           && now == Some(LoadMem(sz, mi.ops[0].r, RegBase(FRAME_REG), off))
            case ST(sz) => was == Some(StoreMem(sz, mi.ops[0].r, FrameBase(fi), c))
                           && now == Some(StoreMem(sz, mi.ops[0].r, RegBase(FRAME_REG), off))
            case XADD(sz) => was == Some(AtomicAdd(sz, mi.ops[0].r, FrameBase(fi), c, mi.ops[3].r))
                             && now == Some(AtomicAdd(sz, mi.ops[0].r, RegBase(FRAME_REG), off, mi.ops[3].r))
            case _ => false
  {
    ExplicitAll(mi.ops);
    ExplicitAll(Eliminated(mi, frame)[0].ops);
  }

  /** It goes to the same address. */
  lemma {:induction false} MemoryKept(e: Env, mi: MInstr, m: Mach)
    requires FrameShape(mi) && HasFI(mi) && !mi.opc.MOV_rr? && !mi.opc.DBG_VALUE? && OffsetsFit(mi, e.frame)
    requires Get(m.regs, FRAME_REG) == e.fp
    ensures |Eliminated(mi, e.frame)| == 1 && ExecMI(e, Eliminated(mi, e.frame)[0], m) == ExecMI(e, mi, m)
    ensures ExecMI(e, mi, m).Next?
  {
    MemoryDenotes(mi, e.frame);
    AddressKept(e, m, mi.ops[1].fi, mi.ops[2].v);
  }

  lemma {:induction false} DebugKept(e: Env, mi: MInstr, m: Mach)
    requires FrameShape(mi) && HasFI(mi) && mi.opc.DBG_VALUE?
    ensures RunList(e, Eliminated(mi, e.frame), m) == Fall(m) && ExecMI(e, mi, m) == Next(m)
  {
    assert Eliminated(mi, e.frame)[1..] == [];
  }

  /** One instruction, rewritten or not. */
  lemma {:induction false} OneKept(e: Env, mi: MInstr, m: Mach)
    requires FrameSafe(mi, e.frame) && HasFI(mi)
    requires Get(m.regs, FRAME_REG) == e.fp
    ensures ExecMI(e, mi, m).Next? && RunList(e, Eliminated(mi, e.frame), m) == Fall(ExecMI(e, mi, m).m)
  {
    if mi.opc.MOV_rr? {
      MoveKept(e, mi, m);
    } else if mi.opc.DBG_VALUE? {
      DebugKept(e, mi, m);
    } else {
      MemoryKept(e, mi, m);
      var code := Eliminated(mi, e.frame);
      assert code == [code[0]] && code[1..] == [];
    }
  }

  lemma {:induction false} FrameRegisterKept(e: Env, mi: MInstr, m: Mach)
    requires KeepsFrameRegister(mi)
    ensures var r := ExecMI(e, mi, m); r.Fault? || Get(r.m.regs, FRAME_REG) == Get(m.regs, FRAME_REG)
  {
    if Denote(mi).Some? {
      FramePointerKept(e, Denote(mi).value, m);
    }
  }

  /** Any block, any frame layout, any machine state: the rewritten block leaves the same registers and
      memory the same way. */
  lemma {:induction false} EliminationKeepsBlock(e: Env, insts: seq<MInstr>, m: Mach)
    requires forall i :: 0 <= i < |insts| ==> FrameSafe(insts[i], e.frame)
    requires Get(m.regs, FRAME_REG) == e.fp
    ensures RunList(e, EliminateAll(insts, e.frame), m) == RunList(e, insts, m)
    ensures var x := RunList(e, insts, m); x.Broken? || Get(x.m.regs, FRAME_REG) == e.fp
  {
    if insts != [] {
      var mi, rest := insts[0], insts[1..];
      var first := Rewritten(mi, e.frame);
      FrameRegisterKept(e, mi, m);
      RunListAppend(e, first, EliminateAll(rest, e.frame), m);
      if HasFI(mi) {
        OneKept(e, mi, m);
      } else {
        assert [mi][1..] == [];
      }
      var r := ExecMI(e, mi, m);
      if r.Next? {
        EliminationKeepsBlock(e, rest, r.m);
      }
    }
  }

  // ----- whole functions -----

  ghost predicate FunctionSafe(f: Func, frame: FrameInfo) {
    forall b, i :: b in f.blocks && 0 <= i < |f.blocks[b].insts| ==> FrameSafe(f.blocks[b].insts[i], frame)
  }

  ghost function EliminateFunction(f: Func, frame: FrameInfo): Func
    requires FunctionSafe(f, frame)
  {
    f.(blocks := map b | b in f.blocks :: f.blocks[b].(insts := EliminateAll(f.blocks[b].insts, frame)))
  }

  lemma {:induction false} NoPhis(insts: seq<MInstr>, frame: FrameInfo)
    requires forall i :: 0 <= i < |insts| ==> FrameSafe(insts[i], frame)
    ensures PhiCount(insts) == 0 && PhiCount(EliminateAll(insts, frame)) == 0
  {
  }

  /** Registers and memory agree after runs of any length, and R10 still holds the frame pointer. */
  lemma {:induction false} EliminationKeepsRuns(e: Env, f: Func, s: State, n: nat)
    requires FunctionSafe(f, e.frame)
    requires s.At? ==> Get(s.m.regs, FRAME_REG) == e.fp
    ensures Run(e, EliminateFunction(f, e.frame), s, n) == Run(e, f, s, n)
    ensures Run(e, f, s, n).At? ==> Get(Run(e, f, s, n).m.regs, FRAME_REG) == e.fp
    decreases n
  {
    if n > 0 {
      EliminationStep(e, f, s);
      EliminationKeepsRuns(e, f, Step(e, f, s), n - 1);
    }
  }

  lemma {:induction false} EliminationStep(e: Env, f: Func, s: State)
    requires FunctionSafe(f, e.frame)
    requires s.At? ==> Get(s.m.regs, FRAME_REG) == e.fp
    ensures Step(e, EliminateFunction(f, e.frame), s) == Step(e, f, s)
    ensures Step(e, f, s).At? ==> Get(Step(e, f, s).m.regs, FRAME_REG) == e.fp
  {
    var g := EliminateFunction(f, e.frame);
    if s.At? && s.b in f.blocks {
      var insts := f.blocks[s.b].insts;
      NoPhis(insts, e.frame);
      EliminationKeepsBlock(e, insts, s.m);
      assert Body(insts) == insts && Body(g.blocks[s.b].insts) == EliminateAll(insts, e.frame);
      forall t: BlockId, m: Mach ensures Enter(g, s.b, t, m) == Enter(f, s.b, t, m) {
        if t in f.blocks {
          NoPhis(f.blocks[t].insts, e.frame);
        }
      }
    }
  }

  /** So both functions come to the same end. */
  lemma {:induction false} EliminationEnds(e: Env, f: Func, s: State, r: State)
    requires FunctionSafe(f, e.frame)
    requires s.At? ==> Get(s.m.regs, FRAME_REG) == e.fp
    ensures Ends(e, EliminateFunction(f, e.frame), s, r) <==> Ends(e, f, s, r)
  {
    hide Run, FunctionSafe;
    var g := EliminateFunction(f, e.frame);
    if n: nat :| Run(e, f, s, n) == r {
      EliminationKeepsRuns(e, f, s, n);
      assert Run(e, g, s, n) == r;
    }
    if n: nat :| Run(e, g, s, n) == r {
      EliminationKeepsRuns(e, f, s, n);
      assert Run(e, f, s, n) == r;
    }
  }
}
