/** Symbols.  Calls of named functions and addresses of globals leave section-relative fixups, which the assembler
    does not touch; here a linker writes a value into the immediate field of each, and the bytes run like the
    function in surroundings where the symbols have those values. */
module Linking {
  import opened Words
  import opened Isa
  import opened Mir
  import opened Cfg
  import opened Encoding
  import opened Decoding
  import opened Assembler
  import opened ByteMachine
  import opened FunctionAssembly
  import FrameIndex

  /** What the linker chooses: a 64-bit address for a symbol loaded by LD_imm64, a number for a called one. */
  datatype Values = Values(address: nat -> Word, callee: nat -> int)

  // ----- in the bytes -----

  function Write32(data: seq<Byte>, at: nat, x: nat): (r: seq<Byte>)
    ensures |r| == |data|
  {
    if at + 4 <= |data| then data[..at] + LittleEndian(x, 4) + data[at + 4..] else data
  }

  /** The immediate field of the instruction at the fixup, in both slots for a 64-bit one. */
  function Filled(data: seq<Byte>, f: Fixup, v: Values): (r: seq<Byte>)
    ensures |r| == |data|
  {
    match f.target
    case Label(_) => data
    case GlobalSym(s) =>
      if f.kind.FK_SecRel_4? then Write32(data, f.offset + 4, v.callee(s) % 0x1_0000_0000)
      else if f.kind.FK_SecRel_8? then
        Write32(Write32(data, f.offset + 4, v.address(s) % 0x1_0000_0000), f.offset + 12, v.address(s) / 0x1_0000_0000)
      else data
  }

  function FilledAll(data: seq<Byte>, fs: seq<Fixup>, v: Values): (r: seq<Byte>)
    ensures |r| == |data|
    decreases fs
  {
    if fs == [] then data else FilledAll(Filled(data, fs[0], v), fs[1..], v)
  }

  // ----- in the code -----

  function LinkedOperands(opc: Opcode, ops: seq<Operand>, v: Values): (r: seq<Operand>)
    ensures |r| == |ops|
  {
    if ops == [] then []
    else
      [match ops[0]
       case Global(s) => Imm(if opc.JAL? then v.callee(s) else v.address(s))
       case o => o] + LinkedOperands(opc, ops[1..], v)
  }

  /** The instruction with its symbol replaced by the value. */
  function LinkedInstr(mi: MInstr, v: Values): MInstr {
    if mi.opc.JAL? || mi.opc.LD_imm64? then MInstr(mi.opc, LinkedOperands(mi.opc, mi.ops, v)) else mi
  }

  function LinkedCode(code: seq<MInstr>, v: Values): (r: seq<MInstr>)
    ensures |r| == |code| && forall i :: 0 <= i < |r| ==> r[i] == LinkedInstr(code[i], v)
  {
    seq(|code|, i requires 0 <= i < |code| => LinkedInstr(code[i], v))
  }

  /** The surroundings give the symbols the values written. */
  ghost predicate Agrees(e: Env, v: Values) {
    && (forall s :: e.symbol(s) == v.address(s))
    && (forall s, m :: e.call(External(s), m) == e.call(Helper(v.callee(s)), m))
  }

  lemma {:induction false} LinkedExplicit(opc: Opcode, ops: seq<Operand>, v: Values)
    ensures Explicit(LinkedOperands(opc, ops, v)) == LinkedOperands(opc, Explicit(ops), v)
  {
    if ops != [] {
      var l := LinkedOperands(opc, ops, v);
      assert l[1..] == LinkedOperands(opc, ops[1..], v);
      LinkedExplicit(opc, ops[1..], v);
      assert IsImplicit(l[0]) == IsImplicit(ops[0]);
      if IsImplicit(ops[0]) {
        assert Explicit(l) == Explicit(l[1..]) && Explicit(ops) == Explicit(ops[1..]);
      } else {
        var x := [ops[0]] + Explicit(ops[1..]);
        assert Explicit(ops) == x && x[0] == ops[0] && x[1..] == Explicit(ops[1..]);
        assert Explicit(l) == [l[0]] + Explicit(l[1..]);
      }
    }
  }

  lemma {:induction false} LinkedOperandAt(opc: Opcode, ops: seq<Operand>, v: Values, i: nat)
    requires i < |ops|
    ensures LinkedOperands(opc, ops, v)[i] ==
            match ops[i] case Global(s) => Imm(if opc.JAL? then v.callee(s) else v.address(s)) case o => o
  {
    if i > 0 {
      LinkedOperandAt(opc, ops[1..], v, i - 1);
    }
  }

  function LinkedInsn(i: Insn, v: Values): Insn {
    match i
    case WideSym(d, s) => Wide(d, v.address(s))
    case Call(External(s)) => Call(Helper(v.callee(s)))
    case _ => i
  }

  function LinkedMeaning(d: Option<Insn>, v: Values): Option<Insn> {
    match d
    case None => None
    case Some(i) => Some(LinkedInsn(i, v))
  }

  /** The explicit operands of a call or a 64-bit load, before and after. */
  lemma {:induction false} LinkedShape(opc: Opcode, o: seq<Operand>, v: Values)
    requires opc.JAL? || opc.LD_imm64?
    ensures DenoteOperands(opc, LinkedOperands(opc, o, v)) == LinkedMeaning(DenoteOperands(opc, o), v)
  {
    hide LinkedOperands;
    if |o| > 0 {
      LinkedOperandAt(opc, o, v, 0);
    }
    if |o| > 1 {
      LinkedOperandAt(opc, o, v, 1);
    }
  }

  /** No other instruction means a call or a symbol's address. */
  lemma {:induction false} OthersUnlinked(opc: Opcode, o: seq<Operand>, v: Values)
    requires !opc.JAL? && !opc.LD_imm64?
    ensures LinkedMeaning(DenoteOperands(opc, o), v) == DenoteOperands(opc, o)
  {
  }

  lemma {:induction false} LinkedDenotes(mi: MInstr, v: Values)
    ensures Denote(LinkedInstr(mi, v)) == LinkedMeaning(Denote(mi), v)
  {
    hide Explicit, LinkedOperands, DenoteOperands, LinkedMeaning;
    if mi.opc.JAL? || mi.opc.LD_imm64? {
      LinkedExplicit(mi.opc, mi.ops, v);
      LinkedShape(mi.opc, Explicit(mi.ops), v);
    } else {
      OthersUnlinked(mi.opc, Explicit(mi.ops), v);
    }
  }

  lemma {:induction false} LinkedEffect(e: Env, i: Insn, v: Values, m: Mach)
    requires Agrees(e, v)
    ensures Exec(e, LinkedInsn(i, v), m) == Exec(e, i, m)
  {
    if i.Call? && i.callee.External? {
      assert e.call(i.callee, m) == e.call(LinkedInsn(i, v).callee, m);
    }
  }

  /** Where the symbols have the values, the two instructions do the same. */
  lemma {:induction false} LinkedExec(e: Env, mi: MInstr, v: Values, m: Mach)
    requires Agrees(e, v)
    ensures ExecMI(e, LinkedInstr(mi, v), m) == ExecMI(e, mi, m)
  {
    hide Denote, Exec, LinkedInstr, LinkedInsn, Agrees;
    LinkedDenotes(mi, v);
    if Denote(mi).Some? {
      LinkedEffect(e, Denote(mi).value, v, m);
    }
  }

  lemma {:induction false} LinkedRuns(e: Env, code: seq<MInstr>, v: Values, m: Mach)
    requires Agrees(e, v)
    ensures RunList(e, LinkedCode(code, v), m) == RunList(e, code, m)
  {
    hide Agrees, ExecMI;
    if code != [] {
      LinkedExec(e, code[0], v, m);
      assert LinkedCode(code, v)[1..] == LinkedCode(code[1..], v);
      var r := ExecMI(e, code[0], m);
      if r.Next? {
        LinkedRuns(e, code[1..], v, r.m);
      }
    }
  }

  // ----- one instruction -----

  function LinkedMC(opc: Opcode, ops: seq<MCOperand>, v: Values): (r: seq<MCOperand>)
    ensures |r| == |ops|
  {
    seq(|ops|, i requires 0 <= i < |ops| =>
      if ops[i].MCExpr? && ops[i].s.GlobalSym?
      then MCImm(if opc.JAL? then v.callee(ops[i].s.sym) else v.address(ops[i].s.sym))
      else ops[i])
  }

  lemma {:induction false} LinkedLowered(opc: Opcode, ops: seq<Operand>, v: Values)
    requires NoFrameIndex(ops)
    ensures NoFrameIndex(LinkedOperands(opc, ops, v))
    ensures LowerOperands(LinkedOperands(opc, ops, v)) == LinkedMC(opc, LowerOperands(ops), v)
  {
    var l := LinkedOperands(opc, ops, v);
    forall i | 0 <= i < |ops| ensures !l[i].FI? {
      LinkedOperandAt(opc, ops, v, i);
    }
    if ops != [] {
      assert l[1..] == LinkedOperands(opc, ops[1..], v);
      LinkedLowered(opc, ops[1..], v);
    }
  }

  /** A call or 64-bit load over a symbol: its bytes with the field filled are those of the linked one. */
  lemma {:induction false} FilledCall(s: nat, v: Values)
    ensures var a, b := MCInst(JAL, [MCExpr(GlobalSym(s))]), MCInst(JAL, [MCImm(v.callee(s))]);
            && Encodable(a) && Encodable(b)
            && Encoded(b) == Write32(Encoded(a), 4, v.callee(s) % 0x1_0000_0000)
  {
    var a, b := MCInst(JAL, [MCExpr(GlobalSym(s))]), MCInst(JAL, [MCImm(v.callee(s))]);
    FieldWritten(FieldsOf(a), v.callee(s) % 0x1_0000_0000);
    assert Encoded(a) == Bytes(FieldsOf(a)) && Encoded(b) == Bytes(FieldsOf(b));
  }

  lemma {:induction false} FieldWritten(w: Fields, x: nat)
    requires FieldsFit(w) && x < 0x1_0000_0000
    ensures Bytes(w.(imm := x)) == Write32(Bytes(w), 4, x)
  {
    var b := Bytes(w);
    assert b[4..] == LittleEndian(w.imm, 4);
    assert b[..4] == [w.op % 0x100, (w.src * 16 + w.dst) % 0x100] + LittleEndian(w.off, 2);
    assert b[8..] == [];
  }

  lemma {:induction false} LoadFields(a: MCInst, b: MCInst, r: Reg, s: nat, x: Word)
    requires r <= 11 && a == MCInst(LD_imm64, [MCReg(r), MCExpr(GlobalSym(s))])
    requires b == MCInst(LD_imm64, [MCReg(r), MCImm(x)])
    ensures Encodable(a) && Encodable(b)
    ensures FieldsOf(a).imm == 0 && FieldsOf(b) == FieldsOf(a).(imm := x % 0x1_0000_0000)
    ensures HighHalf(a) == 0 && HighHalf(b) == x / 0x1_0000_0000
  {
  }

  lemma {:induction false} FilledLoad(r: Reg, s: nat, v: Values)
    requires r <= 11
    ensures var a := MCInst(LD_imm64, [MCReg(r), MCExpr(GlobalSym(s))]);
            var b := MCInst(LD_imm64, [MCReg(r), MCImm(v.address(s))]);
            var lo, hi := v.address(s) % 0x1_0000_0000, v.address(s) / 0x1_0000_0000;
            Encodable(a) && Encodable(b) && Encoded(b) == Write32(Write32(Encoded(a), 4, lo), 12, hi)
  {
    hide Encodable, FieldsOf, HighHalf, Bytes, Write32;
    var a := MCInst(LD_imm64, [MCReg(r), MCExpr(GlobalSym(s))]);
    var b := MCInst(LD_imm64, [MCReg(r), MCImm(v.address(s))]);
    var lo, hi := v.address(s) % 0x1_0000_0000, v.address(s) / 0x1_0000_0000;
    LoadFields(a, b, r, s, v.address(s));
    var w, u := FieldsOf(a), Fields(0, 0, 0, 0, 0);
    FieldWritten(w, lo);
    FieldWritten(u, hi);
    TwoSlots(Bytes(w), Bytes(u), lo, hi);
  }

  lemma {:induction false} TwoSlots(x: seq<Byte>, y: seq<Byte>, lo: nat, hi: nat)
    requires |x| == |y| == 8
    ensures Write32(Write32(x + y, 4, lo), 12, hi) == Write32(x, 4, lo) + Write32(y, 4, hi)
  {
    WriteInside([], x, y, 4, lo);
    assert [] + x + y == x + y && [] + Write32(x, 4, lo) + y == Write32(x, 4, lo) + y;
    var x' := Write32(x, 4, lo);
    WriteInside(x', y, [], 4, hi);
    assert x' + y + [] == x' + y && x' + Write32(y, 4, hi) + [] == x' + Write32(y, 4, hi);
  }

  /** Writing between other bytes. */
  lemma {:induction false} WriteInside(pre: seq<Byte>, b: seq<Byte>, rest: seq<Byte>, at: nat, x: nat)
    requires at + 4 <= |b|
    ensures Write32(pre + b + rest, |pre| + at, x) == pre + Write32(b, at, x) + rest
  {
    var d := pre + b + rest;
    assert d[..|pre| + at] == pre + b[..at];
    assert d[|pre| + at + 4..] == b[at + 4..] + rest;
  }

  /** What linking does to a fragment. */
  lemma {:induction false} LinkedFragment(mi: MInstr, v: Values)
    requires Ready(mi)
    ensures Ready(LinkedInstr(mi, v))
    ensures var a, b := FragmentOf(mi), FragmentOf(LinkedInstr(mi, v));
            && b.slots == a.slots && LabelOf(b) == LabelOf(a) && (LabelOf(a).Some? ==> b == a)
            && b.bytes == FilledAll(a.bytes, a.fixups, v)
  {
    if mi.opc.JAL? || mi.opc.LD_imm64? {
      hide Encodable, Encoded, Meaning, FixupsOf, FilledAll, LinkedMC, LowerOperands, LinkedOperands;
      LinkedLowered(mi.opc, mi.ops, v);
      LinkedEncoding(Lowered(mi), Lowered(LinkedInstr(mi, v)), v);
      NoLabel(Lowered(mi));
      NoLabel(Lowered(LinkedInstr(mi, v)));
    } else {
      OtherFragment(mi, v);
    }
  }

  lemma NoLabel(mc: MCInst)
    requires Encodable(mc) && (mc.opc.JAL? || mc.opc.LD_imm64?)
    ensures !Meaning(mc).Branch? && !Meaning(mc).BranchIf?
  {
  }

  lemma {:induction false} OtherFragment(mi: MInstr, v: Values)
    requires Ready(mi) && !mi.opc.JAL? && !mi.opc.LD_imm64?
    ensures var a := FragmentOf(mi); a.bytes == FilledAll(a.bytes, a.fixups, v)
  {
    hide Encoded;
    var fs := FragmentOf(mi).fixups;
    if fs != [] {
      assert fs[1..] == [];
    }
  }

  lemma {:induction false} LinkedEncoding(a: MCInst, b: MCInst, v: Values)
    requires Encodable(a) && (a.opc.JAL? || a.opc.LD_imm64?)
    requires b == MCInst(a.opc, LinkedMC(a.opc, a.ops, v))
    ensures Encodable(b)
    ensures Encoded(b) == FilledAll(Encoded(a), FixupsOf(a), v)
  {
    hide Encoded, Write32;
    var i := if a.opc.JAL? then 0 else 1;
    if a.ops[i].MCImm? {
      assert b.ops == a.ops;
    } else {
      var s := a.ops[i].s.sym;
      var fs := FixupsOf(a);
      assert fs == [fs[0]] && fs[1..] == [];
      if a.opc.JAL? {
        FilledCall(s, v);
        assert a.ops == [MCExpr(GlobalSym(s))] && b.ops == [MCImm(v.callee(s))];
      } else {
        var r := a.ops[0].r;
        FilledLoad(r, s, v);
        assert a.ops == [MCReg(r), MCExpr(GlobalSym(s))] && b.ops == [MCReg(r), MCImm(v.address(s))];
      }
    }
  }

  // ----- a section -----

  lemma {:induction false} LinkedReady(code: seq<MInstr>, v: Values)
    requires AllReady(code)
    ensures AllReady(LinkedCode(code, v))
  {
    hide Ready, LinkedInstr;
    forall i | 0 <= i < |code| ensures Ready(LinkedInstr(code[i], v)) {
      LinkedFragment(code[i], v);
    }
  }

  /** Filling a field between other bytes. */
  lemma {:induction false} FilledInside(pre: seq<Byte>, b: seq<Byte>, rest: seq<Byte>, f: Fixup, at: nat, v: Values)
    requires f.offset == 0 && |pre| == at
    requires |b| >= 8 && (f.kind.FK_SecRel_8? ==> |b| >= 16)
    ensures Filled(pre + b + rest, f.(offset := f.offset + at), v) == pre + Filled(b, f, v) + rest
  {
    hide Write32;
    if f.target.GlobalSym? {
      var s := f.target.sym;
      if f.kind.FK_SecRel_4? {
        WriteInside(pre, b, rest, 4, v.callee(s) % 0x1_0000_0000);
      } else if f.kind.FK_SecRel_8? {
        WriteInside(pre, b, rest, 4, v.address(s) % 0x1_0000_0000);
        WriteInside(pre, Write32(b, 4, v.address(s) % 0x1_0000_0000), rest, 12, v.address(s) / 0x1_0000_0000);
      }
    }
  }

  lemma {:induction false} FixupFits(mi: MInstr)
    requires Ready(mi)
    ensures var fr := FragmentOf(mi);
            && |fr.fixups| <= 1
            && (fr.fixups != [] ==> fr.fixups[0].offset == 0 && |fr.bytes| >= 8)
            && (fr.fixups != [] && fr.fixups[0].kind.FK_SecRel_8? ==> |fr.bytes| >= 16)
            && (fr.fixups != [] ==> (LabelOf(fr).Some? <==> fr.fixups[0].kind.FK_PCRel_2?))
  {
    FragmentWellMade(mi);
  }

  /** The fixups of one instruction turn its bytes, its label patched, into those of the linked one. */
  lemma {:induction false} LinkOne(mi: MInstr, labels: Labels, at: nat, pre: seq<Byte>, rest: seq<Byte>,
                                   fs: seq<Fixup>, v: Values)
    requires Ready(mi) && Ready(LinkedInstr(mi, v)) && |pre| == 8 * at
    ensures WellMade(FragmentOf(mi)) && WellMade(FragmentOf(LinkedInstr(mi, v)))
    ensures var a, b := FragmentOf(mi), FragmentOf(LinkedInstr(mi, v));
            FilledAll(pre + Patched(a, Disp(a, labels, at)) + rest, Rebased(a.fixups, 8 * at) + fs, v)
            == FilledAll(pre + Patched(b, Disp(b, labels, at)) + rest, fs, v)
  {
    hide Ready, FragmentOf, LinkedInstr, WellMade, Filled;
    var a, b := FragmentOf(mi), FragmentOf(LinkedInstr(mi, v));
    FragmentWellMade(mi);
    FragmentWellMade(LinkedInstr(mi, v));
    LinkedFragment(mi, v);
    FixupFits(mi);
    var p, own := Patched(a, Disp(a, labels, at)), Rebased(a.fixups, 8 * at);
    if a.fixups == [] {
      assert own + fs == fs;
    } else {
      assert own == [own[0]] && (own + fs)[1..] == fs && a.fixups[1..] == [];
      if LabelOf(a).Some? {
        BranchUnfilled(pre + p + rest, own[0], v);
      } else {
        FilledInside(pre, p, rest, a.fixups[0], 8 * at, v);
      }
    }
  }

  lemma BranchUnfilled(data: seq<Byte>, f: Fixup, v: Values)
    requires f.kind.FK_PCRel_2?
    ensures Filled(data, f, v) == data
  {
  }

  lemma {:induction false} LinkStep(pre: seq<Byte>, p: seq<Byte>, p': seq<Byte>, img: seq<Byte>, img': seq<Byte>,
                                    own: seq<Fixup>, fs: seq<Fixup>, v: Values)
    requires FilledAll(pre + p + img, own + fs, v) == FilledAll(pre + p' + img, fs, v)
    requires FilledAll(pre + p' + img, fs, v) == pre + p' + img'
    ensures FilledAll(pre + (p + img), own + fs, v) == pre + (p' + img')
  {
    hide FilledAll;
    assert pre + (p + img) == pre + p + img && pre + (p' + img') == pre + p' + img';
  }

  /** Filling every section-relative field of an image gives the image of the linked code. */
  lemma {:induction false} FilledIsLinked(pre: seq<Byte>, code: seq<MInstr>, labels: Labels, at: nat, v: Values)
    requires AllReady(code) && AllReady(LinkedCode(code, v)) && |pre| == 8 * at
    requires Linked(Fragments(code), labels) && Linked(Fragments(LinkedCode(code, v)), labels)
    ensures var frs := Fragments(code);
            FilledAll(pre + Image(frs, labels, at), FixupList(frs, at), v)
            == pre + Image(Fragments(LinkedCode(code, v)), labels, at)
    decreases code
  {
    hide Ready, FragmentOf, LinkedInstr, WellMade, Patched, Disp, LabelOf, Filled, Rebased;
    if code == [] {
      assert pre + [] == pre;
    } else {
      var a, b := FragmentOf(code[0]), FragmentOf(LinkedInstr(code[0], v));
      var frs, frs' := Fragments(code[1..]), Fragments(LinkedCode(code[1..], v));
      assert LinkedCode(code, v)[1..] == LinkedCode(code[1..], v);
      assert Fragments(code)[1..] == frs && Fragments(LinkedCode(code, v))[1..] == frs';
      LinkedFragment(code[0], v);
      LinkedSlots(code[0], v);
      var p, p' := Patched(a, Disp(a, labels, at)), Patched(b, Disp(b, labels, at));
      var next, fs := at + a.slots, FixupList(frs, at + a.slots);
      LinkOne(code[0], labels, at, pre, Image(frs, labels, next), fs, v);
      FilledIsLinked(pre + p', code[1..], labels, next, v);
      LinkStep(pre, p, p', Image(frs, labels, next), Image(frs', labels, next), Rebased(a.fixups, 8 * at), fs, v);
    }
  }

  lemma {:induction false} LinkedSlots(mi: MInstr, v: Values)
    requires Ready(mi) && Ready(LinkedInstr(mi, v))
    ensures var b := FragmentOf(LinkedInstr(mi, v));
            b.slots == FragmentOf(mi).slots && WellMade(b) && |b.bytes| == 8 * b.slots
  {
    LinkedFragment(mi, v);
    FragmentWellMade(LinkedInstr(mi, v));
  }

  // ----- a function -----

  function LinkedBlocks(f: Func, v: Values): Func {
    f.(blocks := map b | b in f.blocks :: f.blocks[b].(insts := LinkedCode(f.blocks[b].insts, v)))
  }

  ghost function LinkedFunction(f: Func, v: Values): (g: Func)
    requires Assemblable(f)
    ensures Assemblable(g)
  {
    LinkedAssemblable(f, v);
    LinkedBlocks(f, v)
  }

  lemma {:induction false} LinkedAssemblable(f: Func, v: Values)
    requires Assemblable(f)
    ensures Assemblable(LinkedBlocks(f, v))
  {
    hide Ready, LinkedInstr;
    var g := LinkedBlocks(f, v);
    forall b | b in g.blocks ensures AllReady(g.blocks[b].insts) {
      LinkedReady(f.blocks[b].insts, v);
    }
  }

  lemma {:induction false} LinkedStep(e: Env, f: Func, v: Values, s: State)
    requires Assemblable(f) && Agrees(e, v)
    ensures Step(e, LinkedFunction(f, v), s) == Step(e, f, s)
  {
    hide Ready, LinkedInstr, Agrees, Enter;
    if s.At? && s.b in f.blocks {
      var g, insts := LinkedFunction(f, v), f.blocks[s.b].insts;
      NoPhis(insts);
      NoPhis(g.blocks[s.b].insts);
      LinkedRuns(e, insts, v, s.m);
      var x := RunList(e, insts, s.m);
      if x.Goto? {
        EnterAssembled(f, s.b, x.target, x.m);
        EnterAssembled(g, s.b, x.target, x.m);
      } else if x.Fall? && LayoutNext(f.layout, s.b).Some? {
        EnterAssembled(f, s.b, LayoutNext(f.layout, s.b).value, x.m);
        EnterAssembled(g, s.b, LayoutNext(f.layout, s.b).value, x.m);
      }
    }
  }

  /** The linked function has the same runs, state by state. */
  lemma {:induction false} LinkedFunctionRuns(e: Env, f: Func, v: Values, s: State, n: nat)
    requires Assemblable(f) && Agrees(e, v)
    ensures Run(e, LinkedFunction(f, v), s, n) == Run(e, f, s, n)
    decreases n
  {
    hide Step, Assemblable, Agrees, LinkedFunction;
    if n > 0 {
      LinkedStep(e, f, v, s);
      LinkedFunctionRuns(e, f, v, Step(e, f, s), n - 1);
    }
  }

  lemma {:induction false} LinkedLayout(layout: seq<BlockId>, blocks: map<BlockId, Block>,
                                        linked: map<BlockId, Block>, v: Values)
    requires LaidOut(layout, blocks) && LaidOut(layout, linked)
    requires forall b :: b in layout ==> b in blocks && b in linked && linked[b].insts == LinkedCode(blocks[b].insts, v)
    ensures Code(layout, linked) == LinkedCode(Code(layout, blocks), v)
    ensures forall b :: b in layout ==> Start(layout, linked, b) == Start(layout, blocks, b)
  {
    hide LinkedInstr;
    if layout != [] {
      var first, rest := layout[0], layout[1..];
      assert first in layout && linked[first].insts == LinkedCode(blocks[first].insts, v);
      assert forall b :: b in rest ==> b in layout;
      LinkedLayout(rest, blocks, linked, v);
      assert forall b :: b in layout && b != first ==> b in rest;
    }
  }

  lemma {:induction false} LinkedTargets(code: seq<MInstr>, v: Values)
    ensures Targets(LinkedCode(code, v)) == Targets(code)
  {
    if code != [] {
      assert LinkedCode(code, v)[1..] == LinkedCode(code[1..], v);
      LinkedTargets(code[1..], v);
    }
  }

  /** Linking moves nothing. */
  lemma {:induction false} LinkedSlotSum(code: seq<MInstr>, v: Values, k: nat)
    requires AllReady(code) && AllReady(LinkedCode(code, v)) && k <= |code|
    ensures SlotSum(Fragments(LinkedCode(code, v))[..k]) == SlotSum(Fragments(code)[..k])
    decreases k
  {
    hide Ready, FragmentOf, LinkedInstr;
    SlotSumTake(Fragments(code), k);
    SlotSumTake(Fragments(LinkedCode(code, v)), k);
    if k > 0 {
      LinkedSlots(code[0], v);
      LinkedSlotSum(code[1..], v, k - 1);
      assert LinkedCode(code, v)[1..] == LinkedCode(code[1..], v);
      assert Fragments(code)[1..] == Fragments(code[1..]);
      assert Fragments(LinkedCode(code, v))[1..] == Fragments(LinkedCode(code[1..], v));
    }
  }

  /** The labels of the function are those of the linked one. */
  lemma {:induction false} LinkedPlaces(f: Func, v: Values)
    requires Assemblable(f) && TargetsExist(f)
    ensures var g, labels := LinkedFunction(f, v), PlaceLabels(f);
            && LabelsPlaced(g, labels)
            && Linked(FunctionFragments(g), labels) && AllFaithful(FunctionFragments(g), labels)
            && Code(g.layout, g.blocks) == LinkedCode(Code(f.layout, f.blocks), v)
  {
    hide Ready, FragmentOf, LinkedInstr, Linked, AllFaithful;
    var g, labels := LinkedFunction(f, v), PlaceLabels(f);
    var code := Code(f.layout, f.blocks);
    FunctionReady(f);
    FunctionReady(g);
    LayoutExists(f.layout, f.blocks);
    LinkedLayout(f.layout, f.blocks, g.blocks, v);
    CodeTargets(f.layout, f.blocks);
    LinkedTargets(code, v);
    forall b ensures b in labels.Keys <==> b in g.blocks.Keys {
    }
    CodeLinks(LinkedCode(code, v), labels);
    forall b | b in g.layout
      ensures Start(g.layout, g.blocks, b) <= |FunctionFragments(g)|
      ensures labels[b] == Off(FunctionFragments(g), Start(g.layout, g.blocks, b))
    {
      BlockFragments(f, b);
      LinkedSlotSum(code, v, Start(f.layout, f.blocks, b));
    }
  }

  /** Write any values into the section-relative fields of the assembled function, 64 bits for an address and a
      number for a callee: where the symbols have those values, and the linked instructions fit their formats,
      the bytes have exactly the results of the function. */
  lemma {:induction false} LinkedImageSameResults(e: Env, f: Func, v: Values, s: State, r: State)
    requires Assemblable(f) && TargetsExist(f) && Agrees(e, v)
    requires AllInRange(FunctionFragments(LinkedFunction(f, v)), PlaceLabels(f), 0)
    requires (s.At? ==> s.b in f.blocks) && !r.At?
    ensures Linked(FunctionFragments(f), PlaceLabels(f)) && (s.At? ==> s.b in PlaceLabels(f))
    ensures var frs, labels := FunctionFragments(f), PlaceLabels(f);
            var img := FilledAll(Image(frs, labels, 0), FixupList(frs, 0), v);
            Ends(e, f, s, r) <==> ByteEnds(e, img, InBytes(s, labels), InBytes(r, labels))
  {
    hide Ready, FragmentOf, Linked, AllFaithful, AllInRange, Agrees, ByteEnds, Image, FixupList, Ends;
    var g, labels := LinkedFunction(f, v), PlaceLabels(f);
    FunctionLinks(f);
    LinkedPlaces(f, v);
    FunctionReady(f);
    FunctionReady(g);
    FilledImage(f, v);
    BytesSameResults(e, g, labels, s, r);
    LinkedEnds(e, f, v, s, r);
  }

  lemma {:induction false} FilledImage(f: Func, v: Values)
    requires Assemblable(f)
    requires Linked(FunctionFragments(f), PlaceLabels(f)) && Linked(FunctionFragments(LinkedFunction(f, v)), PlaceLabels(f))
    requires var g := LinkedFunction(f, v); Code(g.layout, g.blocks) == LinkedCode(Code(f.layout, f.blocks), v)
    ensures var frs, labels := FunctionFragments(f), PlaceLabels(f);
            FilledAll(Image(frs, labels, 0), FixupList(frs, 0), v)
            == Image(FunctionFragments(LinkedFunction(f, v)), labels, 0)
  {
    hide Ready, FragmentOf, Linked, LinkedFunction, Image, FixupList, FilledAll;
    var frs, labels, g := FunctionFragments(f), PlaceLabels(f), LinkedFunction(f, v);
    FunctionReady(f);
    FunctionReady(g);
    FilledIsLinked([], Code(f.layout, f.blocks), labels, 0, v);
    assert [] + Image(frs, labels, 0) == Image(frs, labels, 0);
    assert [] + Image(FunctionFragments(g), labels, 0) == Image(FunctionFragments(g), labels, 0);
  }

  lemma {:induction false} LinkedEnds(e: Env, f: Func, v: Values, s: State, r: State)
    requires Assemblable(f) && Agrees(e, v)
    ensures Ends(e, LinkedFunction(f, v), s, r) <==> Ends(e, f, s, r)
  {
    hide Run, Assemblable, Agrees, LinkedFunction;
    var g := LinkedFunction(f, v);
    if n: nat :| Run(e, f, s, n) == r {
      LinkedFunctionRuns(e, f, v, s, n);
      assert Run(e, g, s, n) == r;
    }
    if n: nat :| Run(e, g, s, n) == r {
      LinkedFunctionRuns(e, f, v, s, n);
      assert Run(e, f, s, n) == r;
    }
  }

  /** All of it together: frame indices eliminated, the code assembled, every section-relative field filled.  The
      bytes have exactly the results of the function as it was before its frame was laid out. */
  lemma {:induction false} FrameLinkedSameResults(e: Env, f: Func, v: Values, s: State, r: State)
    requires FrameIndex.FunctionSafe(f, e.frame) && Agrees(e, v)
    requires var g := FrameIndex.EliminateFunction(f, e.frame);
             && Assemblable(g) && TargetsExist(g)
             && AllInRange(FunctionFragments(LinkedFunction(g, v)), PlaceLabels(g), 0)
    requires (s.At? ==> s.b in f.blocks && Get(s.m.regs, FRAME_REG) == e.fp) && !r.At?
    ensures var g := FrameIndex.EliminateFunction(f, e.frame);
            Linked(FunctionFragments(g), PlaceLabels(g)) && (s.At? ==> s.b in PlaceLabels(g))
    ensures var g := FrameIndex.EliminateFunction(f, e.frame);
            var frs, labels := FunctionFragments(g), PlaceLabels(g);
            var img := FilledAll(Image(frs, labels, 0), FixupList(frs, 0), v);
            Ends(e, f, s, r) <==> ByteEnds(e, img, InBytes(s, labels), InBytes(r, labels))
  {
    hide Ends, ByteEnds, Assemblable, TargetsExist, FrameIndex.FunctionSafe, Agrees, Linked, AllInRange;
    var g := FrameIndex.EliminateFunction(f, e.frame);
    assert g.blocks.Keys == f.blocks.Keys;
    LinkedImageSameResults(e, g, v, s, r);
    FrameIndex.EliminationEnds(e, f, s, r);
  }
}
