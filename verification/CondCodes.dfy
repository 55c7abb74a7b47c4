/** Condition codes: NegateCC and the branches and selects lowered through it. */
module CondCodes {
  import opened Words
  import opened Isa
  import opened Mir
  import opened Cfg
  import opened SelectExpansion
  import opened Decoding

  /** LLVM's condition codes: the ten integer comparisons, and the floating-point and constant ones. */
  datatype CondCode =
    | SETEQ | SETNE | SETGT | SETGE | SETLT | SETLE | SETUGT | SETUGE | SETULT | SETULE
    | NotInteger(isd: int)

  /** The value of a code in LLVM's enumeration. */
  function Number(cc: CondCode): int {
    match cc
    case SETUGT => 10
    case SETUGE => 11
    case SETULT => 12
    case SETULE => 13
    case SETEQ => 17
    case SETGT => 18
    case SETGE => 19
    case SETLT => 20
    case SETLE => 21
    case SETNE => 22
    case NotInteger(n) => n
  }

  predicate ValidCode(cc: CondCode) {
    cc.NotInteger? ==> (0 <= cc.isd < 10) || (14 <= cc.isd < 17) || cc.isd == 23
  }

  /** What an integer comparison means. */
  predicate Compares(cc: CondCode, a: Word, b: Word)
    requires !cc.NotInteger?
  {
    match cc
    case SETEQ => a == b
    case SETNE => a != b
    case SETGT => Low64Signed(a) > Low64Signed(b)
    case SETGE => Low64Signed(a) >= Low64Signed(b)
    case SETLT => Low64Signed(a) < Low64Signed(b)
    case SETLE => Low64Signed(a) <= Low64Signed(b)
    case SETUGT => a > b
    case SETUGE => a >= b
    case SETULT => a < b
    case SETULE => a <= b
  }

  datatype Comparison<T> = Comparison(lhs: T, rhs: T, cc: CondCode)

  function Negated<T>(c: Comparison<T>): Comparison<T> {
    match c.cc
    case SETULT => Comparison(c.rhs, c.lhs, SETUGT)
    case SETULE => Comparison(c.rhs, c.lhs, SETUGE)
    case SETLT => Comparison(c.rhs, c.lhs, SETGT)
    case SETLE => Comparison(c.rhs, c.lhs, SETGE)
    case _ => c
  }

  predicate IsLess(cc: CondCode) {
    cc.SETLT? || cc.SETLE? || cc.SETULT? || cc.SETULE?
  }

  /** Swaps its operands by reference for the four less-than codes and true is returned; any other comparison
      stays as it was. */
  method NegateCC<T>(lhs0: T, rhs0: T, cc0: CondCode) returns (changed: bool, lhs: T, rhs: T, cc: CondCode)
    ensures changed <==> IsLess(cc0)
    ensures changed ==> lhs == rhs0 && rhs == lhs0 && !IsLess(cc)
    ensures !changed ==> lhs == lhs0 && rhs == rhs0 && cc == cc0
    ensures Comparison(lhs, rhs, cc) == Negated(Comparison(lhs0, rhs0, cc0))
  {
    lhs, rhs, cc := lhs0, rhs0, cc0;
    match cc {
      case SETULT => cc := SETUGT;
      case SETULE => cc := SETUGE;
      case SETLT => cc := SETGT;
      case SETLE => cc := SETGE;
      case _ => return false, lhs, rhs, cc;
    }
    lhs, rhs := rhs, lhs;
    changed := true;
  }

  /** Greater in the order the code compares in. */
  predicate Above(cc: CondCode, a: Word, b: Word) {
    if cc.SETUGT? || cc.SETUGE? || cc.SETULT? || cc.SETULE? then a > b else Low64Signed(a) > Low64Signed(b)
  }

  /** LLVM builds the numbers from bits: 1 true on equal, 2 on greater, 4 on less; 8 for the unsigned comparisons,
      16 for the others. */
  lemma {:induction false} CodeBits(cc: CondCode, a: Word, b: Word)
    requires !cc.NotInteger?
    ensures var n := Number(cc);
            && n / 8 == (if cc.SETUGT? || cc.SETUGE? || cc.SETULT? || cc.SETULE? then 1 else 2)
            && (Compares(cc, a, b) <==> (n / (if a == b then 1 else if Above(cc, a, b) then 2 else 4)) % 2 == 1)
  {
    SignedOrder(a, b);
  }

  lemma SignedOrder(a: Word, b: Word)
    ensures Low64Signed(a) == Low64Signed(b) <==> a == b
  {
  }

  /** After NegateCC the code has a jump exactly when it was an integer comparison, so the fatal default of
      the Select expansion is out of reach; and the swapped comparison means the same. */
  lemma {:induction false} NegationSound(c: Comparison<Word>)
    requires ValidCode(c.cc)
    ensures var n := Negated(c); var cmp := CmpOfIsd(Number(n.cc));
            && (cmp.Some? <==> !c.cc.NotInteger?)
            && (cmp.Some? ==> Holds(cmp.value, n.lhs, n.rhs) == Compares(c.cc, c.lhs, c.rhs))
  {
    match c.cc
    case NotInteger(n) => assert Negated(c) == c;
    case _ =>
  }

  /** A constant in a register: by MOV_ri when it fits 32 bits, by LD_imm64 when not. */
  function LoadConstant(r: Reg, v: int): MInstr {
    var s := Low64Signed(v);
    MInstr(if FitsInt32(s) then MOV_ri else LD_imm64, [Use(r), Imm(s)])
  }

  /** An operand that has to be in a register: itself, or tmp with the constant put there. */
  function InRegister(x: Src, tmp: Reg): (Reg, seq<MInstr>) {
    match x
    case InReg(r) => (r, [])
    case Const(v) => (tmp, [LoadConstant(tmp, v)])
  }

  /** The comparison and jump: an immediate that fits 32 bits stays in the jump. */
  function JumpFor(cmp: Cmp, a: Reg, rhs: Src, tmp: Reg, dest: BlockId): seq<MInstr> {
    if rhs.Const? && FitsInt32(Low64Signed(rhs.v))
    then [MInstr(J_ri(cmp), [Use(a), Imm(Low64Signed(rhs.v)), MBB(dest)])]
    else InRegister(rhs, tmp).1 + [MInstr(J_rr(cmp), [Use(a), Use(InRegister(rhs, tmp).0), MBB(dest)])]
  }

  /** What LowerBR_CC's node is selected to; tmpL and tmpR are fresh. */
  function BranchFor(c: Comparison<Src>, dest: BlockId, tmpL: Reg, tmpR: Reg): seq<MInstr>
    requires CmpOfIsd(Number(Negated(c).cc)).Some?
  {
    var n := Negated(c);
    var (a, load) := InRegister(n.lhs, tmpL);
    load + JumpFor(CmpOfIsd(Number(n.cc)).value, a, n.rhs, tmpR, dest)
  }

  /** The Select pseudo LowerSELECT_CC's node is selected to. */
  function SelectFor(c: Comparison<Reg>, dst: Reg, yes: Reg, no: Reg): MInstr {
    var n := Negated(c);
    MInstr(Opcode.Select, [Use(dst), Use(n.lhs), Use(n.rhs), Imm(Number(n.cc)), Use(yes), Use(no)])
  }

  /** The registers once x has been put where InRegister says. */
  function Loaded(regs: Regs, x: Src, tmp: Reg): Regs {
    if x.Const? then regs[tmp := Wrap64(x.v)] else regs
  }

  lemma {:induction false} LoadRuns(e: Env, x: Src, tmp: Reg, m: Mach)
    ensures var (r, load) := InRegister(x, tmp);
            && RunList(e, load, m) == Fall(m.(regs := Loaded(m.regs, x, tmp)))
            && Get(Loaded(m.regs, x, tmp), r) == Value(m, x)
  {
    if x.Const? {
      var mi := LoadConstant(tmp, x.v);
      ExplicitAll(mi.ops);
      SignedWraps(x.v);
      assert [mi][1..] == [];
    }
  }

  lemma {:induction false} CompareRuns(e: Env, jump: MInstr, cmp: Cmp, a: Reg, x: Src, dest: BlockId, m: Mach)
    requires jump == match x
                     case InReg(r) => MInstr(J_rr(cmp), [Use(a), Use(r), MBB(dest)])
                     case Const(v) => MInstr(J_ri(cmp), [Use(a), Imm(v), MBB(dest)])
    ensures RunList(e, [jump], m) == if Holds(cmp, Get(m.regs, a), Value(m, x)) then Goto(dest, m) else Fall(m)
  {
    hide Explicit, Holds;
    ExplicitAll(jump.ops);
    assert [jump][1..] == [];
  }

  /** The right operand is put into tmp only when it does not fit the jump. */
  predicate NeedsRegister(x: Src) {
    x.Const? && !FitsInt32(Low64Signed(x.v))
  }

  lemma {:induction false} JumpRuns(e: Env, cmp: Cmp, a: Reg, rhs: Src, tmp: Reg, dest: BlockId, m: Mach)
    requires a != tmp
    ensures var m' := if NeedsRegister(rhs) then m.(regs := Loaded(m.regs, rhs, tmp)) else m;
            RunList(e, JumpFor(cmp, a, rhs, tmp, dest), m) ==
            if Holds(cmp, Get(m.regs, a), Value(m, rhs)) then Goto(dest, m') else Fall(m')
  {
    hide RunList, Holds, LoadConstant;
    if rhs.Const? && FitsInt32(Low64Signed(rhs.v)) {
      SignedWraps(rhs.v);
      CompareRuns(e, JumpFor(cmp, a, rhs, tmp, dest)[0], cmp, a, Const(Low64Signed(rhs.v)), dest, m);
    } else {
      var (b, load) := InRegister(rhs, tmp);
      var jump := MInstr(J_rr(cmp), [Use(a), Use(b), MBB(dest)]);
      LoadRuns(e, rhs, tmp, m);
      RunListAppend(e, load, [jump], m);
      CompareRuns(e, jump, cmp, a, InReg(b), dest, m.(regs := Loaded(m.regs, rhs, tmp)));
    }
  }

  lemma {:induction false} SelectDenotes(c: Comparison<Reg>, dst: Reg, yes: Reg, no: Reg)
    requires CmpOfIsd(Number(Negated(c).cc)).Some?
    ensures var n := Negated(c); var sel := SelectFor(c, dst, yes, no);
            && IsSupportedSelect(sel)
            && Denote(sel) == Some(Choose(dst, CmpOfIsd(Number(n.cc)).value, n.lhs, n.rhs, yes, no))
  {
    hide CmpOfIsd, Number, Negated, Explicit;
    ExplicitAll(SelectFor(c, dst, yes, no).ops);
  }

  /** The code chosen and the order of the operands do not depend on what the operands are. */
  lemma {:induction false} SameChoice<S, T>(c: Comparison<S>, w: Comparison<T>)
    requires c.cc == w.cc
    ensures Negated(c).cc == Negated(w).cc
    ensures (Negated(c).lhs == c.lhs && Negated(c).rhs == c.rhs && Negated(w) == w)
            || (Negated(c).lhs == c.rhs && Negated(c).rhs == c.lhs && Negated(w).lhs == w.rhs && Negated(w).rhs == w.lhs)
  {
  }

  /** A register the comparison does not mention. */
  predicate Fresh(c: Comparison<Src>, tmp: Reg) {
    c.lhs != InReg(tmp) && c.rhs != InReg(tmp)
  }

  /** For all ten integer codes and all operands, registers or constants on either side, the lowered branch is
      taken exactly when the source comparison holds; it changes nothing but the fresh registers, and those only
      when a constant goes into them. */
  lemma {:induction false} LoweredBranch(e: Env, m: Mach, c: Comparison<Src>, dest: BlockId, tmpL: Reg, tmpR: Reg)
    requires !c.cc.NotInteger? && tmpL != tmpR && Fresh(c, tmpL) && Fresh(c, tmpR)
    ensures CmpOfIsd(Number(Negated(c).cc)).Some?
    ensures var n := Negated(c);
            var regs := Loaded(m.regs, n.lhs, tmpL);
            var m' := m.(regs := if NeedsRegister(n.rhs) then Loaded(regs, n.rhs, tmpR) else regs);
            RunList(e, BranchFor(c, dest, tmpL, tmpR), m) ==
            if Compares(c.cc, Value(m, c.lhs), Value(m, c.rhs)) then Goto(dest, m') else Fall(m')
  {
    hide RunList, CmpOfIsd, Number, Holds, Negated, Compares, JumpFor;
    var w, n := Comparison(Value(m, c.lhs), Value(m, c.rhs), c.cc), Negated(c);
    NegationSound(w);
    SameChoice(c, w);
    var (a, load) := InRegister(n.lhs, tmpL);
    var m1 := m.(regs := Loaded(m.regs, n.lhs, tmpL));
    LoadRuns(e, n.lhs, tmpL, m);
    assert Value(m1, n.rhs) == Value(m, n.rhs);
    var cmp := CmpOfIsd(Number(n.cc)).value;
    RunListAppend(e, load, JumpFor(cmp, a, n.rhs, tmpR, dest), m);
    JumpRuns(e, cmp, a, n.rhs, tmpR, dest, m1);
  }

  /** A lowered select yields its true value exactly when the source comparison holds, and can be expanded. */
  lemma {:induction false} LoweredSelect(e: Env, m: Mach, c: Comparison<Reg>, dst: Reg, yes: Reg, no: Reg)
    requires !c.cc.NotInteger?
    ensures IsSupportedSelect(SelectFor(c, dst, yes, no))
    ensures var holds := Compares(c.cc, Get(m.regs, c.lhs), Get(m.regs, c.rhs));
            ExecMI(e, SelectFor(c, dst, yes, no), m) ==
              Next(m.(regs := m.regs[dst := Get(m.regs, if holds then yes else no)]))
  {
    hide Denote, CmpOfIsd, Number, IsSupportedSelect, Holds, Negated;
    var w := Comparison(Get(m.regs, c.lhs), Get(m.regs, c.rhs), c.cc);
    NegationSound(w);
    SameChoice(c, w);
    SelectDenotes(c, dst, yes, no);
  }

  // ----- what is emitted for constants -----

  /** Every instruction emitted can hold what it is given, and LD_imm64 is used only for what MOV_ri cannot hold. */
  ghost predicate Emittable(mi: MInstr, disp: int) {
    && Denote(mi).Some? && InRange(Placed(Denote(mi).value, disp))
    && (mi.opc.LD_imm64? ==> |mi.ops| == 2 && mi.ops[1].Imm? && !FitsInt32(mi.ops[1].v))
  }

  lemma {:induction false} LoadEmittable(r: Reg, v: int, disp: int)
    ensures Emittable(LoadConstant(r, v), disp)
  {
    ExplicitAll(LoadConstant(r, v).ops);
  }

  lemma {:induction false} JumpEmittable(cmp: Cmp, a: Reg, x: Src, dest: BlockId, disp: int)
    requires FitsInt16(disp) && (x.Const? ==> FitsInt32(x.v))
    ensures Emittable(match x
                      case InReg(r) => MInstr(J_rr(cmp), [Use(a), Use(r), MBB(dest)])
                      case Const(v) => MInstr(J_ri(cmp), [Use(a), Imm(v), MBB(dest)]), disp)
  {
    hide Explicit, FitsInt32;
    var jump := match x
      case InReg(r) => MInstr(J_rr(cmp), [Use(a), Use(r), MBB(dest)])
      case Const(v) => MInstr(J_ri(cmp), [Use(a), Imm(v), MBB(dest)]);
    ExplicitAll(jump.ops);
  }

  /** For all ten codes and all operands, the emitted branch fits its formats. */
  lemma {:induction false} BranchEmittable(c: Comparison<Src>, dest: BlockId, tmpL: Reg, tmpR: Reg, disp: int)
    requires !c.cc.NotInteger? && FitsInt16(disp)
    ensures CmpOfIsd(Number(Negated(c).cc)).Some?
    ensures forall mi :: mi in BranchFor(c, dest, tmpL, tmpR) ==> Emittable(mi, disp)
  {
    hide Emittable, LoadConstant, FitsInt32, Low64Signed;
    var n := Negated(c);
    var cmp := CmpOfIsd(Number(n.cc)).value;
    var (a, load) := InRegister(n.lhs, tmpL);
    forall mi | mi in BranchFor(c, dest, tmpL, tmpR) ensures Emittable(mi, disp) {
      if mi in load {
        LoadEmittable(tmpL, n.lhs.v, disp);
      } else if n.rhs.InReg? {
        JumpEmittable(cmp, a, n.rhs, dest, disp);
      } else if FitsInt32(Low64Signed(n.rhs.v)) {
        JumpEmittable(cmp, a, Const(Low64Signed(n.rhs.v)), dest, disp);
      } else {
        LoadEmittable(tmpR, n.rhs.v, disp);
        JumpEmittable(cmp, a, InReg(tmpR), dest, disp);
      }
    }
  }

  /** A register compared with a constant that fits 32 bits takes one instruction: as it stands under the six
      codes that have a jump, and with the constant on the left under the other four. */
  lemma {:induction false} OneJump(cc: CondCode, a: Reg, v: int, dest: BlockId, tmpL: Reg, tmpR: Reg)
    requires !cc.NotInteger? && FitsInt32(Low64Signed(v))
    ensures var c := if IsLess(cc) then Comparison(Const(v), InReg(a), cc) else Comparison(InReg(a), Const(v), cc);
            && CmpOfIsd(Number(Negated(c).cc)).Some?
            && (!IsLess(cc) ==> CmpOfIsd(Number(cc)).Some?)
            && exists cmp :: BranchFor(c, dest, tmpL, tmpR)
                             == [MInstr(J_ri(cmp), [Use(a), Imm(Low64Signed(v)), MBB(dest)])]
                             && (!IsLess(cc) ==> Some(cmp) == CmpOfIsd(Number(cc)))
  {
    var c := if IsLess(cc) then Comparison(Const(v), InReg(a), cc) else Comparison(InReg(a), Const(v), cc);
    var cmp := CmpOfIsd(Number(Negated(c).cc)).value;
    assert BranchFor(c, dest, tmpL, tmpR) == [MInstr(J_ri(cmp), [Use(a), Imm(Low64Signed(v)), MBB(dest)])];
  }

  /** And in every case: one jump, one instruction more for a constant that ends up on the left, one more for a
      constant on the right that does not fit 32 bits. */
  lemma {:induction false} BranchLength(c: Comparison<Src>, dest: BlockId, tmpL: Reg, tmpR: Reg)
    requires !c.cc.NotInteger?
    ensures CmpOfIsd(Number(Negated(c).cc)).Some?
    ensures var l := if IsLess(c.cc) then c.rhs else c.lhs;
            var r := if IsLess(c.cc) then c.lhs else c.rhs;
            |BranchFor(c, dest, tmpL, tmpR)|
            == 1 + (if l.Const? then 1 else 0) + (if r.Const? && !FitsInt32(Low64Signed(r.v)) then 1 else 0)
  {
  }
}
