/** Which instruction writes a register and where it is read, and that Select expansion leaves every read
    behind a write on all ways from the entry. */
module RegisterUses {
  import opened Words
  import opened Isa
  import opened Mir
  import opened Cfg
  import opened SelectExpansion
  import opened Dominance

  /** The opcodes whose operand 0 is their result. */
  predicate HasResult(opc: Opcode) {
    opc.ALU_rr? || opc.ALU_ri? || opc.MOV_rr? || opc.MOV_ri? || opc.LD_imm64? || opc.LD? || opc.XADD?
    || opc.Select? || opc.PHI?
  }

  predicate Writes(mi: MInstr, r: Isa.Reg) {
    HasResult(mi.opc) && mi.ops != [] && mi.ops[0].Reg? && mi.ops[0].r == r
  }

  /** Operand j of the instruction is read where the instruction stands.  A PHI reads elsewhere; implicit
      operands are physical registers; debug values are not uses. */
  predicate ReadsOperand(mi: MInstr, j: nat, r: Isa.Reg) {
    && j < |mi.ops| && mi.ops[j] == Use(r)
    && !(j == 0 && HasResult(mi.opc))
    && !mi.opc.PHI? && !mi.opc.DBG_VALUE?
  }

  ghost predicate Reads(mi: MInstr, r: Isa.Reg) {
    exists j: nat :: ReadsOperand(mi, j, r)
  }

  /** The pair at position i of the PHI takes r from block p. */
  predicate TakesFrom(mi: MInstr, i: nat, p: BlockId, r: Isa.Reg) {
    mi.opc.PHI? && i % 2 == 1 && i + 1 < |mi.ops| && mi.ops[i].Reg? && mi.ops[i].r == r && mi.ops[i + 1] == MBB(p)
  }

  ghost predicate PhiTakes(f: Func, t: BlockId, n: nat, i: nat, p: BlockId, r: Isa.Reg) {
    t in f.blocks && n < PhiCount(f.blocks[t].insts) && TakesFrom(f.blocks[t].insts[n], i, p, r)
  }

  ghost predicate DefAt(f: Func, d: Point, r: Isa.Reg) {
    d.b in f.blocks && d.i < |f.blocks[d.b].insts| && Writes(f.blocks[d.b].insts[d.i], r)
  }

  /** The instruction at u reads r, or u is the end of a block some PHI takes r from. */
  ghost predicate UseAt(f: Func, u: Point, r: Isa.Reg) {
    u.b in f.blocks &&
    var insts := f.blocks[u.b].insts;
    || (u.i < |insts| && Reads(insts[u.i], r))
    || (u.i == |insts| && exists t, n: nat, i: nat :: PhiTakes(f, t, n, i, u.b, r))
  }

  /** Every register read has a definition that comes first on all ways from the entry, except those given on
      entry or by calls: the physical ones. */
  ghost predicate UsesReached(f: Func, given: set<Isa.Reg>) {
    forall u, r :: UseAt(f, u, r) && r !in given ==> exists d :: DefAt(f, d, r) && Reaches(f, d, u)
  }

  // ----- one expansion -----

  /** The points of the expanded function that stand for the point u. */
  predicate Lands(b: BlockId, k: nat, c0: BlockId, c1: BlockId, u: Point, u': Point) {
    if u == Point(b, k) then u' == Point(b, k) || u' == Point(b, k + 1) || u' == Point(c0, 0)
    else u' == Moved(b, k, c1, u)
  }

  /** The code of every block after the expansion, instruction by instruction. */
  lemma {:induction false} OldInstruction(f: Func, b: BlockId, k: nat, c0: BlockId, c1: BlockId, x: BlockId, i: nat)
    requires Ready(f, b, k, c0, c1) && x in f.blocks && i < |f.blocks[x].insts| && (x == b ==> i < k)
    ensures var g := ExpandSelect(f, b, k, c0, c1); var mi := f.blocks[x].insts[i];
            && x in g.blocks && i < |g.blocks[x].insts|
            && PhiCount(g.blocks[x].insts) == PhiCount(f.blocks[x].insts)
            && g.blocks[x].insts[i] ==
               if x in f.blocks[b].succs && i < PhiCount(f.blocks[x].insts)
               then MInstr(PHI, RenameLabels(mi.ops, b, c1)) else mi
  {
    var cut, insts := CutInsts(f, b, k, c1, x), f.blocks[x].insts;
    OldBlock(f, b, k, c0, c1, x);
    RenamedBody(cut, b, c1);
    if x == b {
      assert BlockOk(f, b);
      SelectShape(insts, k, b, c0);
      PhiCountAppend(insts[..k], [SelectJump(insts[k], c1)]);
    }
  }

  lemma {:induction false} ExpandedSizes(f: Func, b: BlockId, k: nat, c0: BlockId, c1: BlockId)
    requires Ready(f, b, k, c0, c1)
    ensures var g := ExpandSelect(f, b, k, c0, c1); var insts := f.blocks[b].insts;
            && g.blocks.Keys == f.blocks.Keys + {c0, c1}
            && (forall x :: x in f.blocks && x != b ==> |g.blocks[x].insts| == |f.blocks[x].insts|)
            && |g.blocks[b].insts| == k + 1
            && PhiCount(g.blocks[b].insts) == PhiCount(insts) <= k
            && g.blocks[b].insts[k] == SelectJump(insts[k], c1)
            && g.blocks[c0].insts == []
            && g.blocks[c1].insts == [SelectPhi(insts[k], b, c0)] + insts[k + 1..]
            && PhiCount(g.blocks[c1].insts) == 1
  {
    var g, insts := ExpandSelect(f, b, k, c0, c1), f.blocks[b].insts;
    ExpandedSuccs(f, b, k, c0, c1);
    DiamondBlocks(f, b, k, c0, c1);
    forall x | x in f.blocks ensures |g.blocks[x].insts| == |CutInsts(f, b, k, c1, x)| {
      OldBlock(f, b, k, c0, c1, x);
    }
    assert BlockOk(f, b);
    NoTerminatorBefore(insts, k);
    SelectShape(insts, k, b, c0);
    var cut := CutInsts(f, b, k, c1, b);
    PhiCountAppend(insts[..k], [SelectJump(insts[k], c1)]);
    OldBlock(f, b, k, c0, c1, b);
    RenamedBody(cut, b, c1);
    assert g.blocks[c1].insts[1..] == insts[k + 1..];
  }

  lemma {:induction false} DefinitionMoves(f: Func, b: BlockId, k: nat, c0: BlockId, c1: BlockId, d: Point, r: Isa.Reg)
    requires Ready(f, b, k, c0, c1) && DefAt(f, d, r)
    ensures DefAt(ExpandSelect(f, b, k, c0, c1), Moved(b, k, c1, d), r)
  {
    hide ExpandSelect, WellFormed;
    ExpandedSizes(f, b, k, c0, c1);
    if d.b != b || d.i < k {
      OldInstruction(f, b, k, c0, c1, d.b, d.i);
    }
  }

  /** What an instruction of the expanded function reads was read by one of the original. */
  lemma {:induction false} ReadBack(f: Func, b: BlockId, k: nat, c0: BlockId, c1: BlockId, u': Point, r: Isa.Reg)
    returns (u: Point)
    requires Ready(f, b, k, c0, c1)
    requires var g := ExpandSelect(f, b, k, c0, c1);
             u'.b in g.blocks && u'.i < |g.blocks[u'.b].insts| && Reads(g.blocks[u'.b].insts[u'.i], r)
    ensures UseAt(f, u, r) && Lands(b, k, c0, c1, u, u')
  {
    hide ExpandSelect, WellFormed;
    ExpandedSizes(f, b, k, c0, c1);
    var g, insts := ExpandSelect(f, b, k, c0, c1), f.blocks[b].insts;
    var j: nat :| ReadsOperand(g.blocks[u'.b].insts[u'.i], j, r);
    if u'.b == c1 {
      u := Point(b, k + u'.i);
      assert insts[k + u'.i] == g.blocks[c1].insts[u'.i];
    } else if u' == Point(b, k) {
      u := u';
      assert ReadsOperand(insts[k], j + 1, r);
    } else {
      u := u';
      OldInstruction(f, b, k, c0, c1, u.b, u.i);
    }
  }

  /** PHIs take their registers from where the original ones did, and the new PHI from what the Select read. */
  lemma {:induction false} TakenBack(f: Func, b: BlockId, k: nat, c0: BlockId, c1: BlockId, u': Point, r: Isa.Reg,
                                     t: BlockId, n: nat, i: nat)
    returns (u: Point)
    requires Ready(f, b, k, c0, c1)
    requires var g := ExpandSelect(f, b, k, c0, c1);
             u'.b in g.blocks && u'.i == |g.blocks[u'.b].insts| && PhiTakes(g, t, n, i, u'.b, r)
    ensures UseAt(f, u, r) && Lands(b, k, c0, c1, u, u')
  {
    hide ExpandSelect, WellFormed, BlockOk;
    ExpandedSizes(f, b, k, c0, c1);
    var insts := f.blocks[b].insts;
    if t == c1 {
      u := Point(b, k);
      assert ReadsOperand(insts[k], if i == 1 then 5 else 4, r);
    } else {
      var p := OldTaken(f, b, k, c0, c1, u'.b, r, t, n, i);
      u := Point(p, |f.blocks[p].insts|);
      assert PhiTakes(f, t, n, i, p, r);
    }
  }

  /** The PHI of an old block: its label was the split block where it is copy1 now, and is unchanged elsewhere. */
  lemma {:induction false} OldTaken(f: Func, b: BlockId, k: nat, c0: BlockId, c1: BlockId, p': BlockId, r: Isa.Reg,
                                    t: BlockId, n: nat, i: nat)
    returns (p: BlockId)
    requires Ready(f, b, k, c0, c1) && t in f.blocks
    requires var g := ExpandSelect(f, b, k, c0, c1); p' in g.blocks && PhiTakes(g, t, n, i, p', r)
    ensures p in f.blocks && PhiTakes(f, t, n, i, p, r) && p' != c0 && (if p' == c1 then p == b else p == p' && p != b)
  {
    hide ExpandSelect;
    ExpandedSizes(f, b, k, c0, c1);
    FreshUnmentioned(f, t, c0);
    FreshUnmentioned(f, t, c1);
    SameCount(f, b, k, c0, c1, t);
    OldInstruction(f, b, k, c0, c1, t, n);
    var mi := f.blocks[t].insts[n];
    PhiCountIsPhi(f.blocks[t].insts, n);
    assert NoLabel(mi.ops, c0) && NoLabel(mi.ops, c1);
    p := if p' == c1 then b else p';
    if mi.ops[i + 1] == MBB(b) {
      TakenFromPred(f, t, n, i, b, r);
    }
  }

  lemma {:induction false} TakenFromPred(f: Func, t: BlockId, n: nat, i: nat, p: BlockId, r: Isa.Reg)
    requires WellFormed(f) && PhiTakes(f, t, n, i, p, r)
    ensures p in f.blocks && t in f.blocks[p].succs
  {
    assert BlockOk(f, t);
    var ops := f.blocks[t].insts[n].ops;
    assert PhiOk(ops, Preds(f, t)) && ops[i + 1] == MBB(p);
    assert p in Preds(f, t);
  }

  lemma {:induction false} SameCount(f: Func, b: BlockId, k: nat, c0: BlockId, c1: BlockId, t: BlockId)
    requires Ready(f, b, k, c0, c1) && t in f.blocks
    ensures var g := ExpandSelect(f, b, k, c0, c1);
            t in g.blocks && PhiCount(g.blocks[t].insts) == PhiCount(f.blocks[t].insts)
  {
    if t == b {
      ExpandedSizes(f, b, k, c0, c1);
    } else {
      OldBlock(f, b, k, c0, c1, t);
      RenamedBody(f.blocks[t].insts, b, c1);
    }
  }

  /** A register read after the expansion was read before it, at the same place or at the Select. */
  lemma {:induction false} UseBack(f: Func, b: BlockId, k: nat, c0: BlockId, c1: BlockId, u': Point, r: Isa.Reg)
    returns (u: Point)
    requires Ready(f, b, k, c0, c1)
    ensures UseAt(ExpandSelect(f, b, k, c0, c1), u', r) ==> UseAt(f, u, r) && Lands(b, k, c0, c1, u, u')
  {
    hide ExpandSelect, WellFormed, PhiTakes, Reads;
    var g := ExpandSelect(f, b, k, c0, c1);
    if !UseAt(g, u', r) {
      u := u';
    } else if u'.i < |g.blocks[u'.b].insts| {
      u := ReadBack(f, b, k, c0, c1, u', r);
    } else {
      var t, n: nat, i: nat :| PhiTakes(g, t, n, i, u'.b, r);
      u := TakenBack(f, b, k, c0, c1, u', r, t, n, i);
    }
  }

  /** If every register read had its definition in front of it, it still has, jump and PHIs included. */
  lemma {:induction false} UsesStillReached(f: Func, b: BlockId, k: nat, c0: BlockId, c1: BlockId, given: set<Isa.Reg>)
    requires Ready(f, b, k, c0, c1) && UsesReached(f, given)
    ensures UsesReached(ExpandSelect(f, b, k, c0, c1), given)
  {
    hide ExpandSelect, WellFormed, Reaches, UseAt, DefAt;
    var g := ExpandSelect(f, b, k, c0, c1);
    forall u', r | UseAt(g, u', r) && r !in given ensures exists d' :: DefAt(g, d', r) && Reaches(g, d', u') {
      var u := UseBack(f, b, k, c0, c1, u', r);
      var d :| DefAt(f, d, r) && Reaches(f, d, u);
      InFunction(f, d, u, r);
      DefinitionMoves(f, b, k, c0, c1, d, r);
      DefinitionsStillReach(f, b, k, c0, c1, d, u);
      assert DefAt(g, Moved(b, k, c1, d), r);
    }
  }

  lemma InFunction(f: Func, d: Point, u: Point, r: Isa.Reg)
    requires DefAt(f, d, r) && UseAt(f, u, r)
    ensures d.b in f.blocks && u.b in f.blocks
  {
  }
}
