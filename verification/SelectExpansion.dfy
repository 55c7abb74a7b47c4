/** Expansion of the Select pseudo into a control-flow diamond (EmitInstrWithCustomInserter), as a
    function on machine functions, with the proofs that runs and well-formedness survive it.  Module
    MachineBlocks performs it in place. */
module SelectExpansion {
  import opened Words
  import opened Isa
  import opened Mir
  import opened Cfg

  // ----- the transformation -----

  /** The block operands of a PHI sit at the even positions. */
  function RenameLabels(ops: seq<Operand>, from: BlockId, to: BlockId): seq<Operand> {
    seq(|ops|, j requires 0 <= j < |ops| => if j % 2 == 0 && j > 0 && ops[j] == MBB(from) then MBB(to) else ops[j])
  }

  /** The PHIs at the head of a block with predecessor `from` renamed to `to`. */
  function RenamePhis(insts: seq<MInstr>, from: BlockId, to: BlockId): (r: seq<MInstr>)
    ensures |r| == |insts|
  {
    if insts == [] || !insts[0].opc.PHI? then insts
    else [MInstr(PHI, RenameLabels(insts[0].ops, from, to))] + RenamePhis(insts[1..], from, to)
  }

  function InsertAfter(layout: seq<BlockId>, b: BlockId, added: seq<BlockId>): seq<BlockId> {
    if layout == [] then []
    else if layout[0] == b then [b] + added + layout[1..]
    else [layout[0]] + InsertAfter(layout[1..], b, added)
  }

  /** A Select whose operands are in order and whose condition has a jump. */
  predicate IsSelect(mi: MInstr) {
    && mi.opc.Select?
    && |mi.ops| == 6
    && (forall i :: 0 <= i < 6 && i != 3 ==> mi.ops[i].Reg? && !mi.ops[i].implicit)
    && mi.ops[3].Imm?
  }

  predicate IsSupportedSelect(mi: MInstr) {
    IsSelect(mi) && CmpOfIsd(mi.ops[3].v).Some?
  }

  function SelectJump(sel: MInstr, c1: BlockId): MInstr
    requires IsSupportedSelect(sel)
  {
    MInstr(J_rr(CmpOfIsd(sel.ops[3].v).value), [Use(sel.ops[1].r), Use(sel.ops[2].r), MBB(c1)])
  }

  /** The result PHI: the false value (operand 5) from copy0, the true value (operand 4) from the split block. */
  function SelectPhi(sel: MInstr, b: BlockId, c0: BlockId): MInstr
    requires IsSelect(sel)
  {
    MInstr(PHI, [Use(sel.ops[0].r), Use(sel.ops[5].r), MBB(c0), Use(sel.ops[4].r), MBB(b)])
  }

  predicate CanExpand(f: Func, b: BlockId, k: nat) {
    b in f.blocks && k < |f.blocks[b].insts| && IsSupportedSelect(f.blocks[b].insts[k])
  }

  function ExpandedBlocks(f: Func, b: BlockId, k: nat, c0: BlockId, c1: BlockId): map<BlockId, Block>
    requires CanExpand(f, b, k)
  {
    var blk := f.blocks[b];
    var sel := blk.insts[k];
    f.blocks[b := Block(blk.insts[..k] + [SelectJump(sel, c1)], [c0, c1])]
            [c0 := Block([], [c1])]
            [c1 := Block([SelectPhi(sel, b, c0)] + blk.insts[k + 1..], blk.succs)]
  }

  /** Block b is cut after its k-th instruction, the Select; c0 and c1 are the new blocks. */
  function ExpandSelect(f: Func, b: BlockId, k: nat, c0: BlockId, c1: BlockId): Func
    requires CanExpand(f, b, k)
  {
    var succs := f.blocks[b].succs;
    var blocks := ExpandedBlocks(f, b, k, c0, c1);
    Func(InsertAfter(f.layout, b, [c0, c1]),
         map x | x in blocks ::
           if x in succs && x != c1
           then blocks[x].(insts := RenamePhis(blocks[x].insts, b, c1))
           else blocks[x])
  }

  /** The successor lists of the expanded function. */
  lemma {:induction false} ExpandedSuccs(f: Func, b: BlockId, k: nat, c0: BlockId, c1: BlockId)
    requires CanExpand(f, b, k) && c0 != c1 && c0 !in f.blocks && c1 !in f.blocks
    ensures var g := ExpandSelect(f, b, k, c0, c1);
            && g.blocks.Keys == f.blocks.Keys + {c0, c1}
            && (forall y :: y in f.blocks && y != b ==> g.blocks[y].succs == f.blocks[y].succs)
            && g.blocks[b].succs == [c0, c1]
            && g.blocks[c0].succs == [c1]
            && g.blocks[c1].succs == f.blocks[b].succs
  {
    var g := ExpandSelect(f, b, k, c0, c1);
    assert g.blocks.Keys == ExpandedBlocks(f, b, k, c0, c1).Keys;
  }

  // ----- layout -----

  lemma {:induction false} InsertAfterElements(layout: seq<BlockId>, b: BlockId, added: seq<BlockId>)
    ensures forall x :: x in InsertAfter(layout, b, added) <==> x in layout || (b in layout && x in added)
  {
    if layout != [] && layout[0] != b {
      InsertAfterElements(layout[1..], b, added);
      assert layout == [layout[0]] + layout[1..];
    } else if layout != [] {
      assert layout == [b] + layout[1..];
    }
  }

  lemma {:induction false} InsertAfterDistinct(layout: seq<BlockId>, b: BlockId, c0: BlockId, c1: BlockId)
    requires Distinct(layout) && c0 != c1 && c0 !in layout && c1 !in layout
    ensures Distinct(InsertAfter(layout, b, [c0, c1]))
  {
    if layout != [] {
      var rest := layout[1..];
      if layout[0] == b {
        var r := [b] + [c0, c1] + rest;
        assert r[3..] == rest;
      } else {
        var r := InsertAfter(rest, b, [c0, c1]);
        InsertAfterDistinct(rest, b, c0, c1);
        InsertAfterElements(rest, b, [c0, c1]);
        assert layout[0] !in rest;
        assert layout[0] !in [c0, c1];
        assert layout[0] !in r;
        assert InsertAfter(layout, b, [c0, c1]) == [layout[0]] + r;
      }
    }
  }

  /** What follows each block once c0 and c1 stand right after b. */
  lemma {:induction false} InsertedNext(layout: seq<BlockId>, b: BlockId, c0: BlockId, c1: BlockId, x: BlockId)
    requires Distinct(layout) && b in layout && c0 != c1 && c0 !in layout && c1 !in layout
    ensures var l := InsertAfter(layout, b, [c0, c1]);
            && LayoutNext(l, b) == Some(c0)
            && LayoutNext(l, c0) == Some(c1)
            && LayoutNext(l, c1) == LayoutNext(layout, b)
            && (x != b && x != c0 && x != c1 ==> LayoutNext(l, x) == LayoutNext(layout, x))
  {
    var rest := layout[1..];
    var l := InsertAfter(layout, b, [c0, c1]);
    if layout[0] == b {
      var l1, l2 := [c0, c1] + rest, [c1] + rest;
      assert l[1..] == l1 && l1[1..] == l2 && l2[1..] == rest;
      assert LayoutNext(l, c1) == LayoutNext(l1, c1) == LayoutNext(l2, c1);
      assert LayoutNext(l2, c1) == if rest == [] then None else Some(rest[0]);
      if x != b && x != c0 && x != c1 {
        assert LayoutNext(l, x) == LayoutNext(l1, x) == LayoutNext(l2, x) == LayoutNext(rest, x);
      }
    } else {
      InsertedNext(rest, b, c0, c1, x);
      assert l[1..] == InsertAfter(rest, b, [c0, c1]);
    }
  }

  // ----- PHIs -----

  ghost predicate NoLabel(ops: seq<Operand>, to: BlockId) {
    forall i :: 0 < i < |ops| && i % 2 == 0 ==> ops[i] != MBB(to)
  }

  ghost predicate NoLabels(insts: seq<MInstr>, to: BlockId) {
    forall i :: 0 <= i < PhiCount(insts) ==> NoLabel(insts[i].ops, to)
  }

  lemma {:induction false} RenamedSource(ops: seq<Operand>, from: BlockId, to: BlockId, pred: BlockId, i: nat)
    requires NoLabel(ops, to) && i % 2 == 1 && pred != to
    ensures var r := RenameLabels(ops, from, to);
            PhiSource(r, if pred == from then to else pred, i) == PhiSource(ops, pred, i)
    decreases |ops| - i
  {
    if i + 1 < |ops| {
      RenamedSource(ops, from, to, pred, i + 2);
    }
  }

  lemma {:induction false} RenamedPhis(insts: seq<MInstr>, from: BlockId, to: BlockId, pred: BlockId,
                                       before: Regs, regs: Regs)
    requires NoLabels(insts, to) && pred != to
    ensures ResolvePhis(RenamePhis(insts, from, to), if pred == from then to else pred, before, regs)
            == ResolvePhis(insts, pred, before, regs)
  {
    if insts != [] && insts[0].opc.PHI? {
      var ops := insts[0].ops;
      var r := RenamePhis(insts, from, to);
      assert r[1..] == RenamePhis(insts[1..], from, to);
      assert NoLabel(insts[0].ops, to);
      assert NoLabels(insts[1..], to) by {
        assert forall i :: 0 <= i < PhiCount(insts[1..]) ==> insts[1..][i] == insts[i + 1];
      }
      RenamedSource(ops, from, to, pred, 1);
      if |ops| > 0 && ops[0].Reg? && PhiSource(ops, pred, 1).Some? {
        var v := Get(before, PhiSource(ops, pred, 1).value);
        RenamedPhis(insts[1..], from, to, pred, before, regs[ops[0].r := v]);
      }
    }
  }

  lemma {:induction false} RenamedBody(insts: seq<MInstr>, from: BlockId, to: BlockId)
    ensures var r := RenamePhis(insts, from, to);
            && PhiCount(r) == PhiCount(insts)
            && Body(r) == Body(insts)
            && (forall i :: 0 <= i < PhiCount(insts) ==>
                  r[i] == MInstr(PHI, RenameLabels(insts[i].ops, from, to)))
            && (forall i :: PhiCount(insts) <= i < |insts| ==> r[i] == insts[i])
  {
    if insts != [] && insts[0].opc.PHI? {
      var r := RenamePhis(insts, from, to);
      assert r[1..] == RenamePhis(insts[1..], from, to);
      RenamedBody(insts[1..], from, to);
    }
  }

  // ----- the setting all the proofs share -----

  ghost predicate Ready(f: Func, b: BlockId, k: nat, c0: BlockId, c1: BlockId) {
    && WellFormed(f)
    && CanExpand(f, b, k)
    && c0 != c1 && c0 !in f.blocks && c1 !in f.blocks
  }

  /** Nothing in a well-formed function mentions a block that is not there. */
  lemma {:induction false} FreshUnmentioned(f: Func, x: BlockId, c: BlockId)
    requires WellFormed(f) && x in f.blocks && c !in f.blocks
    ensures NoLabels(f.blocks[x].insts, c)
    ensures c !in f.blocks[x].succs
    ensures c !in f.layout
  {
    var insts := f.blocks[x].insts;
    assert BlockOk(f, x);
    forall i | 0 <= i < PhiCount(insts) ensures NoLabel(insts[i].ops, c) {
      assert PhiOk(insts[i].ops, Preds(f, x));
      assert c !in Preds(f, x);
    }
    assert c !in Elements(f.blocks[x].succs);
    assert c !in Elements(f.layout);
  }

  /** Where a block's code can jump is among its successors. */
  lemma {:induction false} ExitIsSuccessor(e: Env, f: Func, b: BlockId, insts: seq<MInstr>, m: Mach)
    requires WellFormed(f) && b in f.blocks
    requires Targets(insts) == Targets(f.blocks[b].insts)
    ensures var x := RunList(e, insts, m); x.Goto? ==> x.target in f.blocks[b].succs
  {
    ExitsWithinTargets(e, insts, m);
    assert BlockOk(f, b);
    var x := RunList(e, insts, m);
    if x.Goto? {
      assert x.target in Elements(f.blocks[b].succs);
    }
  }

  /** In a block of good shape the code before a Select has no terminator. */
  lemma {:induction false} NoTerminatorBefore(insts: seq<MInstr>, k: nat)
    requires BlockShape(insts) && k < |insts| && insts[k].opc.Select?
    ensures forall i :: 0 <= i <= k ==> !IsTerminator(insts[i])
    ensures PhiCount(insts) <= k
  {
    if PhiCount(insts) > k {
      PhiCountIsPhi(insts, k);
      assert false;
    }
  }

  lemma {:induction false} SelectShape(insts: seq<MInstr>, k: nat, b: BlockId, c0: BlockId)
    requires BlockShape(insts) && k < |insts| && IsSelect(insts[k])
    ensures PhiCount(insts[..k]) == PhiCount(insts)
    ensures Body(insts) == Body(insts[..k]) + [insts[k]] + insts[k + 1..]
    ensures PhiCount(insts[k + 1..]) == 0
    ensures Body([SelectPhi(insts[k], b, c0)] + insts[k + 1..]) == insts[k + 1..]
  {
    hide IsTerminator;
    NoTerminatorBefore(insts, k);
    var head, tail := insts[..k], insts[k + 1..];
    assert insts == head + ([insts[k]] + tail);
    PhiCountAppend(head, [insts[k]] + tail);
    if tail != [] {
      assert tail[0] == insts[k + 1];
    }
    assert ([SelectPhi(insts[k], b, c0)] + tail)[1..] == tail;
  }

  // ----- simulation -----

  /** The code of an old block in the expanded function, before successor PHIs are renamed. */
  function CutInsts(f: Func, b: BlockId, k: nat, c1: BlockId, t: BlockId): seq<MInstr>
    requires CanExpand(f, b, k) && t in f.blocks
  {
    var insts := f.blocks[t].insts;
    if t == b then insts[..k] + [SelectJump(insts[k], c1)] else insts
  }

  lemma {:induction false} CutPhis(insts: seq<MInstr>, k: nat, c1: BlockId, pred: BlockId, regs: Regs)
    requires BlockShape(insts) && k < |insts| && IsSupportedSelect(insts[k]) && NoLabels(insts, c1)
    ensures var cut := insts[..k] + [SelectJump(insts[k], c1)];
            NoLabels(cut, c1) && ResolvePhis(cut, pred, regs, regs) == ResolvePhis(insts, pred, regs, regs)
  {
    hide ResolvePhis, CmpOfIsd, NoLabels;
    var jump, rest := SelectJump(insts[k], c1), [insts[k]] + insts[k + 1..];
    assert insts == insts[..k] + rest;
    PhisOfPrefix(insts[..k], rest, pred, regs, regs);
    PhisOfPrefix(insts[..k], [jump], pred, regs, regs);
    CutLabels(insts, k, jump, c1);
  }

  lemma {:induction false} CutLabels(insts: seq<MInstr>, k: nat, jump: MInstr, c1: BlockId)
    requires BlockShape(insts) && k < |insts| && IsSelect(insts[k]) && NoLabels(insts, c1) && !jump.opc.PHI?
    ensures NoLabels(insts[..k] + [jump], c1)
  {
    hide NoLabel;
    SelectShape(insts, k, 0, 1);
    PhiCountAppend(insts[..k], [jump]);
    var cut := insts[..k] + [jump];
    assert forall i :: 0 <= i < PhiCount(cut) ==> cut[i] == insts[i];
  }

  lemma {:induction false} OldBlock(f: Func, b: BlockId, k: nat, c0: BlockId, c1: BlockId, t: BlockId)
    requires CanExpand(f, b, k) && t in f.blocks && t != c0 && t != c1
    ensures var g := ExpandSelect(f, b, k, c0, c1);
            var cut := CutInsts(f, b, k, c1, t);
            && t in g.blocks
            && g.blocks[t].insts == if t in f.blocks[b].succs then RenamePhis(cut, b, c1) else cut
  {
  }

  /** The code of an old block without its labels renamed resolves its PHIs as before. */
  lemma {:induction false} CutResolves(f: Func, b: BlockId, k: nat, c0: BlockId, c1: BlockId,
                                       pred: BlockId, t: BlockId, regs: Regs)
    requires Ready(f, b, k, c0, c1) && t in f.blocks
    ensures var cut := CutInsts(f, b, k, c1, t);
            NoLabels(cut, c1) && ResolvePhis(cut, pred, regs, regs) == ResolvePhis(f.blocks[t].insts, pred, regs, regs)
  {
    hide ResolvePhis, NoLabels;
    FreshUnmentioned(f, t, c1);
    if t == b {
      assert BlockOk(f, b);
      CutPhis(f.blocks[b].insts, k, c1, pred, regs);
    }
  }

  /** Entering a listed successor: the PHIs find the old value under the new label. */
  lemma {:induction false} EnterListed(f: Func, b: BlockId, k: nat, c0: BlockId, c1: BlockId,
                                       pred: BlockId, t: BlockId, m: Mach)
    requires Ready(f, b, k, c0, c1) && pred in f.blocks && t in f.blocks
    requires pred == b ==> t in f.blocks[b].succs
    ensures Enter(ExpandSelect(f, b, k, c0, c1), if pred == b then c1 else pred, t, m) == Enter(f, pred, t, m)
  {
    hide ResolvePhis, NoLabels, WellFormed, CutInsts, ExpandSelect;
    CutResolves(f, b, k, c0, c1, pred, t, m.regs);
    OldBlock(f, b, k, c0, c1, t);
    RenamedPhis(CutInsts(f, b, k, c1, t), b, c1, pred, m.regs, m.regs);
  }

  lemma {:induction false} UnlabelledSource(ops: seq<Operand>, p: BlockId, i: nat)
    requires NoLabel(ops, p) && i % 2 == 1
    ensures PhiSource(ops, p, i) == None
    decreases |ops| - i
  {
    if i + 1 < |ops| {
      UnlabelledSource(ops, p, i + 2);
    }
  }

  /** PHIs that name neither of two blocks do not tell them apart. */
  lemma {:induction false} UnlabelledPhis(insts: seq<MInstr>, p: BlockId, q: BlockId, before: Regs, regs: Regs)
    requires NoLabels(insts, p) && NoLabels(insts, q)
    ensures ResolvePhis(insts, p, before, regs) == ResolvePhis(insts, q, before, regs)
  {
    if insts != [] && insts[0].opc.PHI? {
      assert NoLabel(insts[0].ops, p) && NoLabel(insts[0].ops, q);
      UnlabelledSource(insts[0].ops, p, 1);
      UnlabelledSource(insts[0].ops, q, 1);
    }
  }

  /** A block that does not list t is not named by the PHIs of t. */
  lemma {:induction false} UnlistedUnlabelled(f: Func, b: BlockId, t: BlockId)
    requires WellFormed(f) && b in f.blocks && t in f.blocks && t !in f.blocks[b].succs
    ensures NoLabels(f.blocks[t].insts, b)
  {
    var insts := f.blocks[t].insts;
    assert BlockOk(f, t);
    forall i | 0 <= i < PhiCount(insts) ensures NoLabel(insts[i].ops, b) {
      assert PhiOk(insts[i].ops, Preds(f, t));
      assert b !in Preds(f, t);
    }
  }

  /** Falling into a block that is not listed: its PHIs know neither the split block nor copy1. */
  lemma {:induction false} EnterUnlisted(f: Func, b: BlockId, k: nat, c0: BlockId, c1: BlockId, t: BlockId, m: Mach)
    requires Ready(f, b, k, c0, c1) && t in f.blocks && t !in f.blocks[b].succs
    ensures Enter(ExpandSelect(f, b, k, c0, c1), c1, t, m) == Enter(f, b, t, m)
  {
    hide ResolvePhis, NoLabels, WellFormed, CutInsts, ExpandSelect;
    CutResolves(f, b, k, c0, c1, c1, t, m.regs);
    OldBlock(f, b, k, c0, c1, t);
    FreshUnmentioned(f, t, c1);
    UnlistedUnlabelled(f, b, t);
    UnlabelledPhis(f.blocks[t].insts, b, c1, m.regs, m.regs);
  }

  /** Entering a block other than the new ones does the same in both functions. */
  lemma {:induction false} EnterExpanded(f: Func, b: BlockId, k: nat, c0: BlockId, c1: BlockId,
                                         pred: BlockId, t: BlockId, m: Mach)
    requires Ready(f, b, k, c0, c1)
    requires pred in f.blocks && t in f.blocks
    ensures Enter(ExpandSelect(f, b, k, c0, c1), if pred == b then c1 else pred, t, m) == Enter(f, pred, t, m)
  {
    hide Enter, WellFormed, ExpandSelect;
    if pred == b && t !in f.blocks[b].succs {
      EnterUnlisted(f, b, k, c0, c1, t, m);
    } else {
      EnterListed(f, b, k, c0, c1, pred, t, m);
    }
  }

  /** Leaving an unsplit block, or the end of the split one, takes both functions to the same state. */
  lemma {:induction false} LeavingExpanded(f: Func, b: BlockId, k: nat, c0: BlockId, c1: BlockId, x: BlockId, ex: Exit)
    requires Ready(f, b, k, c0, c1) && x in f.blocks
    requires ex.Goto? ==> ex.target in f.blocks[x].succs
    ensures Leaving(ExpandSelect(f, b, k, c0, c1), if x == b then c1 else x, ex) == Leaving(f, x, ex)
  {
    hide Enter;
    var g := ExpandSelect(f, b, k, c0, c1);
    FreshUnmentioned(f, x, c0);
    FreshUnmentioned(f, x, c1);
    assert b in Elements(f.layout);
    InsertedNext(f.layout, b, c0, c1, x);
    assert Elements(f.blocks[x].succs) <= f.blocks.Keys;
    if ex.Goto? {
      assert ex.target in Elements(f.blocks[x].succs);
      EnterExpanded(f, b, k, c0, c1, x, ex.target, ex.m);
    } else if ex.Fall? && LayoutNext(f.layout, x).Some? {
      var n := LayoutNext(f.layout, x).value;
      NextLaidOut(f.layout, x);
      assert n in Elements(f.layout);
      EnterExpanded(f, b, k, c0, c1, x, n, ex.m);
    }
  }

  /** A block that is not split takes one step in both functions. */
  lemma {:induction false} StepOther(e: Env, f: Func, b: BlockId, k: nat, c0: BlockId, c1: BlockId, s: State)
    requires Ready(f, b, k, c0, c1)
    requires s.At? ==> s.b in f.blocks && s.b != b
    ensures Step(e, ExpandSelect(f, b, k, c0, c1), s) == Step(e, f, s)
  {
    if s.At? {
      var g := ExpandSelect(f, b, k, c0, c1);
      var insts := f.blocks[s.b].insts;
      RenamedBody(insts, b, c1);
      assert Body(g.blocks[s.b].insts) == Body(insts);
      ExitsWithinTargets(e, Body(insts), s.m);
      BodyExit(e, f, s.b, s.m);
      LeavingExpanded(f, b, k, c0, c1, s.b, RunList(e, Body(insts), s.m));
    }
  }

  lemma {:induction false} BodyExit(e: Env, f: Func, x: BlockId, m: Mach)
    requires WellFormed(f) && x in f.blocks
    ensures var ex := RunList(e, Body(f.blocks[x].insts), m); ex.Goto? ==> ex.target in f.blocks[x].succs
  {
    var insts := f.blocks[x].insts;
    forall i | 0 <= i < PhiCount(insts) ensures insts[i].opc.PHI? {
      PhiCountIsPhi(insts, i);
    }
    DropStraightLine(insts, PhiCount(insts));
    ExitIsSuccessor(e, f, x, Body(insts), m);
  }

  /** How many steps the expanded function takes for one step of the original. */
  function StepCost(e: Env, f: Func, b: BlockId, k: nat, s: State): nat
    requires CanExpand(f, b, k)
  {
    if s.At? && s.b == b then
      var sel := f.blocks[b].insts[k];
      match RunList(e, Body(f.blocks[b].insts[..k]), s.m)
      case Fall(m) =>
        if Holds(CmpOfIsd(sel.ops[3].v).value, Get(m.regs, sel.ops[1].r), Get(m.regs, sel.ops[2].r)) then 2 else 3
      case _ => 1
    else 1
  }

  /** The three blocks of the diamond. */
  lemma {:induction false} DiamondBlocks(f: Func, b: BlockId, k: nat, c0: BlockId, c1: BlockId)
    requires Ready(f, b, k, c0, c1)
    ensures var g := ExpandSelect(f, b, k, c0, c1);
            var insts := f.blocks[b].insts;
            && b in g.blocks && c0 in g.blocks && c1 in g.blocks
            && Body(g.blocks[b].insts) == Body(insts[..k]) + [SelectJump(insts[k], c1)]
            && g.blocks[c0].insts == []
            && g.blocks[c1].insts == [SelectPhi(insts[k], b, c0)] + insts[k + 1..]
            && LayoutNext(g.layout, b) == Some(c0)
            && LayoutNext(g.layout, c0) == Some(c1)
  {
    var insts := f.blocks[b].insts;
    FreshUnmentioned(f, b, c0);
    FreshUnmentioned(f, b, c1);
    assert b in Elements(f.layout);
    InsertedNext(f.layout, b, c0, c1, b);
    var jump := SelectJump(insts[k], c1);
    PhiCountAppend(insts[..k], [jump]);
    RenamedBody(insts[..k] + [jump], b, c1);
  }

  lemma {:induction false} SelectDenotes(sel: MInstr, c1: BlockId)
    requires IsSupportedSelect(sel)
    ensures var cc := CmpOfIsd(sel.ops[3].v).value;
            var o := sel.ops;
            && Denote(sel) == Some(Choose(o[0].r, cc, o[1].r, o[2].r, o[4].r, o[5].r))
            && Denote(SelectJump(sel, c1)) == Some(BranchIf(cc, o[1].r, InReg(o[2].r), c1))
  {
    hide CmpOfIsd, Explicit;
    ExplicitAll(sel.ops);
    ExplicitAll(SelectJump(sel, c1).ops);
  }

  /** The Select and the jump that replaces it test the same condition. */
  lemma {:induction false} SelectMeaning(e: Env, sel: MInstr, c1: BlockId, m: Mach)
    requires IsSupportedSelect(sel)
    ensures var yes := Holds(CmpOfIsd(sel.ops[3].v).value, Get(m.regs, sel.ops[1].r), Get(m.regs, sel.ops[2].r));
            && ExecMI(e, sel, m) ==
                 Next(m.(regs := m.regs[sel.ops[0].r := Get(m.regs, sel.ops[if yes then 4 else 5].r)]))
            && RunList(e, [SelectJump(sel, c1)], m) == if yes then Goto(c1, m) else Fall(m)
  {
    SelectDenotes(sel, c1);
    assert [SelectJump(sel, c1)][1..] == [];
  }

  /** Entering copy1 writes the PHI's choice and nothing else. */
  lemma {:induction false} EnterCopy1(g: Func, sel: MInstr, b: BlockId, c0: BlockId, c1: BlockId, pred: BlockId, m: Mach)
    requires IsSelect(sel) && b != c0 && (pred == b || pred == c0)
    requires c1 in g.blocks && |g.blocks[c1].insts| > 0 && g.blocks[c1].insts[0] == SelectPhi(sel, b, c0)
    requires PhiCount(g.blocks[c1].insts[1..]) == 0
    ensures Enter(g, pred, c1, m) ==
            At(c1, m.(regs := m.regs[sel.ops[0].r := Get(m.regs, sel.ops[if pred == b then 4 else 5].r)]))
  {
    PhiReadsBoth(SelectPhi(sel, b, c0).ops, sel, b, c0);
    var ops := SelectPhi(sel, b, c0).ops;
    assert ops[0].r == sel.ops[0].r;
    var v := Get(m.regs, sel.ops[if pred == b then 4 else 5].r);
    var rest := g.blocks[c1].insts[1..];
    assert ResolvePhis(rest, pred, m.regs, m.regs[sel.ops[0].r := v]) == Some(m.regs[sel.ops[0].r := v]);
  }

  /** The diamond computes what the Select computes: from the split block through the jump taken, or
      through copy0, to the tail. */
  lemma {:induction false} DiamondIsSelect(e: Env, g: Func, head: seq<MInstr>, sel: MInstr,
                                           b: BlockId, c0: BlockId, c1: BlockId, m: Mach, cost: nat)
    requires IsSupportedSelect(sel) && b != c0
    requires b in g.blocks && c0 in g.blocks && c1 in g.blocks
    requires Body(g.blocks[b].insts) == head + [SelectJump(sel, c1)]
    requires g.blocks[c0].insts == []
    requires |g.blocks[c1].insts| > 0 && g.blocks[c1].insts[0] == SelectPhi(sel, b, c0)
    requires PhiCount(g.blocks[c1].insts[1..]) == 0
    requires LayoutNext(g.layout, b) == Some(c0) && LayoutNext(g.layout, c0) == Some(c1)
    requires RunList(e, head, m).Fall?
    requires var regs := RunList(e, head, m).m.regs;
             cost == if Holds(CmpOfIsd(sel.ops[3].v).value, Get(regs, sel.ops[1].r), Get(regs, sel.ops[2].r)) then 1 else 2
    ensures var r := ExecMI(e, sel, RunList(e, head, m).m);
            r.Next? && Run(e, g, At(b, m), cost) == At(c1, r.m)
  {
    var m1 := RunList(e, head, m).m;
    SelectMeaning(e, sel, c1, m1);
    RunListAppend(e, head, [SelectJump(sel, c1)], m);
    var s1 := Step(e, g, At(b, m));
    assert Run(e, g, At(b, m), 1) == Run(e, g, s1, 0);
    if cost == 1 {
      EnterCopy1(g, sel, b, c0, c1, b, m1);
      assert s1 == Enter(g, b, c1, m1);
    } else {
      EnterCopy1(g, sel, b, c0, c1, c0, m1);
      assert s1 == Enter(g, b, c0, m1) == At(c0, m1);
      assert Step(e, g, s1) == Enter(g, c0, c1, m1);
      assert Run(e, g, At(b, m), 2) == Run(e, g, s1, 1) == Run(e, g, Step(e, g, s1), 0);
    }
  }

  lemma {:induction false} PhiReadsBoth(ops: seq<Operand>, sel: MInstr, b: BlockId, c0: BlockId)
    requires IsSelect(sel) && ops == SelectPhi(sel, b, c0).ops && b != c0
    ensures PhiSource(ops, c0, 1) == Some(sel.ops[5].r)
    ensures PhiSource(ops, b, 1) == Some(sel.ops[4].r)
  {
    assert PhiSource(ops, b, 3) == Some(sel.ops[4].r);
  }

  /** The original block runs its head, the Select and its tail. */
  lemma {:induction false} OriginalBlock(e: Env, insts: seq<MInstr>, k: nat, m: Mach)
    requires BlockShape(insts) && k < |insts| && IsSelect(insts[k])
    ensures var head := RunList(e, Body(insts[..k]), m);
            RunList(e, Body(insts), m) ==
            if !head.Fall? then head
            else
              match ExecMI(e, insts[k], head.m)
              case Next(m') => RunList(e, insts[k + 1..], m')
              case Jump(t, m') => Goto(t, m')
              case Return(m') => Finish(m')
              case Fault => Broken
  {
    hide ExecMI, PhiCount, BlockShape;
    SelectShape(insts, k, 0, 1);
    var head, tail := Body(insts[..k]), insts[k + 1..];
    assert head + [insts[k]] + tail == head + ([insts[k]] + tail);
    RunListAppend(e, head, [insts[k]] + tail, m);
    assert ([insts[k]] + tail)[1..] == tail;
  }

  /** The tail, now in copy1, leaves for the same state as the original block. */
  lemma {:induction false} TailLeaves(e: Env, f: Func, b: BlockId, k: nat, c0: BlockId, c1: BlockId, m: Mach)
    requires Ready(f, b, k, c0, c1)
    ensures var tail := f.blocks[b].insts[k + 1..];
            Step(e, ExpandSelect(f, b, k, c0, c1), At(c1, m)) == Leaving(f, b, RunList(e, tail, m))
  {
    var insts := f.blocks[b].insts;
    assert BlockOk(f, b);
    SelectShape(insts, k, b, c0);
    DiamondBlocks(f, b, k, c0, c1);
    NoTerminatorBefore(insts, k);
    DropStraightLine(insts, k + 1);
    ExitIsSuccessor(e, f, b, insts[k + 1..], m);
    LeavingExpanded(f, b, k, c0, c1, b, RunList(e, insts[k + 1..], m));
  }

  lemma {:induction false} StepSplit(e: Env, f: Func, b: BlockId, k: nat, c0: BlockId, c1: BlockId, m: Mach)
    requires Ready(f, b, k, c0, c1)
    requires RunList(e, Body(f.blocks[b].insts[..k]), m).Fall?
    ensures Run(e, ExpandSelect(f, b, k, c0, c1), At(b, m), StepCost(e, f, b, k, At(b, m))) == Step(e, f, At(b, m))
  {
    var g := ExpandSelect(f, b, k, c0, c1);
    var insts := f.blocks[b].insts;
    var head := Body(insts[..k]);
    var c := StepCost(e, f, b, k, At(b, m));
    assert BlockShape(insts) by { assert BlockOk(f, b); }
    SelectShape(insts, k, b, c0);
    DiamondBlocks(f, b, k, c0, c1);
    assert g.blocks[c1].insts[1..] == insts[k + 1..];
    DiamondIsSelect(e, g, head, insts[k], b, c0, c1, m, c - 1);
    var m2 := ExecMI(e, insts[k], RunList(e, head, m).m).m;
    RunSplit(e, g, At(b, m), c - 1, 1);
    assert Run(e, g, At(c1, m2), 1) == Run(e, g, Step(e, g, At(c1, m2)), 0);
    OriginalBlock(e, insts, k, m);
    TailLeaves(e, f, b, k, c0, c1, m2);
  }

  /** One step of the original is StepCost steps of the expanded function, to the very same state. */
  lemma {:induction false} StepSimulates(e: Env, f: Func, b: BlockId, k: nat, c0: BlockId, c1: BlockId, s: State)
    requires Ready(f, b, k, c0, c1)
    requires s.At? ==> s.b in f.blocks
    ensures Run(e, ExpandSelect(f, b, k, c0, c1), s, StepCost(e, f, b, k, s)) == Step(e, f, s)
  {
    var g := ExpandSelect(f, b, k, c0, c1);
    if s.At? && s.b == b && RunList(e, Body(f.blocks[b].insts[..k]), s.m).Fall? {
      StepSplit(e, f, b, k, c0, c1, s.m);
    } else {
      if s.At? && s.b == b {
        HeadBreaks(e, f, b, k, c0, c1, s.m);
      } else {
        StepOther(e, f, b, k, c0, c1, s);
      }
      assert Run(e, g, s, 1) == Run(e, g, Step(e, g, s), 0);
    }
  }

  lemma {:induction false} StepInFunction(e: Env, f: Func, s: State)
    ensures Step(e, f, s).At? ==> Step(e, f, s).b in f.blocks
  {
  }

  /** A head that breaks breaks both functions. */
  lemma {:induction false} HeadBreaks(e: Env, f: Func, b: BlockId, k: nat, c0: BlockId, c1: BlockId, m: Mach)
    requires Ready(f, b, k, c0, c1)
    requires !RunList(e, Body(f.blocks[b].insts[..k]), m).Fall?
    ensures Step(e, ExpandSelect(f, b, k, c0, c1), At(b, m)) == Step(e, f, At(b, m)) == Stuck
  {
    var insts := f.blocks[b].insts;
    assert BlockOk(f, b);
    NoTerminatorBefore(insts, k);
    SelectShape(insts, k, b, c0);
    var n := PhiCount(insts[..k]);
    forall i | 0 <= i < k - n ensures !IsTerminator(insts[..k][n..][i]) {
      assert insts[..k][n..][i] == insts[n + i];
    }
    StraightLine(e, Body(insts[..k]), m);
    OriginalBlock(e, insts, k, m);
    DiamondBlocks(f, b, k, c0, c1);
    RunListAppend(e, Body(insts[..k]), [SelectJump(insts[k], c1)], m);
  }

  lemma {:induction false} StepCostBounds(e: Env, f: Func, b: BlockId, k: nat, s: State)
    requires CanExpand(f, b, k)
    ensures 1 <= StepCost(e, f, b, k, s) <= 3
  {
  }

  /** One simulated step and a simulated run of the rest make a simulated run. */
  lemma {:induction false} Compose(e: Env, f: Func, g: Func, s: State, c: nat, rest: nat, n: nat)
    requires n > 0 && Run(e, g, s, c) == Step(e, f, s)
    requires Run(e, g, Step(e, f, s), rest) == Run(e, f, Step(e, f, s), n - 1)
    ensures Run(e, g, s, c + rest) == Run(e, f, s, n)
  {
    RunSplit(e, g, s, c, rest);
  }

  /** g does in StepCost steps what f does in one. */
  ghost predicate StepsSimulated(e: Env, f: Func, g: Func, b: BlockId, k: nat)
    requires CanExpand(f, b, k)
  {
    forall s: State :: (s.At? ==> s.b in f.blocks) ==> Run(e, g, s, StepCost(e, f, b, k, s)) == Step(e, f, s)
  }

  lemma {:induction false} RunsSimulated(e: Env, f: Func, g: Func, b: BlockId, k: nat, s: State, n: nat)
    returns (cost: nat)
    requires CanExpand(f, b, k) && StepsSimulated(e, f, g, b, k)
    requires s.At? ==> s.b in f.blocks
    ensures n <= cost <= 3 * n && Run(e, g, s, cost) == Run(e, f, s, n)
    decreases n
  {
    if n == 0 {
      cost := 0;
    } else {
      var c := StepCost(e, f, b, k, s);
      StepCostBounds(e, f, b, k, s);
      StepInFunction(e, f, s);
      var rest := RunsSimulated(e, f, g, b, k, Step(e, f, s), n - 1);
      Compose(e, f, g, s, c, rest, n);
      cost := c + rest;
    }
  }

  lemma RunFew(e: Env, f: Func, s: State)
    ensures Run(e, f, s, 0) == s && Run(e, f, s, 1) == Step(e, f, s)
  {
    assert Run(e, f, s, 1) == Run(e, f, Step(e, f, s), 0);
  }

  lemma {:induction false} RunsReflected(e: Env, f: Func, g: Func, b: BlockId, k: nat, s: State, m: nat)
    returns (n: nat, rest: nat)
    requires CanExpand(f, b, k) && StepsSimulated(e, f, g, b, k)
    requires s.At? ==> s.b in f.blocks
    ensures n <= m && rest <= 2 && Run(e, g, s, m + rest) == Run(e, f, s, n)
    decreases m
  {
    hide Run, Step, StepCost;
    RunFew(e, f, s);
    RunFew(e, g, s);
    if m == 0 {
      return 0, 0;
    }
    var c := StepCost(e, f, b, k, s);
    StepCostBounds(e, f, b, k, s);
    StepInFunction(e, f, s);
    if m <= c {
      n, rest := 1, c - m;
    } else {
      n, rest := RunsReflected(e, f, g, b, k, Step(e, f, s), m - c);
      n := n + 1;
      Compose(e, f, g, s, c, m - c + rest, n);
    }
  }

  lemma {:induction false} ExpansionSteps(e: Env, f: Func, b: BlockId, k: nat, c0: BlockId, c1: BlockId)
    requires Ready(f, b, k, c0, c1)
    ensures StepsSimulated(e, f, ExpandSelect(f, b, k, c0, c1), b, k)
  {
    var g := ExpandSelect(f, b, k, c0, c1);
    forall s: State | s.At? ==> s.b in f.blocks
      ensures Run(e, g, s, StepCost(e, f, b, k, s)) == Step(e, f, s)
    {
      StepSimulates(e, f, b, k, c0, c1, s);
    }
  }

  /** Runs of any length: the expanded function passes through every state of the original run. */
  lemma {:induction false} ExpansionSimulates(e: Env, f: Func, b: BlockId, k: nat, c0: BlockId, c1: BlockId,
                                              s: State, n: nat)
    returns (cost: nat)
    requires Ready(f, b, k, c0, c1)
    requires s.At? ==> s.b in f.blocks
    ensures n <= cost <= 3 * n
    ensures Run(e, ExpandSelect(f, b, k, c0, c1), s, cost) == Run(e, f, s, n)
  {
    ExpansionSteps(e, f, b, k, c0, c1);
    cost := RunsSimulated(e, f, ExpandSelect(f, b, k, c0, c1), b, k, s, n);
  }

  /** And nothing else happens: from any point of an expanded run, at most two more steps reach a state of
      the original run. */
  lemma {:induction false} ExpansionReflects(e: Env, f: Func, b: BlockId, k: nat, c0: BlockId, c1: BlockId,
                                             s: State, m: nat)
    returns (n: nat, rest: nat)
    requires Ready(f, b, k, c0, c1)
    requires s.At? ==> s.b in f.blocks
    ensures n <= m && rest <= 2
    ensures Run(e, ExpandSelect(f, b, k, c0, c1), s, m + rest) == Run(e, f, s, n)
  {
    ExpansionSteps(e, f, b, k, c0, c1);
    n, rest := RunsReflected(e, f, ExpandSelect(f, b, k, c0, c1), b, k, s, m);
  }

  /** The two functions return the same registers and memory, get stuck together and diverge together. */
  lemma {:induction false} ExpansionSameResults(e: Env, f: Func, b: BlockId, k: nat, c0: BlockId, c1: BlockId,
                                                s: State, r: State)
    requires Ready(f, b, k, c0, c1)
    requires s.At? ==> s.b in f.blocks
    requires !r.At?
    ensures Ends(e, f, s, r) <==> Ends(e, ExpandSelect(f, b, k, c0, c1), s, r)
  {
    var g := ExpandSelect(f, b, k, c0, c1);
    if n: nat :| Run(e, f, s, n) == r {
      var cost := ExpansionSimulates(e, f, b, k, c0, c1, s, n);
      assert Run(e, g, s, cost) == r;
    }
    if m: nat :| Run(e, g, s, m) == r {
      var n, rest := ExpansionReflects(e, f, b, k, c0, c1, s, m);
      RunSplit(e, g, s, m, rest);
      HaltedStays(e, g, r, rest);
      assert Run(e, f, s, n) == r;
    }
  }
}
