/** Select expansion keeps a machine function well formed; repeating it removes every Select and adds two
    blocks for each. */
module SelectWellFormed {
  import opened Words
  import opened Isa
  import opened Mir
  import opened Cfg
  import opened SelectExpansion
  import opened RegisterUses

  // ----- blocks -----

  lemma {:induction false} RenameKeepsCode(insts: seq<MInstr>, from: BlockId, to: BlockId)
    ensures var r := RenamePhis(insts, from, to);
            && Targets(r) == Targets(insts)
            && (forall i :: 0 <= i < |insts| ==> r[i].opc == insts[i].opc)
            && CountSelects(r) == CountSelects(insts)
  {
    if insts != [] && insts[0].opc.PHI? {
      var r := RenamePhis(insts, from, to);
      assert r[1..] == RenamePhis(insts[1..], from, to);
      RenameKeepsCode(insts[1..], from, to);
      assert forall i :: 1 <= i < |insts| ==> r[i] == r[1..][i - 1] && insts[i] == insts[1..][i - 1];
    }
  }

  /** Well-formedness of one block read off its opcodes. */
  lemma {:induction false} RenameKeepsShape(insts: seq<MInstr>, from: BlockId, to: BlockId)
    ensures var r := RenamePhis(insts, from, to);
            && (BlockShape(insts) ==> BlockShape(r))
            && CanFall(r) == CanFall(insts)
            && PhiCount(r) == PhiCount(insts)
            && Targets(r) == Targets(insts)
  {
    var r := RenamePhis(insts, from, to);
    RenamedBody(insts, from, to);
    RenameKeepsCode(insts, from, to);
    forall i | 0 <= i < |insts|
      ensures IsTerminator(r[i]) == IsTerminator(insts[i]) && IsBarrier(r[i]) == IsBarrier(insts[i])
    {
      assert r[i].opc == insts[i].opc;
    }
  }

  /** The split block ends in the jump to copy1 and can fall through. */
  lemma {:induction false} HeadShape(insts: seq<MInstr>, k: nat, c1: BlockId)
    requires BlockShape(insts) && k < |insts| && IsSupportedSelect(insts[k])
    ensures var cut := insts[..k] + [SelectJump(insts[k], c1)];
            && BlockShape(cut) && CanFall(cut) && Targets(cut) == {c1} && PhiCount(cut) == PhiCount(insts)
  {
    var jump := SelectJump(insts[k], c1);
    var cut := insts[..k] + [jump];
    NoTerminatorBefore(insts, k);
    SelectShape(insts, k, 0, 1);
    PhiCountAppend(insts[..k], [jump]);
    TargetsConcat(insts[..k], [jump]);
    NoTerminatorNoTargets(insts[..k]);
    assert Targets([jump]) == {c1} by {
      assert [jump][1..] == [];
      assert jump.ops[2] == MBB(c1);
      assert BranchTargets(jump) == {c1};
    }
    assert forall i :: 0 <= i < k ==> cut[i] == insts[i] && !IsTerminator(cut[i]);
  }

  /** copy1 leaves the way the split block used to. */
  lemma {:induction false} TailShape(insts: seq<MInstr>, k: nat, b: BlockId, c0: BlockId)
    requires BlockShape(insts) && k < |insts| && IsSupportedSelect(insts[k])
    ensures var r := [SelectPhi(insts[k], b, c0)] + insts[k + 1..];
            && BlockShape(r) && CanFall(r) == CanFall(insts) && Targets(r) == Targets(insts) && PhiCount(r) == 1
  {
    var phi, tail := SelectPhi(insts[k], b, c0), insts[k + 1..];
    assert phi.opc.PHI?;
    NoTerminatorBefore(insts, k);
    DropStraightLine(insts, k + 1);
    hide BlockShape, IsTerminator, CanFall, Targets, PhiCount;
    DropKeepsOrder(insts, k + 1);
    PhiOnTop(phi, tail);
  }

  /** No PHIs, and terminators only before terminators and debug values. */
  predicate CodeInOrder(insts: seq<MInstr>) {
    && (forall i :: 0 <= i < |insts| ==> !insts[i].opc.PHI?)
    && (forall i, j :: 0 <= i < j < |insts| && IsTerminator(insts[i]) ==>
          IsTerminator(insts[j]) || insts[j].opc.DBG_VALUE?)
  }

  lemma {:induction false} DropKeepsOrder(insts: seq<MInstr>, n: nat)
    requires BlockShape(insts) && PhiCount(insts) <= n <= |insts|
    ensures CodeInOrder(insts[n..]) && (CanFall(insts) ==> CanFall(insts[n..]))
  {
    hide IsTerminator, IsBarrier;
    assert forall i :: 0 <= i < |insts| - n ==> insts[n..][i] == insts[n + i];
  }

  lemma {:induction false} PhiOnTop(phi: MInstr, tail: seq<MInstr>)
    requires phi.opc.PHI? && CodeInOrder(tail)
    ensures var r := [phi] + tail;
            && BlockShape(r) && CanFall(r) == CanFall(tail) && Targets(r) == Targets(tail) && PhiCount(r) == 1
  {
    var r := [phi] + tail;
    assert r[1..] == tail;
    assert forall i :: 1 <= i < |r| ==> r[i] == tail[i - 1];
    if CanFall(r) {
      assert forall i :: 0 <= i < |tail| ==> tail[i] == r[i + 1];
    }
  }

  // ----- predecessors and PHIs -----

  lemma {:induction false} PredsFromSuccs(f: Func, g: Func, b: BlockId, c0: BlockId, c1: BlockId, x: BlockId)
    requires b in f.blocks && c0 != c1 && c0 !in f.blocks && c1 !in f.blocks
    requires forall y :: y in f.blocks ==> c0 !in f.blocks[y].succs && c1 !in f.blocks[y].succs
    requires g.blocks.Keys == f.blocks.Keys + {c0, c1}
    requires forall y :: y in f.blocks && y != b ==> g.blocks[y].succs == f.blocks[y].succs
    requires g.blocks[b].succs == [c0, c1] && g.blocks[c0].succs == [c1]
    requires g.blocks[c1].succs == f.blocks[b].succs
    ensures var p := Preds(g, x);
            && (x == c0 ==> p == {b})
            && (x == c1 ==> p == {b, c0})
            && (x in f.blocks ==> p == (Preds(f, x) - {b}) + (if b in Preds(f, x) then {c1} else {}))
  {
    forall p ensures p in Preds(g, x) <==>
      (p in f.blocks && p != b && x in f.blocks[p].succs)
      || (p == b && (x == c0 || x == c1)) || (p == c0 && x == c1) || (p == c1 && x in f.blocks[b].succs)
    {
    }
  }

  lemma {:induction false} ExpandedPreds(f: Func, b: BlockId, k: nat, c0: BlockId, c1: BlockId, x: BlockId)
    requires Ready(f, b, k, c0, c1)
    ensures var p := Preds(ExpandSelect(f, b, k, c0, c1), x);
            && (x == c0 ==> p == {b})
            && (x == c1 ==> p == {b, c0})
            && (x in f.blocks ==> p == (Preds(f, x) - {b}) + (if b in Preds(f, x) then {c1} else {}))
  {
    var g := ExpandSelect(f, b, k, c0, c1);
    forall y | y in f.blocks ensures c0 !in f.blocks[y].succs && c1 !in f.blocks[y].succs {
      FreshUnmentioned(f, y, c0);
      FreshUnmentioned(f, y, c1);
    }
    ExpandedSuccs(f, b, k, c0, c1);
    PredsFromSuccs(f, g, b, c0, c1, x);
  }

  /** Renaming the split block to copy1 in a PHI follows the change of predecessors. */
  lemma {:induction false} RenamedPhiOk(ops: seq<Operand>, from: BlockId, to: BlockId, preds: set<BlockId>)
    requires PhiOk(ops, preds) && to !in preds && from in preds
    ensures PhiOk(RenameLabels(ops, from, to), preds - {from} + {to})
  {
    var r := RenameLabels(ops, from, to);
    var preds' := preds - {from} + {to};
    forall i, j | 0 < i < j < |r| && i % 2 == 0 && j % 2 == 0 ensures r[i] != r[j] {
      assert ops[i] != ops[j];
      assert ops[i] != MBB(to) && ops[j] != MBB(to);
    }
    forall p ensures p in preds' <==> exists i :: 0 < i < |r| && i % 2 == 0 && r[i] == MBB(p) {
      if p in preds' {
        var q := if p == to then from else p;
        var i :| 0 < i < |ops| && i % 2 == 0 && ops[i] == MBB(q);
        assert r[i] == MBB(p);
      }
      if i :| 0 < i < |r| && i % 2 == 0 && r[i] == MBB(p) {
        if ops[i] == MBB(from) {
          assert p == to;
        } else {
          assert ops[i] == MBB(p);
        }
      }
    }
  }

  lemma {:induction false} SelectPhiOk(sel: MInstr, b: BlockId, c0: BlockId)
    requires IsSelect(sel) && b != c0
    ensures PhiOk(SelectPhi(sel, b, c0).ops, {b, c0})
    ensures var ops := SelectPhi(sel, b, c0).ops; |ops| == 5 && ops[2] == MBB(c0) && ops[4] == MBB(b)
  {
    var ops := SelectPhi(sel, b, c0).ops;
    assert |ops| == 5 && ops[2] == MBB(c0) && ops[4] == MBB(b);
  }

  /** The PHIs of an old block still have exactly one entry for each predecessor. */
  lemma {:induction false} OldBlockPhis(f: Func, b: BlockId, k: nat, c0: BlockId, c1: BlockId, x: BlockId, i: nat)
    requires Ready(f, b, k, c0, c1) && x in f.blocks
    requires i < PhiCount(ExpandSelect(f, b, k, c0, c1).blocks[x].insts)
    ensures var g := ExpandSelect(f, b, k, c0, c1);
            PhiOk(g.blocks[x].insts[i].ops, Preds(g, x))
  {
    var g := ExpandSelect(f, b, k, c0, c1);
    var cut := CutInsts(f, b, k, c1, x);
    var insts := f.blocks[x].insts;
    OldBlock(f, b, k, c0, c1, x);
    RenamedBody(cut, b, c1);
    assert BlockOk(f, x);
    if x == b {
      HeadShape(insts, k, c1);
      NoTerminatorBefore(insts, k);
    }
    assert PhiCount(cut) == PhiCount(insts) && cut[i] == insts[i];
    assert PhiOk(insts[i].ops, Preds(f, x));
    ExpandedPreds(f, b, k, c0, c1, x);
    assert b in Preds(f, x) <==> x in f.blocks[b].succs;
    assert c1 !in Preds(f, x);
    if x in f.blocks[b].succs {
      RenamedPhiOk(insts[i].ops, b, c1, Preds(f, x));
    } else {
      assert Preds(g, x) == Preds(f, x);
    }
  }

  // ----- the whole function -----

  /** A block that is not split reaches what it reached before. */
  lemma {:induction false} OtherBlockReach(f: Func, g: Func, b: BlockId, c1: BlockId, x: BlockId)
    requires x in f.blocks && x in g.blocks && g.blocks[x].succs == f.blocks[x].succs
    requires g.blocks[x].insts == f.blocks[x].insts || g.blocks[x].insts == RenamePhis(f.blocks[x].insts, b, c1)
    requires LayoutNext(g.layout, x) == LayoutNext(f.layout, x)
    requires BlockShape(f.blocks[x].insts) && SuccsMatch(f, x)
    ensures BlockShape(g.blocks[x].insts) && SuccsMatch(g, x)
  {
    RenameKeepsShape(f.blocks[x].insts, b, c1);
  }

  /** The split block reaches exactly the new blocks. */
  lemma {:induction false} SplitBlockReach(g: Func, insts: seq<MInstr>, k: nat, b: BlockId, c0: BlockId, c1: BlockId)
    requires BlockShape(insts) && k < |insts| && IsSupportedSelect(insts[k])
    requires b in g.blocks && g.blocks[b].succs == [c0, c1] && LayoutNext(g.layout, b) == Some(c0)
    requires var cut := insts[..k] + [SelectJump(insts[k], c1)];
             g.blocks[b].insts == cut || g.blocks[b].insts == RenamePhis(cut, b, c1)
    ensures BlockShape(g.blocks[b].insts) && SuccsMatch(g, b)
  {
    HeadShape(insts, k, c1);
    RenameKeepsShape(insts[..k] + [SelectJump(insts[k], c1)], b, c1);
    assert Elements([c0, c1]) == {c0, c1};
  }

  lemma {:induction false} OldBlockReach(f: Func, b: BlockId, k: nat, c0: BlockId, c1: BlockId, x: BlockId)
    requires Ready(f, b, k, c0, c1) && x in f.blocks
    ensures var g := ExpandSelect(f, b, k, c0, c1);
            x in g.blocks && BlockShape(g.blocks[x].insts) && SuccsMatch(g, x)
  {
    var g := ExpandSelect(f, b, k, c0, c1);
    assert BlockOk(f, x);
    FreshUnmentioned(f, x, c0);
    FreshUnmentioned(f, x, c1);
    assert b in Elements(f.layout);
    InsertedNext(f.layout, b, c0, c1, x);
    OldBlock(f, b, k, c0, c1, x);
    ExpandedSuccs(f, b, k, c0, c1);
    if x == b {
      SplitBlockReach(g, f.blocks[b].insts, k, b, c0, c1);
    } else {
      OtherBlockReach(f, g, b, c1, x);
    }
  }

  lemma {:induction false} OldBlockOk(f: Func, b: BlockId, k: nat, c0: BlockId, c1: BlockId, x: BlockId)
    requires Ready(f, b, k, c0, c1) && x in f.blocks
    ensures var g := ExpandSelect(f, b, k, c0, c1); x in g.blocks && BlockOk(g, x)
  {
    var g := ExpandSelect(f, b, k, c0, c1);
    OldBlockReach(f, b, k, c0, c1, x);
    forall i | 0 <= i < PhiCount(g.blocks[x].insts) ensures PhiOk(g.blocks[x].insts[i].ops, Preds(g, x)) {
      OldBlockPhis(f, b, k, c0, c1, x, i);
    }
  }

  lemma {:induction false} NewBlocksOk(f: Func, b: BlockId, k: nat, c0: BlockId, c1: BlockId)
    requires Ready(f, b, k, c0, c1)
    ensures var g := ExpandSelect(f, b, k, c0, c1);
            c0 in g.blocks && c1 in g.blocks && BlockOk(g, c0) && BlockOk(g, c1)
  {
    hide ExpandSelect, BlockOk;
    FreshUnmentioned(f, b, c0);
    FreshUnmentioned(f, b, c1);
    assert b in f.layout by { assert b in Elements(f.layout); }
    InsertedNext(f.layout, b, c0, c1, b);
    ExpandedSuccs(f, b, k, c0, c1);
    DiamondBlocks(f, b, k, c0, c1);
    ExpandedLayoutIs(f, b, k, c0, c1);
    ExpandedPreds(f, b, k, c0, c1, c1);
    Copy0Ok(ExpandSelect(f, b, k, c0, c1), c0, c1);
    Copy1Ok(f, ExpandSelect(f, b, k, c0, c1), b, k, c0, c1);
  }

  lemma ExpandedLayoutIs(f: Func, b: BlockId, k: nat, c0: BlockId, c1: BlockId)
    requires CanExpand(f, b, k)
    ensures ExpandSelect(f, b, k, c0, c1).layout == InsertAfter(f.layout, b, [c0, c1])
  {
  }

  /** copy0 is empty and falls through to copy1. */
  lemma {:induction false} Copy0Ok(g: Func, c0: BlockId, c1: BlockId)
    requires c0 in g.blocks && g.blocks[c0] == Block([], [c1]) && LayoutNext(g.layout, c0) == Some(c1)
    ensures BlockOk(g, c0)
  {
    assert Elements([c1]) == {c1};
    assert Reach(g, c0) == {c1};
  }

  /** copy1 holds the result PHI and the tail, and leaves the way the split block did. */
  lemma {:induction false} Copy1Ok(f: Func, g: Func, b: BlockId, k: nat, c0: BlockId, c1: BlockId)
    requires CanExpand(f, b, k) && BlockOk(f, b) && b != c0 && c1 in g.blocks
    requires var insts := f.blocks[b].insts;
             g.blocks[c1] == Block([SelectPhi(insts[k], b, c0)] + insts[k + 1..], f.blocks[b].succs)
    requires LayoutNext(g.layout, c1) == LayoutNext(f.layout, b) && Preds(g, c1) == {b, c0}
    ensures BlockOk(g, c1)
  {
    var insts := f.blocks[b].insts;
    TailShape(insts, k, b, c0);
    SelectPhiOk(insts[k], b, c0);
    assert Reach(g, c1) == Reach(f, b);
  }

  lemma {:induction false} ExpandedLayout(f: Func, b: BlockId, k: nat, c0: BlockId, c1: BlockId)
    requires Ready(f, b, k, c0, c1)
    ensures var g := ExpandSelect(f, b, k, c0, c1);
            && Distinct(g.layout)
            && Elements(g.layout) == g.blocks.Keys
            && (forall x :: x in g.blocks ==> Elements(g.blocks[x].succs) <= g.blocks.Keys)
  {
    var g := ExpandSelect(f, b, k, c0, c1);
    FreshUnmentioned(f, b, c0);
    FreshUnmentioned(f, b, c1);
    InsertAfterDistinct(f.layout, b, c0, c1);
    InsertAfterElements(f.layout, b, [c0, c1]);
    ExpandedSuccs(f, b, k, c0, c1);
    assert b in Elements(f.layout);
    forall x ensures x in Elements(g.layout) <==> x in g.blocks.Keys {
      assert x in Elements(f.layout) <==> x in f.blocks.Keys;
    }
    forall x | x in g.blocks ensures Elements(g.blocks[x].succs) <= g.blocks.Keys {
      var was := if x == c1 then b else x;
      if was in f.blocks && x != b {
        assert g.blocks[x].succs == f.blocks[was].succs;
        assert Elements(f.blocks[was].succs) <= f.blocks.Keys;
      }
    }
  }

  /** Successor lists still equal what terminators and fall-through can reach, and every PHI still has
      exactly one entry per predecessor. */
  lemma {:induction false} ExpansionWellFormed(f: Func, b: BlockId, k: nat, c0: BlockId, c1: BlockId)
    requires Ready(f, b, k, c0, c1)
    ensures WellFormed(ExpandSelect(f, b, k, c0, c1))
  {
    var g := ExpandSelect(f, b, k, c0, c1);
    ExpandedLayout(f, b, k, c0, c1);
    forall x | x in g.blocks ensures BlockOk(g, x) {
      if x in f.blocks {
        OldBlockOk(f, b, k, c0, c1, x);
      } else {
        ExpandedSuccs(f, b, k, c0, c1);
        NewBlocksOk(f, b, k, c0, c1);
      }
    }
  }

  // ----- repeating it -----

  function CountSelects(insts: seq<MInstr>): nat {
    if insts == [] then 0 else (if insts[0].opc.Select? then 1 else 0) + CountSelects(insts[1..])
  }

  lemma {:induction false} CountConcat(x: seq<MInstr>, y: seq<MInstr>)
    ensures CountSelects(x + y) == CountSelects(x) + CountSelects(y)
  {
    if x == [] {
      assert x + y == y;
    } else {
      assert (x + y)[1..] == x[1..] + y;
      CountConcat(x[1..], y);
    }
  }

  function BlockSelects(blocks: map<BlockId, Block>, b: BlockId): nat {
    if b in blocks then CountSelects(blocks[b].insts) else 0
  }

  function TotalSelects(layout: seq<BlockId>, blocks: map<BlockId, Block>): nat {
    if layout == [] then 0 else BlockSelects(blocks, layout[0]) + TotalSelects(layout[1..], blocks)
  }

  lemma {:induction false} TotalCongruent(layout: seq<BlockId>, p: map<BlockId, Block>, q: map<BlockId, Block>)
    requires forall x :: x in layout ==> BlockSelects(p, x) == BlockSelects(q, x)
    ensures TotalSelects(layout, p) == TotalSelects(layout, q)
  {
    if layout != [] {
      assert layout[0] in layout;
      TotalCongruent(layout[1..], p, q);
    }
  }

  lemma {:induction false} TotalInserted(layout: seq<BlockId>, p: map<BlockId, Block>, q: map<BlockId, Block>,
                                         b: BlockId, c0: BlockId, c1: BlockId)
    requires Distinct(layout) && b in layout
    requires forall x :: x in layout && x != b ==> BlockSelects(p, x) == BlockSelects(q, x)
    requires BlockSelects(p, b) == BlockSelects(q, b) + BlockSelects(q, c0) + BlockSelects(q, c1) + 1
    ensures TotalSelects(InsertAfter(layout, b, [c0, c1]), q) + 1 == TotalSelects(layout, p)
    ensures |InsertAfter(layout, b, [c0, c1])| == |layout| + 2
  {
    var rest := layout[1..];
    var l := InsertAfter(layout, b, [c0, c1]);
    if layout[0] == b {
      TotalCongruent(rest, p, q);
      assert l[1..] == [c0, c1] + rest;
      assert l[1..][1..] == [c1] + rest;
      assert l[1..][1..][1..] == rest;
      assert TotalSelects(l, q) == BlockSelects(q, b) + TotalSelects(l[1..], q);
      assert TotalSelects(l[1..], q) == BlockSelects(q, c0) + TotalSelects(l[1..][1..], q);
    } else {
      assert layout[0] in layout;
      TotalInserted(rest, p, q, b, c0, c1);
      assert l[1..] == InsertAfter(rest, b, [c0, c1]);
    }
  }

  lemma {:induction false} CutCount(insts: seq<MInstr>, k: nat, b: BlockId, c0: BlockId, c1: BlockId)
    requires k < |insts| && IsSupportedSelect(insts[k])
    ensures CountSelects(insts) == 1 + CountSelects(insts[..k] + [SelectJump(insts[k], c1)])
                                 + CountSelects([SelectPhi(insts[k], b, c0)] + insts[k + 1..])
  {
    var jump, phi := SelectJump(insts[k], c1), SelectPhi(insts[k], b, c0);
    CountConcat(insts[..k], [jump]);
    CountConcat([phi], insts[k + 1..]);
    assert insts == insts[..k] + ([insts[k]] + insts[k + 1..]);
    CountConcat(insts[..k], [insts[k]] + insts[k + 1..]);
    CountConcat([insts[k]], insts[k + 1..]);
  }

  /** Each expansion removes one Select and adds two blocks. */
  lemma {:induction false} ExpansionProgress(f: Func, b: BlockId, k: nat, c0: BlockId, c1: BlockId)
    requires CanExpand(f, b, k) && Distinct(f.layout) && b in f.layout
    requires c0 != c1 && c0 !in f.blocks && c1 !in f.blocks && c0 !in f.layout && c1 !in f.layout
    requires c1 !in f.blocks[b].succs && c0 !in f.blocks[b].succs
    ensures var g := ExpandSelect(f, b, k, c0, c1);
            TotalSelects(g.layout, g.blocks) + 1 == TotalSelects(f.layout, f.blocks) && |g.layout| == |f.layout| + 2
  {
    var g := ExpandSelect(f, b, k, c0, c1);
    forall x | x in f.layout && x != b ensures BlockSelects(f.blocks, x) == BlockSelects(g.blocks, x) {
      if x in f.blocks {
        OldBlock(f, b, k, c0, c1, x);
        RenameKeepsCode(f.blocks[x].insts, b, c1);
      }
    }
    OldBlock(f, b, k, c0, c1, b);
    RenameKeepsCode(CutInsts(f, b, k, c1, b), b, c1);
    CutCount(f.blocks[b].insts, k, b, c0, c1);
    TotalInserted(f.layout, f.blocks, g.blocks, b, c0, c1);
  }

  /** Every Select has operands in order and a condition with a jump. */
  ghost predicate AllSupported(f: Func) {
    forall b :: b in f.blocks ==> SupportedCode(f.blocks[b].insts)
  }

  ghost predicate SupportedCode(insts: seq<MInstr>) {
    forall i :: 0 <= i < |insts| && insts[i].opc.Select? ==> IsSupportedSelect(insts[i])
  }

  lemma {:induction false} RenameSupported(insts: seq<MInstr>, from: BlockId, to: BlockId)
    requires SupportedCode(insts)
    ensures SupportedCode(RenamePhis(insts, from, to))
  {
    hide IsSupportedSelect;
    RenamedBody(insts, from, to);
  }

  lemma {:induction false} CutSupported(insts: seq<MInstr>, k: nat, b: BlockId, c0: BlockId, c1: BlockId)
    requires SupportedCode(insts) && k < |insts| && IsSupportedSelect(insts[k])
    ensures SupportedCode(insts[..k] + [SelectJump(insts[k], c1)])
    ensures SupportedCode([SelectPhi(insts[k], b, c0)] + insts[k + 1..])
  {
  }

  ghost predicate Below(f: Func, next: BlockId) {
    forall b :: b in f.blocks ==> b < next
  }

  lemma {:induction false} ExpansionSupported(f: Func, b: BlockId, k: nat, c0: BlockId, c1: BlockId)
    requires Ready(f, b, k, c0, c1) && AllSupported(f)
    ensures AllSupported(ExpandSelect(f, b, k, c0, c1))
  {
    hide SupportedCode, IsSupportedSelect;
    var g := ExpandSelect(f, b, k, c0, c1);
    DiamondBlocks(f, b, k, c0, c1);
    CutSupported(f.blocks[b].insts, k, b, c0, c1);
    ExpandedSuccs(f, b, k, c0, c1);
    forall x | x in g.blocks ensures SupportedCode(g.blocks[x].insts) {
      if x in f.blocks {
        OldBlock(f, b, k, c0, c1, x);
        RenameSupported(CutInsts(f, b, k, c1, x), b, c1);
      } else if x == c0 {
        NothingSupported();
      }
    }
  }

  lemma NothingSupported()
    ensures SupportedCode([])
  {
  }

  /** One expansion keeps everything repetition needs. */
  lemma {:induction false} ExpansionAgain(f: Func, b: BlockId, k: nat, next: BlockId)
    requires WellFormed(f) && AllSupported(f) && Below(f, next) && CanExpand(f, b, k)
    ensures Ready(f, b, k, next, next + 1)
    ensures var g := ExpandSelect(f, b, k, next, next + 1);
            && WellFormed(g) && AllSupported(g) && Below(g, next + 2)
            && TotalSelects(g.layout, g.blocks) + 1 == TotalSelects(f.layout, f.blocks)
            && |g.layout| == |f.layout| + 2
  {
    var g := ExpandSelect(f, b, k, next, next + 1);
    assert b in Elements(f.layout);
    assert WellFormed(g) by {
      ExpansionWellFormed(f, b, k, next, next + 1);
    }
    FreshUnmentioned(f, b, next);
    FreshUnmentioned(f, b, next + 1);
    ExpansionProgress(f, b, k, next, next + 1);
    assert AllSupported(g) by {
      ExpansionSupported(f, b, k, next, next + 1);
    }
    assert Below(g, next + 2) by {
      ExpandedSuccs(f, b, k, next, next + 1);
    }
  }

  /** The first Select of a block. */
  function FirstSelect(insts: seq<MInstr>): (k: nat)
    requires CountSelects(insts) > 0
    ensures k < |insts| && insts[k].opc.Select?
  {
    if insts[0].opc.Select? then 0 else 1 + FirstSelect(insts[1..])
  }

  /** The first block, in layout order, that holds a Select. */
  function FirstBlock(layout: seq<BlockId>, blocks: map<BlockId, Block>): (b: BlockId)
    requires TotalSelects(layout, blocks) > 0
    ensures b in layout && b in blocks && CountSelects(blocks[b].insts) > 0
  {
    if BlockSelects(blocks, layout[0]) > 0 then layout[0] else FirstBlock(layout[1..], blocks)
  }

  /** All Selects expanded in layout order; the new blocks are numbered from `next`. */
  ghost function ExpandAll(f: Func, next: BlockId): Func
    requires WellFormed(f) && AllSupported(f) && Below(f, next)
    decreases TotalSelects(f.layout, f.blocks)
  {
    if TotalSelects(f.layout, f.blocks) == 0 then f
    else
      var b := FirstBlock(f.layout, f.blocks);
      var k := FirstSelect(f.blocks[b].insts);
      ExpansionAgain(f, b, k, next);
      ExpandAll(ExpandSelect(f, b, k, next, next + 1), next + 2)
  }

  lemma {:induction false} NoSelectLeft(layout: seq<BlockId>, blocks: map<BlockId, Block>, b: BlockId)
    requires TotalSelects(layout, blocks) == 0 && b in layout && b in blocks
    ensures forall i :: 0 <= i < |blocks[b].insts| ==> !blocks[b].insts[i].opc.Select?
  {
    if layout[0] == b {
      ZeroSelects(blocks[b].insts);
    } else {
      NoSelectLeft(layout[1..], blocks, b);
    }
  }

  lemma {:induction false} ZeroSelects(insts: seq<MInstr>)
    requires CountSelects(insts) == 0
    ensures forall i :: 0 <= i < |insts| ==> !insts[i].opc.Select?
  {
    if insts != [] {
      ZeroSelects(insts[1..]);
      assert insts == [insts[0]] + insts[1..];
    }
  }

  /** Repeated expansion ends with no Select, two blocks more for each one there was, a well-formed
      function, every register read still behind its definition, and the same results from every starting
      state. */
  lemma {:induction false} ExpandAllCorrect(e: Env, f: Func, next: BlockId, given: set<Isa.Reg>, s: State, r: State)
    requires WellFormed(f) && AllSupported(f) && Below(f, next)
    requires (s.At? ==> s.b in f.blocks) && !r.At?
    ensures var g := ExpandAll(f, next);
            && WellFormed(g)
            && |g.layout| == |f.layout| + 2 * TotalSelects(f.layout, f.blocks)
            && (forall b, i :: b in g.blocks && 0 <= i < |g.blocks[b].insts| ==> !g.blocks[b].insts[i].opc.Select?)
            && (UsesReached(f, given) ==> UsesReached(g, given))
            && (Ends(e, f, s, r) <==> Ends(e, g, s, r))
    decreases TotalSelects(f.layout, f.blocks)
  {
    hide UsesReached, Ends;
    if TotalSelects(f.layout, f.blocks) == 0 {
      forall b, i | b in f.blocks && 0 <= i < |f.blocks[b].insts| ensures !f.blocks[b].insts[i].opc.Select? {
        assert b in Elements(f.layout);
        NoSelectLeft(f.layout, f.blocks, b);
      }
    } else {
      var b := FirstBlock(f.layout, f.blocks);
      var k := FirstSelect(f.blocks[b].insts);
      var g := ExpandSelect(f, b, k, next, next + 1);
      ExpansionAgain(f, b, k, next);
      assert s.At? ==> s.b in g.blocks;
      ExpansionSameResults(e, f, b, k, next, next + 1, s, r);
      if UsesReached(f, given) {
        UsesStillReached(f, b, k, next, next + 1, given);
      }
      ExpandAllCorrect(e, g, next + 2, given, s, r);
    }
  }

  // ----- in any order -----

  /** One expansion: the Select at position k of block b, with the numbers of the new blocks. */
  datatype Choice = Choice(b: BlockId, k: nat, c0: BlockId, c1: BlockId)

  ghost predicate Allowed(f: Func, c: Choice) {
    Ready(f, c.b, c.k, c.c0, c.c1)
  }

  ghost function Expanded(f: Func, c: Choice): Func
    requires Allowed(f, c)
  {
    ExpandSelect(f, c.b, c.k, c.c0, c.c1)
  }

  /** A sequence of expansions, each of a Select still there. */
  ghost predicate Sequence(f: Func, cs: seq<Choice>)
    decreases cs
  {
    cs == [] || (Allowed(f, cs[0]) && Sequence(Expanded(f, cs[0]), cs[1..]))
  }

  ghost function ExpandedBy(f: Func, cs: seq<Choice>): Func
    requires Sequence(f, cs)
    decreases cs
  {
    if cs == [] then f else ExpandedBy(Expanded(f, cs[0]), cs[1..])
  }

  /** What one expansion does to everything the iteration is about. */
  lemma {:induction false} OneChoice(f: Func, c: Choice, given: set<Isa.Reg>)
    requires WellFormed(f) && AllSupported(f) && Allowed(f, c)
    ensures var g := Expanded(f, c);
            && WellFormed(g) && AllSupported(g)
            && f.blocks.Keys <= g.blocks.Keys && |g.layout| == |f.layout| + 2
            && TotalSelects(g.layout, g.blocks) + 1 == TotalSelects(f.layout, f.blocks)
            && (UsesReached(f, given) ==> UsesReached(g, given))
  {
    hide UsesReached, SupportedCode;
    FreshUnmentioned(f, c.b, c.c0);
    FreshUnmentioned(f, c.b, c.c1);
    assert c.b in Elements(f.layout);
    ExpansionWellFormed(f, c.b, c.k, c.c0, c.c1);
    ExpansionSupported(f, c.b, c.k, c.c0, c.c1);
    ExpansionProgress(f, c.b, c.k, c.c0, c.c1);
    ExpandedSuccs(f, c.b, c.k, c.c0, c.c1);
    if UsesReached(f, given) {
      UsesStillReached(f, c.b, c.k, c.c0, c.c1, given);
    }
  }

  /** Whatever the order and whatever the new numbers, every sequence of expansions keeps the function well
      formed and its definitions in front of their uses, and takes away one Select and adds two blocks at each
      step. */
  lemma {:induction false} AnyOrderCorrect(f: Func, cs: seq<Choice>, given: set<Isa.Reg>)
    requires WellFormed(f) && AllSupported(f) && Sequence(f, cs)
    ensures var g := ExpandedBy(f, cs);
            && WellFormed(g) && AllSupported(g)
            && |g.layout| == |f.layout| + 2 * |cs|
            && TotalSelects(g.layout, g.blocks) + |cs| == TotalSelects(f.layout, f.blocks)
            && (UsesReached(f, given) ==> UsesReached(g, given))
    decreases cs
  {
    hide UsesReached, WellFormed, AllSupported, Allowed, Expanded;
    if cs != [] {
      OneChoice(f, cs[0], given);
      AnyOrderCorrect(Expanded(f, cs[0]), cs[1..], given);
    }
  }

  lemma {:induction false} OneChoiceEnds(e: Env, f: Func, c: Choice, s: State, r: State)
    requires Allowed(f, c) && (s.At? ==> s.b in f.blocks) && !r.At?
    ensures Ends(e, f, s, r) <==> Ends(e, Expanded(f, c), s, r)
  {
    hide Ends, ExpandSelect, WellFormed;
    ExpansionSameResults(e, f, c.b, c.k, c.c0, c.c1, s, r);
  }

  /** And it keeps the results of every run. */
  lemma {:induction false} AnyOrderSameResults(e: Env, f: Func, cs: seq<Choice>, s: State, r: State)
    requires WellFormed(f) && AllSupported(f) && Sequence(f, cs)
    requires (s.At? ==> s.b in f.blocks) && !r.At?
    ensures Ends(e, f, s, r) <==> Ends(e, ExpandedBy(f, cs), s, r)
    decreases cs
  {
    hide Ends, UsesReached, WellFormed, AllSupported, Allowed, Expanded;
    if cs != [] {
      OneChoice(f, cs[0], {});
      OneChoiceEnds(e, f, cs[0], s, r);
      AnyOrderSameResults(e, Expanded(f, cs[0]), cs[1..], s, r);
    }
  }

  lemma {:induction false} SequenceSnoc(f: Func, cs: seq<Choice>, c: Choice)
    requires Sequence(f, cs) && Allowed(ExpandedBy(f, cs), c)
    ensures Sequence(f, cs + [c])
    decreases cs
  {
    hide Ready, ExpandSelect;
    if cs == [] {
      assert cs + [c] == [c] && [c][1..] == [];
      assert Sequence(Expanded(f, c), []);
    } else {
      SequenceSnoc(Expanded(f, cs[0]), cs[1..], c);
      assert (cs + [c])[0] == cs[0] && (cs + [c])[1..] == cs[1..] + [c];
    }
  }

  /** It never gets stuck and always ends: any Select left can be expanded next, under any unused numbers, and
      none is left exactly when there have been as many expansions as there were Selects. */
  lemma {:induction false} AnyOrderEnds(f: Func, cs: seq<Choice>)
    requires WellFormed(f) && AllSupported(f) && Sequence(f, cs)
    ensures var g := ExpandedBy(f, cs);
            && |cs| <= TotalSelects(f.layout, f.blocks)
            && (forall b, k: nat, c0, c1 ::
                  (b in g.blocks && k < |g.blocks[b].insts| && g.blocks[b].insts[k].opc.Select?
                   && c0 != c1 && c0 !in g.blocks && c1 !in g.blocks) ==> Sequence(f, cs + [Choice(b, k, c0, c1)]))
            && (|cs| == TotalSelects(f.layout, f.blocks) <==>
                forall b, i :: b in g.blocks && 0 <= i < |g.blocks[b].insts| ==> !g.blocks[b].insts[i].opc.Select?)
  {
    hide BlockOk;
    var g := ExpandedBy(f, cs);
    AnyOrderCorrect(f, cs, {});
    forall b, k: nat, c0, c1 | b in g.blocks && k < |g.blocks[b].insts| && g.blocks[b].insts[k].opc.Select?
      && c0 != c1 && c0 !in g.blocks && c1 !in g.blocks
      ensures Sequence(f, cs + [Choice(b, k, c0, c1)])
    {
      SequenceSnoc(f, cs, Choice(b, k, c0, c1));
    }
    SelectsLeft(g);
  }

  lemma {:induction false} SelectsLeft(g: Func)
    requires WellFormed(g)
    ensures TotalSelects(g.layout, g.blocks) == 0 <==>
            forall b, i :: b in g.blocks && 0 <= i < |g.blocks[b].insts| ==> !g.blocks[b].insts[i].opc.Select?
  {
    if TotalSelects(g.layout, g.blocks) == 0 {
      forall b, i | b in g.blocks && 0 <= i < |g.blocks[b].insts| ensures !g.blocks[b].insts[i].opc.Select? {
        assert b in Elements(g.layout);
        NoSelectLeft(g.layout, g.blocks, b);
      }
    } else {
      var b := FirstBlock(g.layout, g.blocks);
      var k := FirstSelect(g.blocks[b].insts);
      assert g.blocks[b].insts[k].opc.Select?;
    }
  }
}
