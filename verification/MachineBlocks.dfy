/** Basic blocks and functions as objects, and the Select expansion performed on them in place.  A block is
    named by its number, also in successor lists. */
module MachineBlocks {
  import opened Words
  import opened Isa
  import opened Mir
  import opened Cfg
  import opened SelectExpansion

  class MachineBasicBlock {
    const number: BlockId
    var insts: seq<MInstr>
    var succs: seq<BlockId>

    constructor (n: BlockId)
      ensures number == n && insts == [] && succs == []
    {
      number, insts, succs := n, [], [];
    }

    ghost function Val(): Block
      reads this
    {
      Block(insts, succs)
    }

    /** The labels of the PHIs at the head of the block, changed one PHI at a time. */
    method UpdatePHIs(from: BlockId, to: BlockId)
      modifies this`insts
      ensures insts == RenamePhis(old(insts), from, to)
    {
      var i := 0;
      while i < |insts| && insts[i].opc.PHI?
        invariant i <= |insts| == |old(insts)|
        invariant forall j :: 0 <= j < i ==>
                    old(insts)[j].opc.PHI? && insts[j] == MInstr(PHI, RenameLabels(old(insts)[j].ops, from, to))
        invariant forall j :: i <= j < |insts| ==> insts[j] == old(insts)[j]
      {
        insts := insts[i := MInstr(PHI, RenameLabels(insts[i].ops, from, to))];
        i := i + 1;
      }
      PhiCountIs(old(insts), i);
      RenamedBody(old(insts), from, to);
      assert insts == RenamePhis(old(insts), from, to);
    }

    method AddSuccessor(s: BlockId)
      modifies this`succs
      ensures succs == old(succs) + [s]
    {
      succs := succs + [s];
    }
  }

  lemma {:induction false} PhiCountIs(insts: seq<MInstr>, n: nat)
    requires n <= |insts| && (n < |insts| ==> !insts[n].opc.PHI?)
    requires forall j :: 0 <= j < n ==> insts[j].opc.PHI?
    ensures PhiCount(insts) == n
  {
    if n > 0 {
      PhiCountIs(insts[1..], n - 1);
    }
  }

  lemma {:induction false} RenameTwice(insts: seq<MInstr>, from: BlockId, to: BlockId)
    requires from != to
    ensures RenamePhis(RenamePhis(insts, from, to), from, to) == RenamePhis(insts, from, to)
  {
    if insts != [] && insts[0].opc.PHI? {
      var r := RenamePhis(insts, from, to);
      assert r[1..] == RenamePhis(insts[1..], from, to);
      assert RenameLabels(r[0].ops, from, to) == r[0].ops;
      RenameTwice(insts[1..], from, to);
    }
  }

  lemma {:induction false} RenameHead(head: seq<MInstr>, x: seq<MInstr>, from: BlockId, to: BlockId)
    requires x == [] || !x[0].opc.PHI?
    ensures RenamePhis(head + x, from, to) == RenamePhis(head, from, to) + x
  {
    if head == [] {
      assert head + x == x;
    } else {
      assert (head + x)[1..] == head[1..] + x;
      RenameHead(head[1..], x, from, to);
    }
  }

  /** A block's code after expansion: its PHIs are renamed when it is a successor of the split block. */
  function Updated(insts: seq<MInstr>, successor: bool, from: BlockId, to: BlockId): seq<MInstr> {
    if successor then RenamePhis(insts, from, to) else insts
  }

  lemma {:induction false} UpdatedTwice(insts: seq<MInstr>, p: bool, q: bool, from: BlockId, to: BlockId)
    requires from != to
    ensures Updated(Updated(insts, p, from, to), q, from, to) == Updated(insts, p || q, from, to)
  {
    RenameTwice(insts, from, to);
  }

  lemma NotUpdated()
    ensures forall insts, from, to :: Updated(insts, false, from, to) == insts
  {
  }

  function Numbers(s: seq<MachineBasicBlock>): (r: seq<BlockId>)
    ensures |r| == |s| && forall i :: 0 <= i < |s| ==> r[i] == s[i].number
  {
    seq(|s|, i requires 0 <= i < |s| => s[i].number)
  }

  ghost predicate DistinctNumbers(layout: seq<MachineBasicBlock>) {
    forall i, j :: 0 <= i < j < |layout| ==> layout[i].number != layout[j].number
  }

  class MachineFunction {
    var layout: seq<MachineBasicBlock>
    var nextNumber: BlockId
    ghost var Model: Func  // the function the blocks stand for

    ghost predicate Valid()
      reads this, layout
    {
      && DistinctNumbers(layout)
      && (forall b :: b in layout ==> b.number < nextNumber)
      && Model.layout == Numbers(layout)
      && Model.blocks.Keys == Elements(Model.layout)
      && (forall b :: b in layout ==> b.number in Model.blocks && Model.blocks[b.number] == b.Val())
      && (forall x :: x in Model.blocks ==> Elements(Model.blocks[x].succs) <= Model.blocks.Keys)
    }

    method IndexOf(b: MachineBasicBlock) returns (i: nat)
      requires b in layout
      ensures i < |layout| && layout[i] == b
    {
      i := 0;
      while layout[i] != b
        invariant i < |layout| && b in layout[i..]
        decreases |layout| - i
      {
        i := i + 1;
      }
    }

    method BlockNumbered(n: BlockId) returns (b: MachineBasicBlock)
      requires n in Numbers(layout)
      ensures b in layout && b.number == n
    {
      var i := 0;
      while layout[i].number != n
        invariant i < |layout| && n in Numbers(layout)[i..]
        decreases |layout| - i
      {
        i := i + 1;
      }
      b := layout[i];
    }

    /** One successor moves from `from` to `to`, and its PHIs follow. */
    method TransferFirst(to: MachineBasicBlock, from: MachineBasicBlock)
      requires DistinctNumbers(layout) && to in layout && from in layout && to != from
      requires from.succs != [] && from.succs[0] in Numbers(layout)
      modifies layout
      ensures unchanged(this)
      ensures from.succs == old(from.succs[1..]) && to.succs == old(to.succs + [from.succs[0]])
      ensures forall b :: b in layout && b != to && b != from ==> b.succs == old(b.succs)
      ensures forall b :: b in layout ==>
                b.insts == Updated(old(b.insts), b.number == old(from.succs[0]), from.number, to.number)
    {
      var s := BlockNumbered(from.succs[0]);
      s.UpdatePHIs(from.number, to.number);
      to.succs := to.succs + [from.succs[0]];
      from.succs := from.succs[1..];
    }

    /** LLVM's transferSuccessorsAndUpdatePHIs: `to` takes over the successors of `from`, and their PHIs name
        `to` where they named `from`. */
    method TransferSuccessorsAndUpdatePHIs(to: MachineBasicBlock, from: MachineBasicBlock)
      requires DistinctNumbers(layout) && to in layout && from in layout && to != from && to.number != from.number
      requires forall s :: s in from.succs ==> s in Numbers(layout)
      modifies layout
      ensures unchanged(this)
      ensures from.succs == [] && to.succs == old(to.succs) + old(from.succs)
      ensures forall b :: b in layout && b != to && b != from ==> b.succs == old(b.succs)
      ensures forall b :: b in layout ==>
                b.insts == Updated(old(b.insts), b.number in old(from.succs), from.number, to.number)
    {
      hide Updated;
      ghost var all := from.succs;
      NotUpdated();
      ghost var done: seq<BlockId> := [];
      while from.succs != []
        invariant unchanged(this)
        invariant all == done + from.succs
        invariant to.succs == old(to.succs) + done
        invariant forall b :: b in layout && b != to && b != from ==> b.succs == old(b.succs)
        invariant forall b :: b in layout ==>
                    b.insts == Updated(old(b.insts), b.number in done, from.number, to.number)
        decreases |from.succs|
      {
        ghost var s := from.succs[0];
        assert s in all;
        forall b | b in layout
          ensures Updated(b.insts, b.number == s, from.number, to.number)
                  == Updated(old(b.insts), b.number in done + [s], from.number, to.number)
        {
          UpdatedTwice(old(b.insts), b.number in done, b.number == s, from.number, to.number);
        }
        TransferFirst(to, from);
        done := done + [s];
      }
      assert done == all;
    }

    /** copy0 and copy1, inserted after bb. */
    method InsertTwoBlocks(bb: MachineBasicBlock) returns (copy0: MachineBasicBlock, copy1: MachineBasicBlock)
      requires bb in layout && DistinctNumbers(layout) && forall b :: b in layout ==> b.number < nextNumber
      modifies this`layout, this`nextNumber
      ensures fresh(copy0) && fresh(copy1) && copy0 != copy1
      ensures nextNumber == old(nextNumber) + 2
      ensures copy0.number == old(nextNumber) && copy1.number == old(nextNumber) + 1
      ensures copy0.insts == [] && copy0.succs == [] && copy1.insts == [] && copy1.succs == []
      ensures DistinctNumbers(layout)
      ensures forall b :: b in layout <==> b in old(layout) || b == copy0 || b == copy1
      ensures forall i :: 0 <= i < |layout| ==> layout[i] in old(layout) || fresh(layout[i])
      ensures Numbers(layout) == InsertAfter(Numbers(old(layout)), bb.number, [copy0.number, copy1.number])
      ensures forall s :: s in Numbers(old(layout)) ==> s in Numbers(layout) && s != copy1.number
    {
      ghost var numbers := Numbers(layout);
      copy0 := new MachineBasicBlock(nextNumber);
      copy1 := new MachineBasicBlock(nextNumber + 1);
      nextNumber := nextNumber + 2;
      var i := IndexOf(bb);
      StillDistinct(layout, i, copy0, copy1);
      NumbersInserted(layout, i, copy0, copy1);
      InsertAfterElements(numbers, bb.number, [copy0.number, copy1.number]);
      layout := layout[..i + 1] + [copy0, copy1] + layout[i + 1..];
    }

    /** Moves what follows position k of bb to copy1, together with the successors, and makes copy0 and
        copy1 the successors of bb. */
    method SplitAfter(bb: MachineBasicBlock, k: nat, copy0: MachineBasicBlock, copy1: MachineBasicBlock)
      requires DistinctNumbers(layout) && bb in layout && copy0 in layout && copy1 in layout
      requires copy0 != bb && copy1 != bb && copy0 != copy1 && copy1.number != bb.number && copy1.succs == []
      requires (forall s :: s in bb.succs ==> s in Numbers(layout)) && copy1.number !in bb.succs
      requires k < |bb.insts| && !bb.insts[k].opc.PHI?
      modifies layout
      ensures unchanged(this)
      ensures bb.succs == [copy0.number, copy1.number] && copy1.succs == old(bb.succs)
      ensures copy1.insts == old(bb.insts[k + 1..])
      ensures bb.insts == Updated(old(bb.insts[..k]), bb.number in old(bb.succs), bb.number, copy1.number)
                          + [old(bb.insts[k])]
      ensures forall b :: b in layout && b != bb && b != copy1 ==>
                b.succs == old(b.succs) &&
                b.insts == Updated(old(b.insts), b.number in old(bb.succs), bb.number, copy1.number)
    {
      copy1.insts := bb.insts[k + 1..];
      bb.insts := bb.insts[..k + 1];
      assert bb.insts == old(bb.insts[..k]) + [old(bb.insts[k])];
      RenameHead(old(bb.insts[..k]), [old(bb.insts[k])], bb.number, copy1.number);
      TransferSuccessorsAndUpdatePHIs(copy1, bb);
      bb.AddSuccessor(copy0.number);
      bb.AddSuccessor(copy1.number);
    }

    /** The conditional jump at the end of bb, the edge from copy0 to copy1 and the PHI at the head of copy1;
        the pseudo at position k of bb is then erased. */
    method FillDiamond(bb: MachineBasicBlock, copy0: MachineBasicBlock, copy1: MachineBasicBlock, k: nat, cc: Cmp)
      requires bb != copy0 && bb != copy1 && copy0 != copy1
      requires k == |bb.insts| - 1 && IsSelect(bb.insts[k]) && CmpOfIsd(bb.insts[k].ops[3].v) == Some(cc)
      modifies bb`insts, copy0`succs, copy1`insts
      ensures bb.insts == old(bb.insts[..k]) + [SelectJump(old(bb.insts[k]), copy1.number)]
      ensures copy0.succs == old(copy0.succs) + [copy1.number]
      ensures copy1.insts == [SelectPhi(old(bb.insts[k]), bb.number, copy0.number)] + old(copy1.insts)
    {
      var mi := bb.insts[k];
      bb.insts := bb.insts + [MInstr(J_rr(cc), [Use(mi.ops[1].r), Use(mi.ops[2].r), MBB(copy1.number)])];
      copy0.AddSuccessor(copy1.number);
      copy1.insts := [MInstr(PHI, [Use(mi.ops[0].r), Use(mi.ops[5].r), MBB(copy0.number),
                                   Use(mi.ops[4].r), MBB(bb.number)])] + copy1.insts;
      bb.insts := bb.insts[..k] + bb.insts[k + 1..];
    }

    /** The edits of the expansion on the objects. */
    method BuildDiamond(bb: MachineBasicBlock, k: nat) returns (copy0: MachineBasicBlock, copy1: MachineBasicBlock, ok: bool)
      requires DistinctNumbers(layout) && (forall b :: b in layout ==> b.number < nextNumber)
      requires forall s :: s in bb.succs ==> s in Numbers(layout)
      requires bb in layout && k < |bb.insts| && IsSelect(bb.insts[k])
      modifies this`layout, this`nextNumber, layout
      ensures Model == old(Model)
      ensures DistinctNumbers(layout) && nextNumber == old(nextNumber) + 2
      ensures copy0.number == old(nextNumber) && copy1.number == old(nextNumber) + 1
      ensures forall b :: b in layout <==> b in old(layout) || b == copy0 || b == copy1
      ensures Numbers(layout) == InsertAfter(Numbers(old(layout)), bb.number, [copy0.number, copy1.number])
      ensures ok <==> CmpOfIsd(old(bb.insts[k].ops[3].v)).Some?
      ensures ok ==>
                && bb.succs == [copy0.number, copy1.number] && copy0.succs == [copy1.number]
                && copy1.succs == old(bb.succs) && copy0.insts == []
                && copy1.insts == [SelectPhi(old(bb.insts[k]), bb.number, copy0.number)] + old(bb.insts[k + 1..])
                && bb.insts == Updated(old(bb.insts[..k]) + [SelectJump(old(bb.insts[k]), copy1.number)],
                                       bb.number in old(bb.succs), bb.number, copy1.number)
      ensures forall b :: b in old(layout) && b != bb ==>
                b.succs == old(b.succs) &&
                b.insts == Updated(old(b.insts), b.number in old(bb.succs), bb.number, copy1.number)
    {
      ghost var head, sel := bb.insts[..k], bb.insts[k];
      var cc := CmpOfIsd(bb.insts[k].ops[3].v);
      copy0, copy1 := InsertTwoBlocks(bb);
      SplitAfter(bb, k, copy0, copy1);
      ok := cc.Some?;
      if ok {
        FillDiamond(bb, copy0, copy1, k, cc.value);
        RenameHead(head, [SelectJump(sel, copy1.number)], bb.number, copy1.number);
      }
    }

    lemma NextIsFresh()
      requires Valid()
      ensures nextNumber !in Model.blocks && nextNumber + 1 !in Model.blocks
    {
      forall x | x in Model.blocks ensures x < nextNumber {
        assert x in Elements(Model.layout);
        var i :| 0 <= i < |layout| && Numbers(layout)[i] == x;
        assert layout[i] in layout;
      }
    }

    /** The same, said about the function the blocks stand for. */
    method EditBlocks(bb: MachineBasicBlock, k: nat) returns (copy0: MachineBasicBlock, copy1: MachineBasicBlock, ok: bool)
      requires Valid() && bb in layout && k < |bb.insts| && IsSelect(bb.insts[k])
      modifies this`layout, this`nextNumber, layout
      ensures Model == old(Model)
      ensures DistinctNumbers(layout) && nextNumber == old(nextNumber) + 2
      ensures copy0.number == old(nextNumber) && copy1.number == old(nextNumber) + 1
      ensures forall b :: b in layout <==> b in old(layout) || b == copy0 || b == copy1
      ensures Numbers(layout) == InsertAfter(Model.layout, bb.number, [copy0.number, copy1.number])
      ensures ok <==> CmpOfIsd(old(bb.insts[k].ops[3].v)).Some?
      ensures ok ==>
                && CanExpand(Model, bb.number, k)
                && copy0.Val() == Block([], [copy1.number])
                && copy1.Val() == Copy1Val(Model, bb.number, k, copy0.number)
                && (forall b :: b in old(layout) ==>
                      b.Val() == OldVal(Model, bb.number, k, copy0.number, copy1.number, b.number))
    {
      hide Updated, InsertAfter, SelectPhi, SelectJump;
      NextIsFresh();
      assert Model.blocks[bb.number] == bb.Val();
      SuccessorsLaidOut(Model, bb.number, nextNumber, nextNumber + 1);
      copy0, copy1, ok := BuildDiamond(bb, k);
    }

    /** The expansion of the Select at position k of bb.  The result is the block the rest of bb went to,
        or null when the condition has no jump, which the compiler reports as a fatal error. */
    method EmitInstrWithCustomInserter(bb: MachineBasicBlock, k: nat) returns (r: MachineBasicBlock?)
      requires Valid() && bb in layout && k < |bb.insts| && IsSelect(bb.insts[k])
      modifies this, layout
      ensures r == null <==> CmpOfIsd(old(bb.insts[k].ops[3].v)).None?
      ensures r != null ==>
                && Valid() && nextNumber == old(nextNumber) + 2
                && r in layout && r.number == old(nextNumber) + 1
                && CanExpand(old(Model), bb.number, k)
                && Model == ExpandSelect(old(Model), bb.number, k, old(nextNumber), old(nextNumber) + 1)
    {
      hide OldVal, Copy1Val, ExpandSelect, InsertAfter, IsSupportedSelect;
      ghost var f, n := Model, nextNumber;
      NextIsFresh();
      var copy0, copy1, ok := EditBlocks(bb, k);
      if !ok {
        return null;
      }
      r := copy1;
      Finish(f, bb.number, k, copy0, copy1, n, n + 1);
    }

    /** The model f brought up to date after the edits. */
    ghost method Finish(f: Func, b: BlockId, k: nat, copy0: MachineBasicBlock, copy1: MachineBasicBlock,
                        c0: BlockId, c1: BlockId)
      requires DistinctNumbers(layout) && (forall x :: x in layout ==> x.number < nextNumber)
      requires CanExpand(f, b, k) && f.blocks.Keys == Elements(f.layout)
      requires forall x :: x in f.blocks ==> Elements(f.blocks[x].succs) <= f.blocks.Keys
      requires copy0.number == c0 && copy1.number == c1 && c0 != c1 && c0 !in f.blocks && c1 !in f.blocks
      requires Numbers(layout) == InsertAfter(f.layout, b, [c0, c1])
      requires copy0.Val() == Block([], [c1]) && copy1.Val() == Copy1Val(f, b, k, c0)
      requires forall x :: x in layout && x != copy0 && x != copy1 ==>
                 x.number in f.blocks && x.Val() == OldVal(f, b, k, c0, c1, x.number)
      modifies this`Model
      ensures Valid()
      ensures Model == ExpandSelect(f, b, k, c0, c1)
    {
      var g := ExpandedValues(f, b, k, c0, c1);
      Refresh(g);
    }

    ghost method Refresh(g: Func)
      requires DistinctNumbers(layout)
      requires forall b :: b in layout ==> b.number < nextNumber
      requires g.layout == Numbers(layout) && g.blocks.Keys == Elements(g.layout)
      requires forall b :: b in layout ==> b.number in g.blocks && g.blocks[b.number] == b.Val()
      requires forall x :: x in g.blocks ==> Elements(g.blocks[x].succs) <= g.blocks.Keys
      modifies this`Model
      ensures Valid() && Model == g
    {
      Model := g;
    }
  }

  function Copy1Val(f: Func, b: BlockId, k: nat, c0: BlockId): Block
    requires CanExpand(f, b, k)
  {
    var insts := f.blocks[b].insts;
    Block([SelectPhi(insts[k], b, c0)] + insts[k + 1..], f.blocks[b].succs)
  }

  function OldVal(f: Func, b: BlockId, k: nat, c0: BlockId, c1: BlockId, x: BlockId): Block
    requires CanExpand(f, b, k) && x in f.blocks
  {
    Block(Updated(CutInsts(f, b, k, c1, x), x in f.blocks[b].succs, b, c1), if x == b then [c0, c1] else f.blocks[x].succs)
  }

  lemma {:induction false} SuccessorsLaidOut(f: Func, b: BlockId, c0: BlockId, c1: BlockId)
    requires b in f.blocks && f.blocks.Keys == Elements(f.layout) && Elements(f.blocks[b].succs) <= f.blocks.Keys
    requires c0 !in f.blocks && c1 !in f.blocks
    ensures forall s :: s in f.blocks[b].succs ==> s in f.layout && s != c0 && s != c1
  {
    forall s | s in f.blocks[b].succs ensures s in f.layout && s in f.blocks {
      assert s in Elements(f.blocks[b].succs);
      assert s in Elements(f.layout);
    }
  }

  /** The blocks of the expanded function one by one. */
  lemma {:induction false} ExpandedValues(f: Func, b: BlockId, k: nat, c0: BlockId, c1: BlockId) returns (g: Func)
    requires CanExpand(f, b, k) && f.blocks.Keys == Elements(f.layout)
    requires forall x :: x in f.blocks ==> Elements(f.blocks[x].succs) <= f.blocks.Keys
    requires c0 != c1 && c0 !in f.blocks && c1 !in f.blocks
    ensures g == ExpandSelect(f, b, k, c0, c1)
    ensures && g.layout == InsertAfter(f.layout, b, [c0, c1]) && g.blocks.Keys == Elements(g.layout)
            && c0 in g.blocks && g.blocks[c0] == Block([], [c1])
            && c1 in g.blocks && g.blocks[c1] == Copy1Val(f, b, k, c0)
            && (forall x :: x in f.blocks ==> x in g.blocks && g.blocks[x] == OldVal(f, b, k, c0, c1, x))
            && (forall x :: x in g.blocks ==> Elements(g.blocks[x].succs) <= g.blocks.Keys)
  {
    g := ExpandSelect(f, b, k, c0, c1);
    SuccessorsLaidOut(f, b, c0, c1);
    ExpandedSuccs(f, b, k, c0, c1);
    InsertAfterElements(f.layout, b, [c0, c1]);
    assert b in Elements(f.layout);
    forall x ensures x in InsertAfter(f.layout, b, [c0, c1]) <==> x in f.blocks.Keys || x == c0 || x == c1 {
      assert x in f.layout <==> x in Elements(f.layout);
    }
    forall x | x in f.blocks ensures x in g.blocks && g.blocks[x] == OldVal(f, b, k, c0, c1, x) {
      OldBlock(f, b, k, c0, c1, x);
    }
    forall x | x in g.blocks ensures Elements(g.blocks[x].succs) <= g.blocks.Keys {
      if x == c1 || (x in f.blocks && x != b) {
        var y := if x == c1 then b else x;
        assert g.blocks[x].succs == f.blocks[y].succs;
        assert Elements(f.blocks[y].succs) <= f.blocks.Keys;
      }
    }
  }

  /** Inserting two blocks with fresh numbers keeps the numbers distinct. */
  lemma {:induction false} StillDistinct(s: seq<MachineBasicBlock>, i: nat, c0: MachineBasicBlock, c1: MachineBasicBlock)
    requires i < |s| && DistinctNumbers(s) && c0.number < c1.number
    requires forall b :: b in s ==> b.number < c0.number
    ensures var l := s[..i + 1] + [c0, c1] + s[i + 1..];
            DistinctNumbers(l) && (forall b :: b in l <==> b in s || b == c0 || b == c1)
  {
    var x, y := s[..i + 1], s[i + 1..];
    assert s == x + y;
    assert forall b :: b in s <==> b in x || b in y;
    var l := x + [c0, c1] + y;
    assert forall b :: b in l <==> b in x || b == c0 || b == c1 || b in y;
    forall p, q | 0 <= p < q < |l| ensures l[p].number != l[q].number {
      var was := (j: nat) => if j <= i then j else j - 2;
      if l[p] != c0 && l[p] != c1 && l[q] != c0 && l[q] != c1 {
        assert l[p] == s[was(p)] && l[q] == s[was(q)];
      } else {
        assert l[p] in s || l[q] in s || (l[p] == c0 && l[q] == c1);
      }
    }
  }

  lemma {:induction false} NumbersInserted(s: seq<MachineBasicBlock>, i: nat, c0: MachineBasicBlock, c1: MachineBasicBlock)
    requires i < |s| && DistinctNumbers(s)
    ensures Numbers(s[..i + 1] + [c0, c1] + s[i + 1..]) == InsertAfter(Numbers(s), s[i].number, [c0.number, c1.number])
  {
    InsertedAt(Numbers(s), i, [c0.number, c1.number]);
  }

  lemma {:induction false} InsertedAt(s: seq<BlockId>, i: nat, added: seq<BlockId>)
    requires i < |s| && Distinct(s)
    ensures InsertAfter(s, s[i], added) == s[..i + 1] + added + s[i + 1..]
  {
    if i == 0 {
      assert s[..1] == [s[0]];
    } else {
      InsertedAt(s[1..], i - 1, added);
      assert s[..i + 1] == [s[0]] + s[1..][..i];
      assert s[i + 1..] == s[1..][i..];
    }
  }
}
