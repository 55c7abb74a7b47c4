/** Layout of a whole function: every block gets a label, and the function becomes its image.  A well-formed
    function always links; what is left to check is that displacements and immediates fit. */
module FunctionAssembly {
  import opened Words
  import opened Isa
  import opened Mir
  import opened Cfg
  import opened Decoding
  import opened Assembler
  import opened ByteMachine
  import FrameIndex

  /** The slot the code of block b begins at. */
  ghost function LabelAt(f: Func, b: BlockId): nat
    requires Assemblable(f) && b in f.layout
  {
    BlockFragments(f, b);
    Off(FunctionFragments(f), Start(f.layout, f.blocks, b))
  }

  ghost function PlaceLabels(f: Func): Labels
    requires Assemblable(f)
  {
    map b | b in f.layout :: LabelAt(f, b)
  }

  // ----- the assembler -----

  lemma {:induction false} SlotsOfOne(mi: MInstr)
    requires Ready(mi)
    ensures FragmentOf(mi).slots == if mi.opc.DBG_VALUE? then 0 else SlotsOf(mi.opc)
  {
  }

  /** How many slots a block takes. */
  method CountSlots(insts: seq<MInstr>) returns (n: nat)
    requires AllReady(insts)
    ensures n == SlotSum(Fragments(insts))
  {
    hide Ready, FragmentOf;
    n := 0;
    ghost var frs := Fragments(insts);
    for i := 0 to |insts|
      invariant n + SlotSum(frs[i..]) == SlotSum(frs)
    {
      assert frs[i..][1..] == frs[i + 1..] && frs[i..][0] == FragmentOf(insts[i]);
      SlotsOfOne(insts[i]);
      n := n + (if insts[i].opc.DBG_VALUE? then 0 else SlotsOf(insts[i].opc));
    }
    assert frs[|insts|..] == [];
  }

  lemma {:induction false} NextAt(layout: seq<BlockId>, i: nat)
    requires Distinct(layout) && i < |layout|
    ensures LayoutNext(layout, layout[i]) == if i + 1 < |layout| then Some(layout[i + 1]) else None
  {
    if i > 0 {
      NextAt(layout[1..], i - 1);
      assert layout[1..][i - 1] == layout[i];
      assert i + 1 < |layout| ==> layout[1..][i] == layout[i + 1];
    } else if |layout| >= 2 {
      assert layout[0] == layout[i];
    }
  }

  /** Where the code laid out so far ends. */
  ghost predicate LaidUpTo(f: Func, i: nat, n: nat)
    requires LaidOut(f.layout, f.blocks)
  {
    i <= |f.layout| && n == if i < |f.layout| then Start(f.layout, f.blocks, f.layout[i]) else |Code(f.layout, f.blocks)|
  }

  lemma {:induction false} LayOneMore(f: Func, i: nat, code: seq<MInstr>)
    requires Assemblable(f) && i < |f.layout| && LaidUpTo(f, i, |code|)
    requires |code| <= |Code(f.layout, f.blocks)| && code == Code(f.layout, f.blocks)[..|code|]
    ensures var more := code + f.blocks[f.layout[i]].insts;
            LaidUpTo(f, i + 1, |more|)
            && |more| <= |Code(f.layout, f.blocks)| && more == Code(f.layout, f.blocks)[..|more|]
  {
    hide Ready;
    var b, all := f.layout[i], Code(f.layout, f.blocks);
    StartBound(f.layout, f.blocks, b);
    StartNext(f.layout, f.blocks, b);
    NextAt(f.layout, i);
    var s, insts := |code|, f.blocks[b].insts;
    assert all[..s + |insts|] == all[..s] + all[s..s + |insts|];
  }

  lemma {:induction false} FragmentsTake(code: seq<MInstr>, n: nat)
    requires AllReady(code) && n <= |code|
    ensures AllReady(code[..n]) && Fragments(code[..n]) == Fragments(code)[..n]
  {
    hide FragmentOf;
    assert forall i :: 0 <= i < n ==> code[..n][i] == code[i];
  }

  lemma {:induction false} FragmentsConcat(a: seq<MInstr>, b: seq<MInstr>)
    requires AllReady(a) && AllReady(b)
    ensures AllReady(a + b) && SlotSum(Fragments(a + b)) == SlotSum(Fragments(a)) + SlotSum(Fragments(b))
  {
    hide FragmentOf;
    ReadyConcat(a, b);
    assert Fragments(a + b) == Fragments(a) + Fragments(b);
    SlotSumConcat(Fragments(a), Fragments(b));
  }

  /** The first block's label is 0, and each label is where the code before its block ends. */
  lemma {:induction false} LabelIsEnd(f: Func, i: nat, code: seq<MInstr>)
    requires Assemblable(f) && i < |f.layout| && LaidUpTo(f, i, |code|)
    requires |code| <= |Code(f.layout, f.blocks)| && code == Code(f.layout, f.blocks)[..|code|]
    ensures AllReady(code) && LabelAt(f, f.layout[i]) == SlotSum(Fragments(code))
  {
    hide Ready, FragmentOf;
    FunctionReady(f);
    FragmentsTake(Code(f.layout, f.blocks), |code|);
    BlockFragments(f, f.layout[i]);
  }

  /** Collects the code of the blocks in layout order and notes where each begins, then emits and patches. */
  method AssembleFunction(f: Func) returns (data: array<Byte>, labels: Labels)
    requires Assemblable(f) && Linked(FunctionFragments(f), PlaceLabels(f))
    ensures labels == PlaceLabels(f)
    ensures fresh(data) && data[..] == Image(FunctionFragments(f), labels, 0)
  {
    hide Ready, FragmentOf, LabelAt, Start, LaidUpTo, Linked, Image;
    var code: seq<MInstr> := [];
    var slot := 0;
    labels := map[];
    NothingLaid(f);
    for i := 0 to |f.layout|
      invariant LaidUpTo(f, i, |code|)
      invariant |code| <= |Code(f.layout, f.blocks)| && code == Code(f.layout, f.blocks)[..|code|]
      invariant AllReady(code) && slot == SlotSum(Fragments(code))
      invariant forall b :: b in labels <==> b in f.layout[..i]
      invariant forall b :: b in labels ==> labels[b] == LabelAt(f, b)
    {
      var b := f.layout[i];
      LabelIsEnd(f, i, code);
      LayOneMore(f, i, code);
      FragmentsConcat(code, f.blocks[b].insts);
      labels := labels[b := slot];
      var n := CountSlots(f.blocks[b].insts);
      slot := slot + n;
      code := code + f.blocks[b].insts;
      assert f.layout[..i + 1] == f.layout[..i] + [b];
    }
    AllLaid(f, code);
    assert f.layout[..|f.layout|] == f.layout;
    PlacedAll(f, labels);
    data := AssembleCode(code, labels);
  }

  lemma {:induction false} PlacedAll(f: Func, labels: Labels)
    requires Assemblable(f) && forall b :: b in labels <==> b in f.layout
    requires forall b :: b in labels ==> labels[b] == LabelAt(f, b)
    ensures labels == PlaceLabels(f)
  {
    var p := PlaceLabels(f);
    assert forall b :: b in labels ==> b in p && labels[b] == p[b];
    assert forall b :: b in p ==> b in labels;
    assert labels == p;
  }

  lemma {:induction false} NothingLaid(f: Func)
    requires Assemblable(f)
    ensures LaidUpTo(f, 0, 0)
  {
  }

  lemma {:induction false} AllLaid(f: Func, code: seq<MInstr>)
    requires Assemblable(f) && LaidUpTo(f, |f.layout|, |code|)
    requires |code| <= |Code(f.layout, f.blocks)| && code == Code(f.layout, f.blocks)[..|code|]
    ensures code == Code(f.layout, f.blocks) && AllReady(code) && Fragments(code) == FunctionFragments(f)
  {
    hide Ready, FragmentOf;
    FunctionReady(f);
  }

  // ----- which functions assemble -----

  /** Branches name blocks of the function. */
  ghost predicate TargetsExist(f: Func) {
    forall b :: b in f.blocks ==> Targets(f.blocks[b].insts) <= f.blocks.Keys
  }

  lemma {:induction false} WellFormedTargets(f: Func)
    requires WellFormed(f)
    ensures TargetsExist(f)
  {
    forall b | b in f.blocks ensures Targets(f.blocks[b].insts) <= f.blocks.Keys {
      assert BlockOk(f, b);
      assert Elements(f.blocks[b].succs) <= f.blocks.Keys;
    }
  }

  lemma {:induction false} CodeTargets(layout: seq<BlockId>, blocks: map<BlockId, Block>)
    requires LaidOut(layout, blocks)
    requires forall b :: b in layout ==> b in blocks && Targets(blocks[b].insts) <= blocks.Keys
    ensures Targets(Code(layout, blocks)) <= blocks.Keys
  {
    if layout != [] {
      var first := layout[0];
      assert first in layout && Targets(blocks[first].insts) <= blocks.Keys;
      assert forall b :: b in layout[1..] ==> b in layout;
      CodeTargets(layout[1..], blocks);
      TargetsConcat(blocks[first].insts, Code(layout[1..], blocks));
    }
  }

  /** The label of a fragment is a target of its instruction. */
  lemma {:induction false} LabelIsTarget(mi: MInstr)
    requires Ready(mi)
    ensures var l := LabelOf(FragmentOf(mi)); l.Some? ==> l.value in BranchTargets(mi)
  {
    hide Ready, FragmentOf, Denote;
    FragmentDenotes(mi);
    DenoteControl(mi);
    var l := LabelOf(FragmentOf(mi));
    if l.Some? {
      assert MBB(l.value).b == l.value;
    }
  }

  lemma {:induction false} CodeLinks(code: seq<MInstr>, labels: Labels)
    requires AllReady(code) && Targets(code) <= labels.Keys
    ensures Linked(Fragments(code), labels) && AllFaithful(Fragments(code), labels)
  {
    hide Ready, FragmentOf, WellMade, Faithful, LabelOf;
    if code != [] {
      LabelIsTarget(code[0]);
      FragmentFaithful(code[0]);
      assert forall i :: 0 <= i < |code| - 1 ==> code[1..][i] == code[i + 1];
      CodeLinks(code[1..], labels);
      assert Fragments(code)[1..] == Fragments(code[1..]);
    }
  }

  /** A function whose branches name its own blocks links, and its image is faithful exactly when every
      instruction fits its format where it was placed. */
  lemma {:induction false} FunctionLinks(f: Func)
    requires Assemblable(f) && TargetsExist(f)
    ensures LabelsPlaced(f, PlaceLabels(f)) && Linked(FunctionFragments(f), PlaceLabels(f))
    ensures Assembled(f, PlaceLabels(f)) <==> AllInRange(FunctionFragments(f), PlaceLabels(f), 0)
  {
    hide Ready, FragmentOf, Linked, AllFaithful, AllInRange;
    var labels := PlaceLabels(f);
    FunctionReady(f);
    assert forall b :: b in f.layout ==> b in f.blocks by { LayoutExists(f.layout, f.blocks); }
    CodeTargets(f.layout, f.blocks);
    forall b ensures b in labels.Keys <==> b in f.blocks.Keys {
    }
    CodeLinks(Code(f.layout, f.blocks), labels);
    forall b | b in f.layout
      ensures Start(f.layout, f.blocks, b) <= |FunctionFragments(f)|
      ensures labels[b] == Off(FunctionFragments(f), Start(f.layout, f.blocks, b))
    {
      BlockFragments(f, b);
    }
  }

  lemma {:induction false} LayoutExists(layout: seq<BlockId>, blocks: map<BlockId, Block>)
    requires LaidOut(layout, blocks)
    ensures forall b :: b in layout ==> b in blocks
  {
    forall b | b in layout ensures b in blocks {
      var i :| 0 <= i < |layout| && layout[i] == b;
    }
  }

  // ----- reading the bytes back -----

  /** From the slot after `at` to the label of a branch. */
  function DisplacementOf(i: Insn, labels: Labels, at: nat): int {
    if (i.Branch? || i.BranchIf?) && i.target in labels then labels[i.target] - at - 1 else 0
  }

  /** The meaning of the code in the order of its bytes: debug values gone, labels turned into slot
      displacements. */
  ghost function Listing(code: seq<MInstr>, labels: Labels, at: nat): seq<Insn>
    requires AllReady(code)
  {
    if code == [] then []
    else if code[0].opc.DBG_VALUE? then Listing(code[1..], labels, at)
    else
      FragmentDenotes(code[0]);
      var i := Denote(code[0]).value;
      [Placed(i, DisplacementOf(i, labels, at))] + Listing(code[1..], labels, at + SlotsOf(code[0].opc))
  }

  lemma {:induction false} ListingResolved(code: seq<MInstr>, labels: Labels, at: nat)
    requires AllReady(code)
    ensures Listing(code, labels, at) == Resolved(Fragments(code), labels, at)
  {
    hide Ready, FragmentOf, Denote, Placed;
    if code != [] {
      var fr, rest := FragmentOf(code[0]), Fragments(code[1..]);
      FragmentDenotes(code[0]);
      FragmentWellMade(code[0]);
      SlotsOfOne(code[0]);
      ListingResolved(code[1..], labels, at + fr.slots);
      assert Fragments(code)[1..] == rest;
      BytesOfOne(code[0]);
      assert DisplacementOf(fr.insn, labels, at) == Disp(fr, labels, at);
    }
  }

  lemma {:induction false} BytesOfOne(mi: MInstr)
    requires Ready(mi)
    ensures FragmentOf(mi).bytes == [] <==> mi.opc.DBG_VALUE?
  {
    FragmentWellMade(mi);
    SlotsOfOne(mi);
  }

  lemma {:induction false} ResolvedInRange(frs: seq<Fragment>, labels: Labels, at: nat)
    ensures AllInRange(frs, labels, at) <==> forall i :: i in Resolved(frs, labels, at) ==> InRange(i)
  {
    hide InRange, Placed, Disp;
    if frs != [] {
      ResolvedInRange(frs[1..], labels, at + frs[0].slots);
      var x := if frs[0].bytes == [] then [] else [Placed(frs[0].insn, Disp(frs[0], labels, at))];
      assert Resolved(frs, labels, at) == x + Resolved(frs[1..], labels, at + frs[0].slots);
      assert x != [] ==> x[0] in Resolved(frs, labels, at);
    }
  }

  /** Decoding the bytes of any code whose labels have a place gives as many instructions as its listing, and
      exactly the listing if and only if every instruction of it fits its format. */
  lemma {:induction false} CodeRoundTrip(code: seq<MInstr>, labels: Labels)
    requires AllReady(code) && Targets(code) <= labels.Keys
    ensures Linked(Fragments(code), labels)
    ensures var d := DecodeAll(Image(Fragments(code), labels, 0)); var l := Listing(code, labels, 0);
            && d.Some? && |d.value| == |l|
            && (d.value == l <==> forall i :: i in l ==> InRange(i))
  {
    hide Ready, FragmentOf, Linked, AllFaithful, AllInRange, InRange, DecodeAll;
    CodeLinks(code, labels);
    StreamRoundTrip(Fragments(code), labels, 0);
    ListingResolved(code, labels, 0);
    ResolvedInRange(Fragments(code), labels, 0);
  }

  /** The same for what AssembleFunction makes of a function. */
  lemma {:induction false} FunctionRoundTrip(f: Func)
    requires Assemblable(f) && TargetsExist(f)
    ensures AllReady(Code(f.layout, f.blocks)) && Linked(FunctionFragments(f), PlaceLabels(f))
    ensures var d := DecodeAll(Image(FunctionFragments(f), PlaceLabels(f), 0));
            var l := Listing(Code(f.layout, f.blocks), PlaceLabels(f), 0);
            && d.Some? && |d.value| == |l|
            && (d.value == l <==> forall i :: i in l ==> InRange(i))
  {
    hide Ready, FragmentOf, Linked, AllFaithful, AllInRange, InRange, DecodeAll, Listing, Image;
    FunctionReady(f);
    LayoutExists(f.layout, f.blocks);
    CodeTargets(f.layout, f.blocks);
    forall b ensures b in PlaceLabels(f).Keys <==> b in f.blocks.Keys {
    }
    CodeRoundTrip(Code(f.layout, f.blocks), PlaceLabels(f));
  }

  /** An instruction that would fit with displacement 0. */
  predicate OwnFieldsFit(fr: Fragment) {
    fr.bytes == [] || InRange(Placed(fr.insn, 0))
  }

  lemma {:induction false} PlacedInRange(i: Insn, disp: int)
    requires InRange(Placed(i, 0)) && FitsInt16(disp)
    ensures InRange(Placed(i, disp))
  {
  }

  /** In at most 2^15 slots every displacement fits. */
  lemma {:induction false} SmallCodeFits(frs: seq<Fragment>, labels: Labels, at: nat)
    requires Linked(frs, labels) && at + SlotSum(frs) <= 0x8000
    requires forall i :: 0 <= i < |frs| ==> OwnFieldsFit(frs[i])
    requires forall t :: t in labels ==> labels[t] <= 0x8000
    ensures AllInRange(frs, labels, at)
  {
    hide InRange, Placed;
    if frs != [] {
      SmallCodeFits(frs[1..], labels, at + frs[0].slots);
      if frs[0].bytes != [] {
        PlacedInRange(frs[0].insn, Disp(frs[0], labels, at));
      }
    }
  }

  lemma {:induction false} OffWithin(frs: seq<Fragment>, k: nat)
    requires k <= |frs|
    ensures Off(frs, k) <= SlotSum(frs)
  {
    assert frs == frs[..k] + frs[k..];
    SlotSumConcat(frs[..k], frs[k..]);
  }

  /** A function of at most 2^15 slots that branches to its own blocks, as every well-formed one does
      (WellFormedTargets), and whose operands its formats accept always assembles, and its image has exactly the function's results. */
  lemma {:induction false} SmallFunctionsAssemble(e: Env, f: Func, s: State, r: State)
    requires Assemblable(f) && TargetsExist(f) && SlotSum(FunctionFragments(f)) <= 0x8000
    requires forall i :: 0 <= i < |FunctionFragments(f)| ==> OwnFieldsFit(FunctionFragments(f)[i])
    requires (s.At? ==> s.b in f.blocks) && !r.At?
    ensures Assembled(f, PlaceLabels(f))
    ensures Ends(e, f, s, r) <==>
            ByteEnds(e, FunctionImage(f, PlaceLabels(f)), InBytes(s, PlaceLabels(f)), InBytes(r, PlaceLabels(f)))
  {
    hide Ends, ByteEnds, TargetsExist, Linked, AllFaithful, AllInRange, OwnFieldsFit, Ready, FragmentOf, Off, Start, InBytes;
    var frs, labels := FunctionFragments(f), PlaceLabels(f);
    FunctionLinks(f);
    forall t | t in labels ensures labels[t] <= 0x8000 {
      OffWithin(frs, Start(f.layout, f.blocks, t));
    }
    SmallCodeFits(frs, labels, 0);
    BytesSameResults(e, f, labels, s, r);
  }

  /** However long the image runs, it executes instructions from their first slot only. */
  lemma {:induction false} RunsStayOnInstructions(e: Env, f: Func, labels: Labels, s: State, n: nat)
    requires Assembled(f, labels) && (s.At? ==> s.b in f.blocks)
    ensures var r := ByteRun(e, FunctionImage(f, labels), InBytes(s, labels), n);
            r.PC? ==> Boundary(FunctionFragments(f), r.pc)
  {
    hide ByteRun, Boundary, Linked, AllFaithful, AllInRange;
    LabelsAreBlocks(f, labels);
    forall t | t in labels ensures Boundary(FunctionFragments(f), labels[t]) {
      LabelsAreBoundaries(f, labels, t);
    }
    AlwaysAtBoundary(e, FunctionFragments(f), labels, InBytes(s, labels), n);
  }

  /** Frame index elimination and assembly together: the bytes have the results of the function as it was before
      its frame was laid out. */
  lemma {:induction false} FrameCodeInBytes(e: Env, f: Func, labels: Labels, s: State, r: State)
    requires FrameIndex.FunctionSafe(f, e.frame)
    requires var g := FrameIndex.EliminateFunction(f, e.frame); Assembled(g, labels)
    requires (s.At? ==> s.b in f.blocks && Get(s.m.regs, FRAME_REG) == e.fp) && !r.At?
    ensures var g := FrameIndex.EliminateFunction(f, e.frame);
            && (s.At? ==> s.b in labels)
            && (Ends(e, f, s, r) <==>
                ByteEnds(e, FunctionImage(g, labels), InBytes(s, labels), InBytes(r, labels)))
  {
    hide Ends, ByteEnds, FrameIndex.FunctionSafe, LabelsPlaced, Assemblable, Section, InBytes;
    var g := FrameIndex.EliminateFunction(f, e.frame);
    LabelsAreBlocks(g, labels);
    assert g.blocks.Keys == f.blocks.Keys;
    BytesSameResults(e, g, labels, s, r);
    FrameIndex.EliminationEnds(e, f, s, r);
  }
}
