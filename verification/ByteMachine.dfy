/** An interpreter over instruction slots, and the proof that the assembled image of a function runs like the
    function. */
module ByteMachine {
  import opened Words
  import opened Isa
  import opened Mir
  import opened Cfg
  import opened Encoding
  import opened Decoding
  import opened Assembler

  /** A program counter over 8-byte slots, or the end of the run. */
  datatype ByteState = PC(pc: int, m: Mach) | Returned(m: Mach) | Trapped

  /** One instruction: fetched at slot pc, decoded and executed; a jump is relative to the next slot. */
  function ByteStep(e: Env, img: seq<Byte>, s: ByteState): ByteState {
    match s
    case PC(pc, m) =>
      if pc < 0 || 8 * pc > |img| then Trapped
      else
        (match Decode(img[8 * pc..])
         case None => Trapped
         case Some(d) =>
           match Exec(e, d.i, m)
           case Next(m') => PC(pc + d.slots, m')
           case Jump(off, m') => PC(pc + 1 + off, m')
           case Return(m') => Returned(m')
           case Fault => Trapped)
    case _ => s
  }

  function ByteRun(e: Env, img: seq<Byte>, s: ByteState, n: nat): ByteState
    decreases n
  {
    if n == 0 then s else ByteRun(e, img, ByteStep(e, img, s), n - 1)
  }

  /** The run from s comes to r. */
  ghost predicate ByteEnds(e: Env, img: seq<Byte>, s: ByteState, r: ByteState) {
    exists n: nat :: ByteRun(e, img, s, n) == r
  }

  lemma {:induction false} ByteRunSplit(e: Env, img: seq<Byte>, s: ByteState, n: nat, k: nat)
    ensures ByteRun(e, img, s, n + k) == ByteRun(e, img, ByteRun(e, img, s, n), k)
    decreases n
  {
    hide ByteStep;
    if n > 0 {
      ByteRunSplit(e, img, ByteStep(e, img, s), n - 1, k);
    }
  }

  lemma {:induction false} StoppedStays(e: Env, img: seq<Byte>, s: ByteState, n: nat)
    requires !s.PC?
    ensures ByteRun(e, img, s, n) == s
    decreases n
  {
    if n > 0 {
      StoppedStays(e, img, s, n - 1);
    }
  }

  // ----- a section of fragments -----

  /** A section: linked, faithful fragments, every one in range of its place. */
  ghost predicate Section(frs: seq<Fragment>, labels: Labels) {
    Linked(frs, labels) && AllFaithful(frs, labels) && AllInRange(frs, labels, 0)
  }

  function Off(frs: seq<Fragment>, k: nat): nat
    requires k <= |frs|
  {
    SlotSum(frs[..k])
  }

  lemma {:induction false} OffNext(frs: seq<Fragment>, k: nat)
    requires k < |frs|
    ensures Off(frs, k + 1) == Off(frs, k) + frs[k].slots
  {
    assert frs[..k + 1] == frs[..k] + [frs[k]];
    SlotSumConcat(frs[..k], [frs[k]]);
    assert [frs[k]][1..] == [];
  }

  /** The properties of a section hold of its k-th fragment. */
  lemma {:induction false} SectionAt(frs: seq<Fragment>, labels: Labels, at: nat, k: nat)
    requires Linked(frs, labels) && AllFaithful(frs, labels) && AllInRange(frs, labels, at) && k < |frs|
    ensures LinkedOne(frs[k], labels) && Faithful(frs[k])
    ensures frs[k].bytes == [] || InRange(Placed(frs[k].insn, Disp(frs[k], labels, at + Off(frs, k))))
    decreases k
  {
    hide Faithful, InRange, Placed, WellMade;
    if k > 0 {
      SectionAt(frs[1..], labels, at + frs[0].slots, k - 1);
      assert frs[..k][1..] == frs[1..][..k - 1];
    }
  }

  /** Fetching at the slot of fragment k finds its instruction, its label turned into a displacement. */
  lemma {:induction false} FetchFragment(frs: seq<Fragment>, labels: Labels, k: nat)
    requires Section(frs, labels) && k < |frs| && frs[k].bytes != []
    ensures var img := Image(frs, labels, 0); var fr := frs[k]; var pc := Off(frs, k);
            && 8 * pc <= |img| && WellMade(fr)
            && Decode(img[8 * pc..]) == Some(Decoded(Placed(fr.insn, Disp(fr, labels, pc)), fr.slots))
  {
    hide Decode, InRange, Placed, WellMade;
    var fr, pc := frs[k], Off(frs, k);
    SectionAt(frs, labels, 0, k);
    ImageFrom(frs, labels, 0, k);
    assert frs[k..][0] == fr && frs[k..][1..] == frs[k + 1..];
    var rest := Image(frs[k + 1..], labels, pc + fr.slots);
    FetchOne(fr, Disp(fr, labels, pc), rest);
  }

  lemma {:induction false} FetchOne(fr: Fragment, disp: int, rest: seq<Byte>)
    requires WellMade(fr) && Faithful(fr) && fr.bytes != [] && InRange(Placed(fr.insn, disp))
    ensures Decode(Patched(fr, disp) + rest) == Some(Decoded(Placed(fr.insn, disp), fr.slots))
  {
    hide Decode, InRange, Placed;
  }

  /** A displaced instruction does what the labelled one does; only the target differs. */
  lemma {:induction false} ExecPlaced(e: Env, i: Insn, disp: int, m: Mach)
    ensures Exec(e, Placed(i, disp), m) ==
            match Exec(e, i, m)
            case Jump(t, m') => Jump(disp, m')
            case r => r
    ensures Exec(e, i, m).Jump? ==> (i.Branch? || i.BranchIf?) && Exec(e, i, m).target == i.target
  {
  }

  /** One fragment in one step of the byte machine. */
  lemma {:induction false} StepFragment(e: Env, frs: seq<Fragment>, labels: Labels, k: nat, m: Mach)
    requires Section(frs, labels) && k < |frs| && frs[k].bytes != []
    ensures ByteStep(e, Image(frs, labels, 0), PC(Off(frs, k), m)) ==
            match Exec(e, frs[k].insn, m)
            case Next(m') => PC(Off(frs, k + 1), m')
            case Jump(t, m') => if t in labels then PC(labels[t], m') else Trapped
            case Return(m') => Returned(m')
            case Fault => Trapped
    ensures Exec(e, frs[k].insn, m).Jump? ==> Exec(e, frs[k].insn, m).target in labels
  {
    hide Decode, Exec, InRange, Faithful;
    var fr, pc := frs[k], Off(frs, k);
    FetchFragment(frs, labels, k);
    SectionAt(frs, labels, 0, k);
    ExecPlaced(e, fr.insn, Disp(fr, labels, pc), m);
    OffNext(frs, k);
  }

  /** Debug values take no slot and do nothing. */
  lemma {:induction false} DebugFragment(e: Env, frs: seq<Fragment>, labels: Labels, k: nat, m: Mach)
    requires Section(frs, labels) && k < |frs| && frs[k].bytes == []
    ensures Off(frs, k + 1) == Off(frs, k) && Exec(e, frs[k].insn, m) == Next(m)
  {
    hide Decode, InRange, Faithful;
    SectionAt(frs, labels, 0, k);
    OffNext(frs, k);
  }

  /** How control leaves a list of fragments. */
  function RunFragments(e: Env, frs: seq<Fragment>, m: Mach): Exit {
    if frs == [] then Fall(m)
    else
      match Exec(e, frs[0].insn, m)
      case Next(m') => RunFragments(e, frs[1..], m')
      case Jump(t, m') => Goto(t, m')
      case Return(m') => Finish(m')
      case Fault => Broken
  }

  lemma {:induction false} RunsAlike(e: Env, code: seq<MInstr>, m: Mach)
    requires AllReady(code)
    ensures RunFragments(e, Fragments(code), m) == RunList(e, code, m)
  {
    hide Exec, FragmentOf, Denote, Ready;
    if code != [] {
      FragmentDenotes(code[0]);
      var r := ExecMI(e, code[0], m);
      assert r == Exec(e, FragmentOf(code[0]).insn, m);
      assert Fragments(code)[1..] == Fragments(code[1..]);
      if r.Next? {
        RunsAlike(e, code[1..], r.m);
      }
    }
  }

  /** Where the byte machine is when control has left fragments i..j. */
  function Exited(x: Exit, labels: Labels, past: int): ByteState {
    match x
    case Fall(m) => PC(past, m)
    case Goto(t, m) => if t in labels then PC(labels[t], m) else Trapped
    case Finish(m) => Returned(m)
    case Broken => Trapped
  }

  /** Straight through a stretch of code: one step for each instruction executed. */
  lemma {:induction false} RunStretch(e: Env, frs: seq<Fragment>, labels: Labels, i: nat, j: nat, m: Mach)
    returns (steps: nat)
    requires Section(frs, labels) && i <= j <= |frs|
    ensures ByteRun(e, Image(frs, labels, 0), PC(Off(frs, i), m), steps)
            == Exited(RunFragments(e, frs[i..j], m), labels, Off(frs, j))
    ensures steps <= j - i && (steps == 0 ==> RunFragments(e, frs[i..j], m).Fall?)
    decreases j - i
  {
    hide Exec, ByteStep, Linked, AllFaithful, AllInRange, Off, Image;
    if i == j {
      steps := 0;
    } else {
      var img := Image(frs, labels, 0);
      var part, rest := frs[i..j], frs[i + 1..j];
      assert part[0] == frs[i] && part[1..] == rest;
      var r := Exec(e, frs[i].insn, m);
      if frs[i].bytes == [] {
        DebugFragment(e, frs, labels, i, m);
        steps := RunStretch(e, frs, labels, i + 1, j, m);
      } else {
        StepFragment(e, frs, labels, i, m);
        var s1 := ByteStep(e, img, PC(Off(frs, i), m));
        steps := 1;
        assert ByteRun(e, img, PC(Off(frs, i), m), 1) == ByteRun(e, img, s1, 0) == s1;
        if r.Next? {
          var more := RunStretch(e, frs, labels, i + 1, j, r.m);
          steps := 1 + more;
        }
      }
    }
  }

  // ----- functions -----

  /** Every block laid out exists. */
  predicate LaidOut(layout: seq<BlockId>, blocks: map<BlockId, Block>) {
    forall i :: 0 <= i < |layout| ==> layout[i] in blocks
  }

  /** The code of a function in layout order. */
  function Code(layout: seq<BlockId>, blocks: map<BlockId, Block>): seq<MInstr>
    requires LaidOut(layout, blocks)
  {
    if layout == [] then [] else blocks[layout[0]].insts + Code(layout[1..], blocks)
  }

  /** Where a block begins in the code. */
  function Start(layout: seq<BlockId>, blocks: map<BlockId, Block>, b: BlockId): nat
    requires LaidOut(layout, blocks) && b in layout
  {
    if layout[0] == b then 0 else |blocks[layout[0]].insts| + Start(layout[1..], blocks, b)
  }

  /** A function the assembler can take: its blocks are those laid out, every instruction is ready. */
  ghost predicate Assemblable(f: Func) {
    && Distinct(f.layout)
    && LaidOut(f.layout, f.blocks)
    && (forall b :: b in f.blocks ==> b in f.layout)
    && (forall b :: b in f.blocks ==> AllReady(f.blocks[b].insts))
  }

  lemma {:induction false} FunctionReady(f: Func)
    requires Assemblable(f)
    ensures AllReady(Code(f.layout, f.blocks))
  {
    hide Ready;
    forall b | b in f.layout ensures b in f.blocks && AllReady(f.blocks[b].insts) {
      var i :| 0 <= i < |f.layout| && f.layout[i] == b;
    }
    CodeReady(f.layout, f.blocks);
  }

  lemma {:induction false} CodeReady(layout: seq<BlockId>, blocks: map<BlockId, Block>)
    requires LaidOut(layout, blocks) && forall b :: b in layout ==> b in blocks && AllReady(blocks[b].insts)
    ensures AllReady(Code(layout, blocks))
  {
    if layout != [] {
      var first := layout[0];
      assert first in layout && AllReady(blocks[first].insts);
      assert forall b :: b in layout[1..] ==> b in layout;
      CodeReady(layout[1..], blocks);
      ReadyConcat(blocks[layout[0]].insts, Code(layout[1..], blocks));
    }
  }

  lemma {:induction false} ReadyConcat(a: seq<MInstr>, b: seq<MInstr>)
    requires AllReady(a) && AllReady(b)
    ensures AllReady(a + b)
  {
    assert forall i :: 0 <= i < |a + b| ==> (a + b)[i] == if i < |a| then a[i] else b[i - |a|];
  }

  ghost function FunctionFragments(f: Func): seq<Fragment>
    requires Assemblable(f)
  {
    FunctionReady(f);
    Fragments(Code(f.layout, f.blocks))
  }

  lemma {:induction false} StartBound(layout: seq<BlockId>, blocks: map<BlockId, Block>, b: BlockId)
    requires LaidOut(layout, blocks) && b in layout
    ensures var s := Start(layout, blocks, b);
            && s + |blocks[b].insts| <= |Code(layout, blocks)|
            && Code(layout, blocks)[s..s + |blocks[b].insts|] == blocks[b].insts
  {
    if layout[0] != b {
      assert b in layout[1..];
      StartBound(layout[1..], blocks, b);
    }
  }

  /** The next block begins where this one ends; the last one ends with the code. */
  lemma {:induction false} StartNext(layout: seq<BlockId>, blocks: map<BlockId, Block>, b: BlockId)
    requires LaidOut(layout, blocks) && b in layout && Distinct(layout)
    ensures var s, n := Start(layout, blocks, b), LayoutNext(layout, b);
            match n
            case Some(x) => x in layout && Start(layout, blocks, x) == s + |blocks[b].insts|
            case None => s + |blocks[b].insts| == |Code(layout, blocks)|
  {
    if layout[0] == b {
      if |layout| == 1 {
        assert layout[1..] == [];
        assert Code(layout[1..], blocks) == [];
      } else {
        assert layout[1] != layout[0];
        assert layout[1..][0] == layout[1];
      }
    } else {
      StartNext(layout[1..], blocks, b);
      var n := LayoutNext(layout[1..], b);
      if n.Some? {
        NextIsLater(layout[1..], b);
        assert n.value != layout[0];
      }
    }
  }

  lemma {:induction false} NextIsLater(layout: seq<BlockId>, b: BlockId)
    requires LayoutNext(layout, b).Some?
    ensures LayoutNext(layout, b).value in layout[1..]
  {
    if layout[0] != b {
      NextIsLater(layout[1..], b);
      assert layout[1..][1..] == layout[2..];
      assert forall x :: x in layout[2..] ==> x in layout[1..];
    }
  }

  /** Every block's label is the slot its code begins at. */
  ghost predicate LabelsPlaced(f: Func, labels: Labels)
    requires Assemblable(f)
  {
    && labels.Keys == f.blocks.Keys
    && (forall b :: b in f.layout ==>
          Start(f.layout, f.blocks, b) <= |FunctionFragments(f)|
          && labels[b] == Off(FunctionFragments(f), Start(f.layout, f.blocks, b)))
  }

  /** A function with its labels placed, whose instructions and displacements all fit their formats. */
  ghost predicate Assembled(f: Func, labels: Labels) {
    Assemblable(f) && LabelsPlaced(f, labels) && Section(FunctionFragments(f), labels)
  }

  ghost function FunctionImage(f: Func, labels: Labels): seq<Byte>
    requires Assembled(f, labels)
  {
    Image(FunctionFragments(f), labels, 0)
  }

  /** The slot-level state a block-level state stands for. */
  function InBytes(s: State, labels: Labels): ByteState
    requires s.At? ==> s.b in labels
  {
    match s
    case At(b, m) => PC(labels[b], m)
    case Halted(m) => Returned(m)
    case Stuck => Trapped
  }

  lemma {:induction false} NoPhis(insts: seq<MInstr>)
    requires AllReady(insts)
    ensures PhiCount(insts) == 0 && Body(insts) == insts
  {
    assert insts != [] ==> Ready(insts[0]);
    assert insts[0..] == insts;
  }

  lemma {:induction false} EnterAssembled(f: Func, pred: BlockId, b: BlockId, m: Mach)
    requires Assemblable(f)
    ensures Enter(f, pred, b, m) == if b in f.blocks then At(b, m) else Stuck
  {
    hide Ready;
    if b in f.blocks {
      NoPhis(f.blocks[b].insts);
    }
  }

  /** A block's fragments in the section. */
  lemma {:induction false} BlockFragments(f: Func, b: BlockId)
    requires Assemblable(f) && b in f.blocks && b in f.layout
    ensures AllReady(f.blocks[b].insts)
    ensures var s, insts := Start(f.layout, f.blocks, b), f.blocks[b].insts;
            && s + |insts| <= |FunctionFragments(f)|
            && FunctionFragments(f)[s..s + |insts|] == Fragments(insts)
  {
    hide Ready, FragmentOf;
    StartBound(f.layout, f.blocks, b);
    FunctionReady(f);
    var s, insts, code := Start(f.layout, f.blocks, b), f.blocks[b].insts, Code(f.layout, f.blocks);
    var part := FunctionFragments(f)[s..s + |insts|];
    forall i | 0 <= i < |insts| ensures part[i] == Fragments(insts)[i] {
      assert part[i] == FragmentOf(code[s + i]);
      assert code[s + i] == code[s..s + |insts|][i];
    }
  }

  lemma DecodeNothing()
    ensures Decode([]) == None
  {
  }

  lemma {:induction false} PastTheEnd(e: Env, frs: seq<Fragment>, labels: Labels, m: Mach)
    requires Section(frs, labels)
    ensures ByteStep(e, Image(frs, labels, 0), PC(Off(frs, |frs|), m)) == Trapped
  {
    hide Decode, WellMade, Faithful, InRange;
    ImageFrom(frs, labels, 0, |frs|);
    assert frs[|frs|..] == [];
    DecodeNothing();
  }

  /** One block-level step in the bytes: as many steps as the block executes instructions, one more to trap
      when control falls off the last block. */
  lemma {:induction false} StepInBytes(e: Env, f: Func, labels: Labels, s: State)
    returns (steps: nat)
    requires Assembled(f, labels) && (s.At? ==> s.b in f.blocks)
    ensures Step(e, f, s).At? ==> Step(e, f, s).b in f.blocks
    ensures ByteRun(e, FunctionImage(f, labels), InBytes(s, labels), steps) == InBytes(Step(e, f, s), labels)
    ensures s.At? && steps == 0 ==>
              Step(e, f, s).At? && LayoutNext(f.layout, s.b) == Some(Step(e, f, s).b)
  {
    hide Exec, ByteStep, Ready, Off, Image, Enter, Code, Start, Linked, AllFaithful, AllInRange, FragmentOf;
    steps := 0;
    if s.At? {
      var b, m := s.b, s.m;
      var frs, insts, i := FunctionFragments(f), f.blocks[b].insts, Start(f.layout, f.blocks, b);
      var j := i + |insts|;
      assert b in f.layout;
      BlockFragments(f, b);
      NoPhis(insts);
      RunsAlike(e, insts, m);
      steps := RunStretch(e, frs, labels, i, j, m);
      var x := RunList(e, insts, m);
      var img := Image(frs, labels, 0);
      StartNext(f.layout, f.blocks, b);
      if x.Goto? {
        EnterAssembled(f, b, x.target, x.m);
      } else if x.Fall? {
        var n := LayoutNext(f.layout, b);
        if n.Some? {
          EnterAssembled(f, b, n.value, x.m);
        } else {
          FunctionReady(f);
          PastTheEnd(e, frs, labels, x.m);
          ByteRunSplit(e, img, PC(labels[b], m), steps, 1);
          var p := PC(Off(frs, j), x.m);
          assert ByteRun(e, img, p, 1) == ByteRun(e, img, ByteStep(e, img, p), 0);
          steps := steps + 1;
        }
      }
    }
  }

  /** Runs of any length: the byte machine passes through the image of every state of the block-level run. */
  lemma {:induction false} BytesSimulate(e: Env, f: Func, labels: Labels, s: State, n: nat)
    returns (steps: nat)
    requires Assembled(f, labels) && (s.At? ==> s.b in f.blocks)
    ensures Run(e, f, s, n).At? ==> Run(e, f, s, n).b in f.blocks
    ensures ByteRun(e, FunctionImage(f, labels), InBytes(s, labels), steps) == InBytes(Run(e, f, s, n), labels)
    decreases n
  {
    hide Step, ByteStep, LabelsPlaced, FunctionImage, Linked, AllFaithful, AllInRange;
    if n == 0 {
      steps := 0;
    } else {
      var k := StepInBytes(e, f, labels, s);
      var more := BytesSimulate(e, f, labels, Step(e, f, s), n - 1);
      LabelsAreBlocks(f, labels);
      ByteRunSplit(e, FunctionImage(f, labels), InBytes(s, labels), k, more);
      steps := k + more;
    }
  }

  lemma {:induction false} LabelsAreBlocks(f: Func, labels: Labels)
    requires Assembled(f, labels)
    ensures labels.Keys == f.blocks.Keys
  {
  }

  /** How many blocks are laid out from b on. */
  function Remaining(layout: seq<BlockId>, b: BlockId): nat {
    if layout == [] then 0 else if layout[0] == b then |layout| else Remaining(layout[1..], b)
  }

  lemma {:induction false} NextHasFewer(layout: seq<BlockId>, b: BlockId)
    requires Distinct(layout) && LayoutNext(layout, b).Some?
    ensures Remaining(layout, LayoutNext(layout, b).value) < Remaining(layout, b)
  {
    NextIsLater(layout, b);
    if layout[0] == b {
      assert layout[1..][0] == layout[1];
      assert layout[1] != layout[0];
    } else {
      NextHasFewer(layout[1..], b);
      NextIsLater(layout[1..], b);
      var n := LayoutNext(layout, b).value;
      assert n in layout[1..] ==> n != layout[0];
    }
  }

  /** And nothing else happens: from any point of a run of the bytes, some more steps reach the image of a
      state of the block-level run. */
  lemma {:induction false} BytesReflect(e: Env, f: Func, labels: Labels, s: State, k: nat)
    returns (n: nat, rest: nat)
    requires Assembled(f, labels) && (s.At? ==> s.b in f.blocks)
    ensures Run(e, f, s, n).At? ==> Run(e, f, s, n).b in f.blocks
    ensures ByteRun(e, FunctionImage(f, labels), InBytes(s, labels), k + rest) == InBytes(Run(e, f, s, n), labels)
    decreases k, if s.At? then Remaining(f.layout, s.b) else 0
  {
    hide Step, ByteStep, FunctionImage, Start, Linked, AllFaithful, AllInRange;
    LabelsAreBlocks(f, labels);
    var img, p := FunctionImage(f, labels), InBytes(s, labels);
    if k == 0 {
      return 0, 0;
    }
    if !s.At? {
      StoppedStays(e, img, p, k);
      return 0, 0;
    }
    var c := StepInBytes(e, f, labels, s);
    var s1 := Step(e, f, s);
    if c >= k {
      n, rest := 1, c - k;
      assert Run(e, f, s, 1) == Run(e, f, s1, 0) == s1;
    } else {
      if c == 0 {
        NextHasFewer(f.layout, s.b);
      }
      n, rest := BytesReflect(e, f, labels, s1, k - c);
      n := n + 1;
      LabelsAreBlocks(f, labels);
      ByteRunSplit(e, img, p, c, k - c + rest);
    }
  }

  /** The image returns the same registers and memory as the function, traps exactly when the function gets
      stuck, and runs forever exactly when it does. */
  lemma {:induction false} BytesSameResults(e: Env, f: Func, labels: Labels, s: State, r: State)
    requires Assembled(f, labels) && (s.At? ==> s.b in f.blocks) && !r.At?
    ensures Ends(e, f, s, r) <==>
            ByteEnds(e, FunctionImage(f, labels), InBytes(s, labels), InBytes(r, labels))
  {
    hide Step, ByteStep, FunctionImage, LabelsPlaced, Assemblable, Linked, AllFaithful, AllInRange;
    LabelsAreBlocks(f, labels);
    var img, p := FunctionImage(f, labels), InBytes(s, labels);
    if n: nat :| Run(e, f, s, n) == r {
      var k := BytesSimulate(e, f, labels, s, n);
      assert ByteRun(e, img, p, k) == InBytes(r, labels);
    }
    if k: nat :| ByteRun(e, img, p, k) == InBytes(r, labels) {
      var n, rest := BytesReflect(e, f, labels, s, k);
      ByteRunSplit(e, img, p, k, rest);
      StoppedStays(e, img, InBytes(r, labels), rest);
      assert InBytes(Run(e, f, s, n), labels) == InBytes(r, labels);
      assert Run(e, f, s, n) == r;
    }
  }

  // ----- instruction boundaries -----

  /** A slot where a fragment begins, or the end. */
  ghost predicate Boundary(frs: seq<Fragment>, pc: int) {
    exists k :: 0 <= k <= |frs| && pc == Off(frs, k)
  }

  lemma {:induction false} StepToBoundary(e: Env, frs: seq<Fragment>, labels: Labels, k: nat, m: Mach)
    requires Section(frs, labels) && k <= |frs|
    requires forall t :: t in labels ==> Boundary(frs, labels[t])
    ensures var s := ByteStep(e, Image(frs, labels, 0), PC(Off(frs, k), m)); s.PC? ==> Boundary(frs, s.pc)
    decreases |frs| - k
  {
    hide Exec, Off, ByteStep, Image, Linked, AllFaithful, AllInRange;
    if k == |frs| {
      PastTheEnd(e, frs, labels, m);
    } else if frs[k].bytes == [] {
      DebugFragment(e, frs, labels, k, m);
      StepToBoundary(e, frs, labels, k + 1, m);
    } else {
      StepFragment(e, frs, labels, k, m);
      var r := Exec(e, frs[k].insn, m);
      if r.Next? {
        assert Boundary(frs, Off(frs, k + 1));
      } else if r.Jump? {
        assert Boundary(frs, labels[r.target]);
      }
    }
  }

  /** However long it runs, the program counter is always where an instruction begins. */
  lemma {:induction false} AlwaysAtBoundary(e: Env, frs: seq<Fragment>, labels: Labels, s: ByteState, n: nat)
    requires Section(frs, labels)
    requires forall t :: t in labels ==> Boundary(frs, labels[t])
    requires s.PC? ==> Boundary(frs, s.pc)
    ensures var r := ByteRun(e, Image(frs, labels, 0), s, n); r.PC? ==> Boundary(frs, r.pc)
    decreases n
  {
    hide ByteStep, Image, Off, Linked, AllFaithful, AllInRange;
    if n > 0 {
      var s1 := ByteStep(e, Image(frs, labels, 0), s);
      if s.PC? {
        var k :| 0 <= k <= |frs| && s.pc == Off(frs, k);
        StepToBoundary(e, frs, labels, k, s.m);
      } else {
        StoppedStep(e, Image(frs, labels, 0), s);
      }
      AlwaysAtBoundary(e, frs, labels, s1, n - 1);
    }
  }

  lemma {:induction false} StoppedStep(e: Env, img: seq<Byte>, s: ByteState)
    requires !s.PC?
    ensures ByteStep(e, img, s) == s
  {
  }

  lemma {:induction false} OffMonotone(frs: seq<Fragment>, j: nat, k: nat)
    requires j <= k <= |frs|
    ensures Off(frs, j) <= Off(frs, k)
    decreases k - j
  {
    hide Off;
    if j < k {
      OffNext(frs, j);
      OffMonotone(frs, j + 1, k);
    }
  }

  /** The second slot of a two-slot instruction is no boundary, so no run executes it. */
  lemma {:induction false} SecondSlotIsNoBoundary(frs: seq<Fragment>, k: nat)
    requires k < |frs| && frs[k].slots == 2
    ensures !Boundary(frs, Off(frs, k) + 1)
  {
    hide Off;
    OffNext(frs, k);
    forall j | 0 <= j <= |frs| ensures Off(frs, j) != Off(frs, k) + 1 {
      if j <= k {
        OffMonotone(frs, j, k);
      } else {
        OffMonotone(frs, k + 1, j);
      }
    }
  }

  /** The labels of an assembled function are boundaries: every branch lands on the first slot of the first
      instruction of its block. */
  lemma {:induction false} LabelsAreBoundaries(f: Func, labels: Labels, b: BlockId)
    requires Assembled(f, labels) && b in labels
    ensures Boundary(FunctionFragments(f), labels[b])
  {
    hide Off, Start, Linked, AllFaithful, AllInRange;
    assert b in f.layout;
  }
}
