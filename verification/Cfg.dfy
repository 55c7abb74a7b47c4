/** Machine functions as laid-out basic blocks, and how they run.  One step runs a whole block and enters
    the next one, resolving its PHIs in parallel. */
module Cfg {
  import opened Words
  import opened Isa
  import opened Mir

  datatype Block = Block(insts: seq<MInstr>, succs: seq<BlockId>)

  datatype Func = Func(layout: seq<BlockId>, blocks: map<BlockId, Block>)

  /** How control leaves a list of instructions. */
  datatype Exit = Fall(m: Mach) | Goto(target: BlockId, m: Mach) | Finish(m: Mach) | Broken

  /** `At(b, m)`: block b has been entered and its PHIs are done. */
  datatype State = At(b: BlockId, m: Mach) | Halted(m: Mach) | Stuck

  function ExecMI(e: Env, mi: MInstr, m: Mach): Effect {
    match Denote(mi)
    case None => Fault
    case Some(i) => Exec(e, i, m)
  }

  function RunList(e: Env, insts: seq<MInstr>, m: Mach): Exit {
    if insts == [] then Fall(m)
    else
      match ExecMI(e, insts[0], m)
      case Next(m') => RunList(e, insts[1..], m')
      case Jump(t, m') => Goto(t, m')
      case Return(m') => Finish(m')
      case Fault => Broken
  }

  /** The number of PHIs at the head of a block. */
  function PhiCount(insts: seq<MInstr>): (n: nat)
    ensures n <= |insts|
  {
    if insts == [] || !insts[0].opc.PHI? then 0 else 1 + PhiCount(insts[1..])
  }

  function Body(insts: seq<MInstr>): seq<MInstr> {
    insts[PhiCount(insts)..]
  }

  /** The register a PHI with operands dst, (reg, block)* takes when control comes from pred; i is the
      position of the pair looked at. */
  function PhiSource(ops: seq<Operand>, pred: BlockId, i: nat): Option<Isa.Reg>
    decreases |ops| - i
  {
    if i + 1 >= |ops| then None
    else if ops[i].Reg? && ops[i + 1] == MBB(pred) then Some(ops[i].r)
    else PhiSource(ops, pred, i + 2)
  }

  /** All PHIs at the head of a block, read from `before`, written to `regs`. */
  function ResolvePhis(insts: seq<MInstr>, pred: BlockId, before: Regs, regs: Regs): Option<Regs> {
    if insts == [] || !insts[0].opc.PHI? then Some(regs)
    else
      var ops := insts[0].ops;
      if ops == [] || !ops[0].Reg? then None
      else
        match PhiSource(ops, pred, 1)
        case None => None
        case Some(r) => ResolvePhis(insts[1..], pred, before, regs[ops[0].r := Get(before, r)])
  }

  /** Control passes from block pred to block b. */
  function Enter(f: Func, pred: BlockId, b: BlockId, m: Mach): State {
    if b !in f.blocks then Stuck
    else
      match ResolvePhis(f.blocks[b].insts, pred, m.regs, m.regs)
      case None => Stuck
      case Some(regs) => At(b, m.(regs := regs))
  }

  /** The block laid out after b. */
  function LayoutNext(layout: seq<BlockId>, b: BlockId): Option<BlockId> {
    if |layout| < 2 then None
    else if layout[0] == b then Some(layout[1])
    else LayoutNext(layout[1..], b)
  }

  function Leaving(f: Func, b: BlockId, x: Exit): State {
    match x
    case Fall(m) =>
      (match LayoutNext(f.layout, b)
       case None => Stuck
       case Some(n) => Enter(f, b, n, m))
    case Goto(t, m) => Enter(f, b, t, m)
    case Finish(m) => Halted(m)
    case Broken => Stuck
  }

  function Step(e: Env, f: Func, s: State): State {
    match s
    case At(b, m) =>
      if b in f.blocks then Leaving(f, b, RunList(e, Body(f.blocks[b].insts), m)) else Stuck
    case Halted(_) => s
    case Stuck => s
  }

  /** The state after n steps. */
  function Run(e: Env, f: Func, s: State, n: nat): State
    decreases n
  {
    if n == 0 then s else Run(e, f, Step(e, f, s), n - 1)
  }

  /** The run from s comes to r. */
  ghost predicate Ends(e: Env, f: Func, s: State, r: State) {
    exists n: nat :: Run(e, f, s, n) == r
  }

  // ----- well-formed functions -----

  function Targets(insts: seq<MInstr>): set<BlockId> {
    if insts == [] then {} else BranchTargets(insts[0]) + Targets(insts[1..])
  }

  predicate CanFall(insts: seq<MInstr>) {
    forall i :: 0 <= i < |insts| ==> !IsBarrier(insts[i])
  }

  /** The blocks that terminators and fall-through can reach. */
  function Reach(f: Func, b: BlockId): set<BlockId>
    requires b in f.blocks
  {
    var insts := f.blocks[b].insts;
    var next := LayoutNext(f.layout, b);
    Targets(insts) + (if CanFall(insts) && next.Some? then {next.value} else {})
  }

  function Elements<T>(s: seq<T>): set<T> {
    set x | x in s
  }

  function Preds(f: Func, b: BlockId): set<BlockId> {
    set p | p in f.blocks && b in f.blocks[p].succs
  }

  predicate Distinct<T(==)>(s: seq<T>) {
    forall i, j :: 0 <= i < j < |s| ==> s[i] != s[j]
  }

  /** dst, then register and block alternating, with one entry for each predecessor. */
  ghost predicate PhiOk(ops: seq<Operand>, preds: set<BlockId>) {
    && |ops| % 2 == 1
    && ops[0].Reg?
    && (forall i :: 0 < i < |ops| ==> if i % 2 == 1 then ops[i].Reg? else ops[i].MBB?)
    && (forall i, j :: 0 < i < j < |ops| && i % 2 == 0 && j % 2 == 0 ==> ops[i] != ops[j])
    && (forall p :: p in preds <==> exists i :: 0 < i < |ops| && i % 2 == 0 && ops[i] == MBB(p))
  }

  /** PHIs only at the head; after a terminator only terminators and debug values. */
  predicate BlockShape(insts: seq<MInstr>) {
    && (forall i :: PhiCount(insts) <= i < |insts| ==> !insts[i].opc.PHI?)
    && (forall i, j :: 0 <= i < j < |insts| && IsTerminator(insts[i]) ==>
          IsTerminator(insts[j]) || insts[j].opc.DBG_VALUE?)
  }

  /** The successors are what terminators and fall-through can reach; where the end of the block is known not to
      be reached, as after a call that does not return, the fall-through is not listed. */
  ghost predicate SuccsMatch(f: Func, b: BlockId)
    requires b in f.blocks
  {
    var insts, succs := f.blocks[b].insts, Elements(f.blocks[b].succs);
    succs == Reach(f, b) || (CanFall(insts) && succs == Targets(insts))
  }

  ghost predicate BlockOk(f: Func, b: BlockId)
    requires b in f.blocks
  {
    var insts := f.blocks[b].insts;
    && BlockShape(insts)
    && SuccsMatch(f, b)
    && (forall i :: 0 <= i < PhiCount(insts) ==> PhiOk(insts[i].ops, Preds(f, b)))
  }

  ghost predicate WellFormed(f: Func) {
    && Distinct(f.layout)
    && Elements(f.layout) == f.blocks.Keys
    && (forall b :: b in f.blocks ==> Elements(f.blocks[b].succs) <= f.blocks.Keys)
    && (forall b :: b in f.blocks ==> BlockOk(f, b))
  }

  lemma {:induction false} NextLaidOut(layout: seq<BlockId>, b: BlockId)
    requires LayoutNext(layout, b).Some?
    ensures LayoutNext(layout, b).value in layout
  {
    if layout[0] != b {
      NextLaidOut(layout[1..], b);
    }
  }

  // ----- facts about runs -----

  lemma {:induction false} RunSplit(e: Env, f: Func, s: State, n: nat, k: nat)
    ensures Run(e, f, s, n + k) == Run(e, f, Run(e, f, s, n), k)
    decreases n
  {
    if n > 0 {
      RunSplit(e, f, Step(e, f, s), n - 1, k);
    }
  }

  lemma {:induction false} HaltedStays(e: Env, f: Func, s: State, n: nat)
    requires !s.At?
    ensures Run(e, f, s, n) == s
  {
    if n > 0 {
      HaltedStays(e, f, s, n - 1);
    }
  }

  lemma {:induction false} RunListAppend(e: Env, a: seq<MInstr>, b: seq<MInstr>, m: Mach)
    ensures RunList(e, a + b, m) ==
            match RunList(e, a, m)
            case Fall(m') => RunList(e, b, m')
            case x => x
  {
    if a == [] {
      assert a + b == b;
    } else {
      assert (a + b)[0] == a[0] && (a + b)[1..] == a[1..] + b;
      var r := ExecMI(e, a[0], m);
      if r.Next? {
        RunListAppend(e, a[1..], b, r.m);
      }
    }
  }

  lemma {:induction false} TargetsConcat(a: seq<MInstr>, b: seq<MInstr>)
    ensures Targets(a + b) == Targets(a) + Targets(b)
  {
    if a == [] {
      assert a + b == b;
    } else {
      assert (a + b)[1..] == a[1..] + b;
      TargetsConcat(a[1..], b);
    }
  }

  lemma NoTerminatorNoTargets(a: seq<MInstr>)
    requires forall i :: 0 <= i < |a| ==> !IsTerminator(a[i])
    ensures Targets(a) == {}
  {
  }

  /** Only the terminators denote instructions that move control, and they name their target. */
  lemma {:induction false} DenoteControl(mi: MInstr)
    ensures var d := Denote(mi);
            && (d.Some? && d.value.Branch? ==> mi.opc.JMP? && MBB(d.value.target) in mi.ops)
            && (d.Some? && d.value.BranchIf? ==> (mi.opc.J_rr? || mi.opc.J_ri?) && MBB(d.value.target) in mi.ops)
            && (d.Some? && d.value.Leave? ==> mi.opc.RET?)
            && (d.Some? && IsBarrier(mi) ==> d.value.Branch? || d.value.Leave?)
  {
    var o := Explicit(mi.ops);
    if |o| == 1 {
      ExplicitMember(mi.ops, o[0]);
    } else if |o| == 3 {
      ExplicitMember(mi.ops, o[2]);
    }
  }

  lemma ExecControl(e: Env, i: Insn, m: Mach)
    ensures var r := Exec(e, i, m);
            && (r.Jump? ==> (i.Branch? || i.BranchIf?) && r.target == i.target)
            && (r.Return? ==> i.Leave?)
            && (i.Branch? || i.Leave? ==> !r.Next?)
  {
  }

  /** A jump goes to one of the branch targets. */
  lemma {:induction false} JumpTarget(e: Env, mi: MInstr, m: Mach)
    ensures var r := ExecMI(e, mi, m);
            && (r.Jump? ==> r.target in BranchTargets(mi))
            && (r.Next? ==> !IsBarrier(mi))
            && (r.Jump? || r.Return? ==> IsTerminator(mi))
  {
    DenoteControl(mi);
    if Denote(mi).Some? {
      var i := Denote(mi).value;
      ExecControl(e, i, m);
      if i.Branch? || i.BranchIf? {
        assert MBB(i.target).b == i.target;
      }
    }
  }

  /** Where control leaves a list: to a branch target, or past the end when there is no barrier. */
  lemma {:induction false} ExitsWithinTargets(e: Env, insts: seq<MInstr>, m: Mach)
    ensures RunList(e, insts, m).Goto? ==> RunList(e, insts, m).target in Targets(insts)
    ensures RunList(e, insts, m).Fall? ==> CanFall(insts)
  {
    if insts != [] {
      JumpTarget(e, insts[0], m);
      var r := ExecMI(e, insts[0], m);
      if r.Next? {
        ExitsWithinTargets(e, insts[1..], r.m);
        if RunList(e, insts, m).Fall? {
          assert insts == [insts[0]] + insts[1..];
        }
      }
    }
  }

  /** Dropping straight-line code from the front of a block changes neither its targets nor its fall-through. */
  lemma {:induction false} DropStraightLine(insts: seq<MInstr>, n: nat)
    requires n <= |insts|
    requires forall i :: 0 <= i < n ==> !IsTerminator(insts[i])
    ensures Targets(insts[n..]) == Targets(insts)
    ensures CanFall(insts[n..]) ==> CanFall(insts)
  {
    assert insts == insts[..n] + insts[n..];
    TargetsConcat(insts[..n], insts[n..]);
    NoTerminatorNoTargets(insts[..n]);
    if CanFall(insts[n..]) {
      forall i | n <= i < |insts| ensures !IsBarrier(insts[i]) {
        assert insts[i] == insts[n..][i - n];
      }
    }
  }

  /** Straight-line code falls through or breaks. */
  lemma {:induction false} StraightLine(e: Env, insts: seq<MInstr>, m: Mach)
    requires forall i :: 0 <= i < |insts| ==> !IsTerminator(insts[i])
    ensures RunList(e, insts, m).Fall? || RunList(e, insts, m).Broken?
  {
    if insts != [] {
      JumpTarget(e, insts[0], m);
      var r := ExecMI(e, insts[0], m);
      if r.Next? {
        StraightLine(e, insts[1..], r.m);
      }
    }
  }

  lemma {:induction false} PhiCountAppend(a: seq<MInstr>, b: seq<MInstr>)
    requires b == [] || !b[0].opc.PHI?
    ensures PhiCount(a + b) == PhiCount(a)
    ensures Body(a + b) == Body(a) + b
  {
    if a == [] {
      assert a + b == b;
    } else {
      assert (a + b)[1..] == a[1..] + b;
      PhiCountAppend(a[1..], b);
    }
  }

  /** PHI resolution reads only the leading PHIs. */
  lemma {:induction false} PhisOfPrefix(head: seq<MInstr>, x: seq<MInstr>, pred: BlockId, before: Regs, regs: Regs)
    requires x == [] || !x[0].opc.PHI?
    ensures ResolvePhis(head + x, pred, before, regs) == ResolvePhis(head, pred, before, regs)
  {
    if head == [] {
      assert head + x == x;
    } else {
      assert (head + x)[1..] == head[1..] + x;
      var ops := head[0].ops;
      if head[0].opc.PHI? && |ops| > 0 && ops[0].Reg? && PhiSource(ops, pred, 1).Some? {
        PhisOfPrefix(head[1..], x, pred, before, regs[ops[0].r := Get(before, PhiSource(ops, pred, 1).value)]);
      }
    }
  }

  lemma {:induction false} PhiCountIsPhi(insts: seq<MInstr>, i: nat)
    requires i < PhiCount(insts)
    ensures insts[i].opc.PHI?
  {
    if i > 0 {
      PhiCountIsPhi(insts[1..], i - 1);
    }
  }
}
