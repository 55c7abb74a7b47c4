/** AnalyzeBranch, RemoveBranch and InsertBranch: scanning a block from its end, erasing as they go. */
module BranchEditing {
  import opened Words
  import opened Isa
  import opened Mir
  import opened Cfg
  import opened MachineBlocks

  // ----- what the scan sees -----

  predicate IsJumpOrDebug(mi: MInstr) {
    mi.opc.JMP? || mi.opc.DBG_VALUE?
  }

  /** Where the trailing jumps and debug values of a block begin. */
  function TailStart(insts: seq<MInstr>): (p: nat)
    ensures p <= |insts|
    ensures forall i :: p <= i < |insts| ==> IsJumpOrDebug(insts[i])
    ensures p > 0 ==> !IsJumpOrDebug(insts[p - 1])
  {
    if insts == [] || !IsJumpOrDebug(insts[|insts| - 1]) then |insts| else TailStart(insts[..|insts| - 1])
  }

  /** The first jump at or after position i. */
  function TopJump(insts: seq<MInstr>, i: nat): (j: Option<nat>)
    requires i <= |insts|
    ensures j.Some? ==> i <= j.value < |insts| && insts[j.value].opc.JMP?
    ensures forall k :: i <= k < (if j.Some? then j.value else |insts|) ==> !insts[k].opc.JMP?
    decreases |insts| - i
  {
    if i == |insts| then None
    else if insts[i].opc.JMP? then Some(i)
    else TopJump(insts, i + 1)
  }

  /** Every jump names its block in operand 0 and nothing else. */
  predicate JumpsNamed(insts: seq<MInstr>) {
    forall i :: 0 <= i < |insts| && insts[i].opc.JMP? ==> |insts[i].ops| == 1 && insts[i].ops[0].MBB?
  }

  function JumpTo(t: BlockId): MInstr {
    MInstr(JMP, [MBB(t)])
  }

  /** The topmost jump of the tail, if any. */
  function TailJump(insts: seq<MInstr>): Option<nat> {
    TopJump(insts, TailStart(insts))
  }

  function TailTarget(insts: seq<MInstr>): Option<BlockId>
    requires JumpsNamed(insts)
  {
    var j := TailJump(insts);
    if j.Some? then Some(insts[j.value].ops[0].b) else None
  }

  /** The block after analysis with modification: nothing is left below the topmost trailing jump, and that
      jump is gone too when it goes to the next block in the layout. */
  function Trimmed(insts: seq<MInstr>, next: Option<BlockId>): seq<MInstr>
    requires JumpsNamed(insts)
  {
    var j := TailJump(insts);
    if j.None? then insts
    else if next == TailTarget(insts) then insts[..j.value]
    else insts[..j.value + 1]
  }

  lemma {:induction false} TailStartIs(insts: seq<MInstr>, p: nat)
    requires p <= |insts| && (p > 0 ==> !IsJumpOrDebug(insts[p - 1]))
    requires forall i :: p <= i < |insts| ==> IsJumpOrDebug(insts[i])
    ensures TailStart(insts) == p
  {
  }

  // ----- the methods -----

  /** I->eraseFromParent() for everything below position i. */
  method EraseBelow(mbb: MachineBasicBlock, i: nat)
    requires i < |mbb.insts|
    modifies mbb`insts
    ensures mbb.insts == old(mbb.insts[..i + 1])
  {
    while i + 1 < |mbb.insts|
      invariant i < |mbb.insts| && mbb.insts[..i + 1] == old(mbb.insts[..i + 1])
    {
      mbb.insts := mbb.insts[..i + 1] + mbb.insts[i + 2..];
    }
  }

  /** The results of AnalyzeBranch: the block and the three outputs. */
  datatype Analysis = Analysis(insts: seq<MInstr>, tbb: Option<BlockId>, fbb: Option<BlockId>, cond: seq<Operand>)

  /** What the analysis has made of block `before` and the outputs `given`, when j is the topmost trailing
      jump it has seen. */
  function Analyzed(given: Analysis, j: Option<nat>, next: Option<BlockId>, allowModify: bool): Analysis
    requires JumpsNamed(given.insts)
    requires j.Some? ==> j.value < |given.insts| && given.insts[j.value].opc.JMP?
  {
    if j.None? then given
    else
      var t := given.insts[j.value].ops[0].b;
      if !allowModify then given.(tbb := Some(t))
      else if next == Some(t) then Analysis(given.insts[..j.value], None, None, [])
      else Analysis(given.insts[..j.value + 1], Some(t), None, [])
  }

  lemma {:induction false} AnalysisTrims(given: Analysis, next: Option<BlockId>)
    requires JumpsNamed(given.insts)
    ensures var a := Analyzed(given, TailJump(given.insts), next, true);
            a.insts == Trimmed(given.insts, next) && Analyzed(given, TailJump(given.insts), next, false).insts == given.insts
  {
  }

  /** The state of the scan at position i: everything from i on has been a jump or a debug value, and the block
      and the outputs are as Analyzed says for the topmost jump seen. */
  ghost predicate Scanned(given: Analysis, i: nat, cur: Analysis, next: Option<BlockId>, allowModify: bool)
    requires JumpsNamed(given.insts)
  {
    && i <= |cur.insts| <= |given.insts| && cur.insts == given.insts[..|cur.insts|]
    && (forall k :: i <= k < |given.insts| ==> IsJumpOrDebug(given.insts[k]))
    && cur == Analyzed(given, TopJump(given.insts, i), next, allowModify)
  }

  lemma {:induction false} ScanStart(given: Analysis, next: Option<BlockId>, allowModify: bool)
    requires JumpsNamed(given.insts)
    ensures Scanned(given, |given.insts|, given, next, allowModify)
  {
  }

  lemma {:induction false} ScanLooks(given: Analysis, i: nat, cur: Analysis, next: Option<BlockId>, allowModify: bool)
    requires JumpsNamed(given.insts) && i > 0 && Scanned(given, i, cur, next, allowModify)
    ensures i <= |cur.insts| <= |given.insts| && cur.insts[i - 1] == given.insts[i - 1]
    ensures cur.insts[i - 1].opc.JMP? ==> |cur.insts[i - 1].ops| == 1 && cur.insts[i - 1].ops[0].MBB?
  {
  }

  lemma {:induction false} ScanDebug(given: Analysis, i: nat, cur: Analysis, next: Option<BlockId>, allowModify: bool)
    requires JumpsNamed(given.insts) && 0 < i <= |given.insts| && Scanned(given, i, cur, next, allowModify)
    requires given.insts[i - 1].opc.DBG_VALUE?
    ensures Scanned(given, i - 1, cur, next, allowModify)
  {
  }

  lemma {:induction false} ScanJump(given: Analysis, i: nat, cur: Analysis, next: Option<BlockId>, allowModify: bool)
    requires JumpsNamed(given.insts) && 0 < i <= |given.insts| && Scanned(given, i, cur, next, allowModify)
    requires given.insts[i - 1].opc.JMP? && i <= |cur.insts|
    ensures var t := given.insts[i - 1].ops[0].b;
            Scanned(given, i - 1, if !allowModify then cur.(tbb := Some(t))
                                  else if next == Some(t) then Analysis(cur.insts[..i - 1], None, None, [])
                                  else Analysis(cur.insts[..i], Some(t), None, []), next, allowModify)
  {
    assert TopJump(given.insts, i - 1) == Some(i - 1);
  }

  lemma {:induction false} ScanStop(given: Analysis, i: nat, cur: Analysis, next: Option<BlockId>, allowModify: bool)
    requires JumpsNamed(given.insts) && i <= |given.insts| && Scanned(given, i, cur, next, allowModify)
    requires i > 0 ==> !IsJumpOrDebug(given.insts[i - 1])
    ensures TailStart(given.insts) == i && cur == Analyzed(given, TailJump(given.insts), next, allowModify)
  {
    TailStartIs(given.insts, i);
  }

  /** `next` is the block laid out after mbb.  True means the analysis gives up. */
  method AnalyzeBranch(mbb: MachineBasicBlock, next: Option<BlockId>, tbb0: Option<BlockId>, fbb0: Option<BlockId>,
                       cond0: seq<Operand>, allowModify: bool)
    returns (fails: bool, tbb: Option<BlockId>, fbb: Option<BlockId>, cond: seq<Operand>)
    requires JumpsNamed(mbb.insts)
    modifies mbb`insts
    ensures var before := old(mbb.insts);
            var p := TailStart(before);
            && (fails <==> p > 0 && IsTerminator(before[p - 1]))
            && Analysis(mbb.insts, tbb, fbb, cond)
               == Analyzed(Analysis(before, tbb0, fbb0, cond0), TailJump(before), next, allowModify)
  {
    hide TailStart, Scanned, Analyzed, TailJump;
    tbb, fbb, cond := tbb0, fbb0, cond0;
    ghost var given := Analysis(mbb.insts, tbb0, fbb0, cond0);
    var i: nat := |mbb.insts|;
    ScanStart(given, next, allowModify);
    while i != 0
      invariant i <= |given.insts| && Scanned(given, i, Analysis(mbb.insts, tbb, fbb, cond), next, allowModify)
      decreases i
    {
      ghost var cur := Analysis(mbb.insts, tbb, fbb, cond);
      ScanLooks(given, i, cur, next, allowModify);
      i := i - 1;
      var mi := mbb.insts[i];
      if mi.opc.DBG_VALUE? {
        ScanDebug(given, i + 1, cur, next, allowModify);
        continue;
      }
      if !IsTerminator(mi) {
        fails := false;
        ScanStop(given, i + 1, cur, next, allowModify);
        return;
      }
      if !IsBranch(mi) {
        fails := true;
        ScanStop(given, i + 1, cur, next, allowModify);
        return;
      }
      if mi.opc.JMP? {
        ScanJump(given, i + 1, cur, next, allowModify);
        if !allowModify {
          tbb := Some(mi.ops[0].b);
          continue;
        }
        EraseBelow(mbb, i);
        cond, fbb := [], None;
        if next == Some(mi.ops[0].b) {
          tbb := None;
          assert mbb.insts[..i] == cur.insts[..i];
          mbb.insts := mbb.insts[..i];
          i := |mbb.insts|;
          continue;
        }
        tbb := Some(mi.ops[0].b);
        continue;
      }
      fails := true;
      ScanStop(given, i + 1, cur, next, allowModify);
      return;
    }
    ScanStop(given, 0, Analysis(mbb.insts, tbb, fbb, cond), next, allowModify);
    fails := false;
  }

  function WithoutJumps(insts: seq<MInstr>): seq<MInstr> {
    if insts == [] then [] else (if insts[0].opc.JMP? then [] else [insts[0]]) + WithoutJumps(insts[1..])
  }

  function CountJumps(insts: seq<MInstr>): nat {
    if insts == [] then 0 else (if insts[0].opc.JMP? then 1 else 0) + CountJumps(insts[1..])
  }

  lemma {:induction false} WithoutJumpsConcat(a: seq<MInstr>, b: seq<MInstr>)
    ensures WithoutJumps(a + b) == WithoutJumps(a) + WithoutJumps(b)
    ensures CountJumps(a + b) == CountJumps(a) + CountJumps(b)
  {
    if a == [] {
      assert a + b == b;
    } else {
      assert (a + b)[1..] == a[1..] + b;
      WithoutJumpsConcat(a[1..], b);
    }
  }

  lemma {:induction false} OnlyDebugLeft(insts: seq<MInstr>)
    requires forall i :: 0 <= i < |insts| ==> IsJumpOrDebug(insts[i])
    ensures forall i :: 0 <= i < |WithoutJumps(insts)| ==> WithoutJumps(insts)[i].opc.DBG_VALUE?
  {
    if insts != [] {
      OnlyDebugLeft(insts[1..]);
    }
  }

  /** Erases the trailing jumps, leaving the debug values among them, and says how many there were.  After
      each erasure the scan starts again from the end, so what decreases is first the block and then the
      position in it. */
  method RemoveBranch(mbb: MachineBasicBlock) returns (count: nat)
    modifies mbb`insts
    ensures var before := old(mbb.insts);
            var p := TailStart(before);
            && mbb.insts == Swept(before, p)
            && count == CountJumps(before[p..])
  {
    hide WithoutJumps, CountJumps, TailStart;
    ghost var before := mbb.insts;
    ghost var q: nat := |before|;
    var i: nat := |mbb.insts|;
    count := 0;
    NothingRemoved(before);
    while i != 0
      invariant i <= |mbb.insts| && q <= |before|
      invariant forall k :: q <= k < |before| ==> IsJumpOrDebug(before[k])
      invariant mbb.insts == Swept(before, q)
      invariant count == CountJumps(before[q..])
      invariant i >= q
      decreases |mbb.insts|, i
    {
      i := i - 1;
      ScanPosition(before, q, i);
      if mbb.insts[i].opc.DBG_VALUE? {
        if i < q {
          KeepDebug(before, q);
          q := q - 1;
        }
        continue;
      }
      if !mbb.insts[i].opc.JMP? {
        TailStartIs(before, q);
        return;
      }
      DropJump(before, q);
      q := q - 1;
      mbb.insts := mbb.insts[..i] + mbb.insts[i + 1..];
      i := |mbb.insts|;
      count := count + 1;
    }
    TailStartIs(before, 0);
  }

  /** The block when the jumps from position q on have been erased. */
  function Swept(s: seq<MInstr>, q: nat): seq<MInstr>
    requires q <= |s|
  {
    s[..q] + WithoutJumps(s[q..])
  }

  lemma {:induction false} NothingRemoved(s: seq<MInstr>)
    ensures Swept(s, |s|) == s && CountJumps(s[|s|..]) == 0
  {
  }

  lemma {:induction false} ScanPosition(s: seq<MInstr>, q: nat, i: nat)
    requires q <= |s| && i < |Swept(s, q)|
    requires forall k :: q <= k < |s| ==> IsJumpOrDebug(s[k])
    ensures if i < q then Swept(s, q)[i] == s[i] else Swept(s, q)[i].opc.DBG_VALUE?
  {
    OnlyDebugLeft(s[q..]);
    assert i >= q ==> Swept(s, q)[i] == WithoutJumps(s[q..])[i - q];
  }

  lemma {:induction false} KeepDebug(s: seq<MInstr>, q: nat)
    requires 0 < q <= |s| && s[q - 1].opc.DBG_VALUE?
    ensures Swept(s, q - 1) == Swept(s, q) && CountJumps(s[q - 1..]) == CountJumps(s[q..])
  {
    Extend(s, q);
  }

  lemma {:induction false} DropJump(s: seq<MInstr>, q: nat)
    requires 0 < q <= |s| && s[q - 1].opc.JMP?
    ensures Swept(s, q - 1) == Swept(s, q)[..q - 1] + Swept(s, q)[q..]
    ensures CountJumps(s[q - 1..]) == 1 + CountJumps(s[q..])
  {
    Extend(s, q);
    assert Swept(s, q)[..q - 1] == s[..q - 1];
    assert Swept(s, q)[q..] == WithoutJumps(s[q..]);
  }

  lemma {:induction false} Extend(s: seq<MInstr>, q: nat)
    requires 0 < q <= |s|
    ensures s[q - 1..] == [s[q - 1]] + s[q..] && s[..q] == s[..q - 1] + [s[q - 1]]
    ensures WithoutJumps(s[q - 1..]) == (if s[q - 1].opc.JMP? then [] else [s[q - 1]]) + WithoutJumps(s[q..])
    ensures CountJumps(s[q - 1..]) == (if s[q - 1].opc.JMP? then 1 else 0) + CountJumps(s[q..])
  {
    assert s[q - 1..][1..] == s[q..];
  }

  /** Only an unconditional branch to an existing block may be inserted. */
  method InsertBranch(mbb: MachineBasicBlock, tbb: BlockId, fbb: Option<BlockId>, cond: seq<Operand>)
    returns (n: nat)
    requires cond == [] && fbb == None
    modifies mbb`insts
    ensures mbb.insts == old(mbb.insts) + [JumpTo(tbb)] && n == 1
  {
    mbb.insts := mbb.insts + [MInstr(JMP, [MBB(tbb)])];
    n := 1;
  }

  // ----- where control goes -----

  /** Falling off the end means going to the next block in the layout. */
  function Resolve(next: Option<BlockId>, x: Exit): Exit {
    if x.Fall? && next.Some? then Goto(next.value, x.m) else x
  }

  lemma {:induction false} JumpRuns(e: Env, mi: MInstr, rest: seq<MInstr>, m: Mach)
    requires mi.opc.JMP? && |mi.ops| == 1 && mi.ops[0].MBB?
    ensures RunList(e, [mi] + rest, m) == Goto(mi.ops[0].b, m)
  {
    ExplicitAll(mi.ops);
  }

  /** A tail of jumps and debug values leaves through its topmost jump, with nothing changed. */
  lemma {:induction false} TailRuns(e: Env, insts: seq<MInstr>, i: nat, m: Mach)
    requires i <= |insts| && JumpsNamed(insts)
    requires forall k :: i <= k < |insts| ==> IsJumpOrDebug(insts[k])
    ensures RunList(e, insts[i..], m) ==
            match TopJump(insts, i)
            case None => Fall(m)
            case Some(j) => Goto(insts[j].ops[0].b, m)
    decreases |insts| - i
  {
    if i < |insts| {
      assert insts[i..] == [insts[i]] + insts[i + 1..];
      if insts[i].opc.JMP? {
        JumpRuns(e, insts[i], insts[i + 1..], m);
      } else {
        assert insts[i..][1..] == insts[i + 1..];
        TailRuns(e, insts, i + 1, m);
      }
    }
  }

  lemma {:induction false} BodySplit(insts: seq<MInstr>, q: nat)
    requires TailStart(insts) <= q <= |insts|
    ensures Body(insts) == Body(insts[..q]) + insts[q..]
    ensures PhiCount(insts) == PhiCount(insts[..q])
  {
    assert insts == insts[..q] + insts[q..];
    PhiCountAppend(insts[..q], insts[q..]);
  }

  /** Every run of a block: its code up to the tail, then the topmost trailing jump. */
  lemma {:induction false} BlockRuns(e: Env, insts: seq<MInstr>, q: nat, m: Mach)
    requires JumpsNamed(insts) && TailStart(insts) <= q <= |insts|
    requires TailJump(insts).Some? ==> q <= TailJump(insts).value
    ensures RunList(e, Body(insts), m) ==
            match RunList(e, Body(insts[..q]), m)
            case Fall(m') => (match TailTarget(insts) case None => Fall(m') case Some(t) => Goto(t, m'))
            case x => x
  {
    BodySplit(insts, q);
    RunListAppend(e, Body(insts[..q]), insts[q..], m);
    var x := RunList(e, Body(insts[..q]), m);
    if x.Fall? {
      TopJumpFrom(insts, TailStart(insts), q);
      TailRuns(e, insts, q, x.m);
    }
  }

  lemma {:induction false} TopJumpFrom(insts: seq<MInstr>, i: nat, q: nat)
    requires i <= q <= |insts|
    requires TopJump(insts, i).Some? ==> q <= TopJump(insts, i).value
    ensures TopJump(insts, q) == TopJump(insts, i)
    decreases q - i
  {
    if i < q {
      TopJumpFrom(insts, i + 1, q);
    }
  }

  lemma {:induction false} EndsInJump(e: Env, head: seq<MInstr>, jump: MInstr, m: Mach)
    requires jump.opc.JMP? && |jump.ops| == 1 && jump.ops[0].MBB?
    ensures RunList(e, Body(head + [jump]), m) ==
            match RunList(e, Body(head), m)
            case Fall(m') => Goto(jump.ops[0].b, m')
            case x => x
  {
    PhiCountAppend(head, [jump]);
    RunListAppend(e, Body(head), [jump], m);
    var x := RunList(e, Body(head), m);
    if x.Fall? {
      JumpRuns(e, jump, [], x.m);
      assert [jump] + [] == [jump];
    }
  }

  /** Analysis with modification changes neither the destination nor the machine state of any run of the
      block, whether the analysis succeeds or gives up. */
  lemma {:induction false} TrimmingKeepsExit(e: Env, insts: seq<MInstr>, next: Option<BlockId>, m: Mach)
    requires JumpsNamed(insts)
    ensures Resolve(next, RunList(e, Body(Trimmed(insts, next)), m)) == Resolve(next, RunList(e, Body(insts), m))
  {
    hide RunList, Body, TailStart;
    if TailJump(insts).Some? {
      var j := TailJump(insts).value;
      BlockRuns(e, insts, j, m);
      if next != TailTarget(insts) {
        assert Trimmed(insts, next) == insts[..j] + [insts[j]];
        EndsInJump(e, insts[..j], insts[j], m);
      }
    }
  }

  lemma {:induction false} NoTerminatorAbove(insts: seq<MInstr>, p: nat)
    requires BlockShape(insts) && p <= |insts|
    requires p > 0 ==> !IsTerminator(insts[p - 1]) && !insts[p - 1].opc.DBG_VALUE?
    ensures forall i :: 0 <= i < |Body(insts[..p])| ==> !IsTerminator(Body(insts[..p])[i])
  {
    assert forall i :: 0 <= i < p ==> !IsTerminator(insts[i]);
    assert forall i :: 0 <= i < |Body(insts[..p])| ==> Body(insts[..p])[i] == insts[PhiCount(insts[..p]) + i];
  }

  /** The destination the analysis stands for: the block it reports, or the next one when it reports none. */
  function Reported(insts: seq<MInstr>, next: Option<BlockId>): Option<BlockId>
    requires JumpsNamed(insts)
  {
    if TailTarget(insts).Some? then TailTarget(insts) else next
  }

  /** Control leaves for dest, past the last block when there is none, unless the machine breaks. */
  predicate LeavesFor(dest: Option<BlockId>, x: Exit) {
    x.Broken? || match dest case Some(t) => x.Goto? && x.target == t case None => x.Fall?
  }

  /** The report is right about a run exactly when the code above the tail does not return and does not jump
      anywhere else. */
  lemma {:induction false} ReportIsRight(e: Env, insts: seq<MInstr>, next: Option<BlockId>, m: Mach)
    requires JumpsNamed(insts)
    ensures var dest := Reported(insts, next);
            var h := RunList(e, Body(insts[..TailStart(insts)]), m);
            LeavesFor(dest, Resolve(next, RunList(e, Body(insts), m)))
            <==> h.Fall? || h.Broken? || (h.Goto? && dest == Some(h.target))
  {
    hide TailStart, TopJump, RunList, Body;
    BlockRuns(e, insts, TailStart(insts), m);
  }

  /** So it is right about every run when all the code above the tail does is branch to the destination. */
  lemma {:induction false} AgreeingBranchesAbove(e: Env, insts: seq<MInstr>, next: Option<BlockId>, m: Mach)
    requires JumpsNamed(insts)
    requires forall i :: 0 <= i < TailStart(insts) ==> !insts[i].opc.RET?
    requires forall t :: t in Targets(insts[..TailStart(insts)]) ==> Reported(insts, next) == Some(t)
    ensures LeavesFor(Reported(insts, next), Resolve(next, RunList(e, Body(insts), m)))
  {
    hide TailStart, TopJump, RunList, Targets, PhiCount, LeavesFor, Resolve;
    var head := insts[..TailStart(insts)];
    ReportIsRight(e, insts, next, m);
    assert forall i :: 0 <= i < |Body(head)| ==> Body(head)[i] == insts[PhiCount(head) + i];
    NeverReturns(e, Body(head), m);
    ExitsWithinTargets(e, Body(head), m);
    PhisHaveNoTargets(head);
  }

  lemma {:induction false} NeverReturns(e: Env, insts: seq<MInstr>, m: Mach)
    requires forall i :: 0 <= i < |insts| ==> !insts[i].opc.RET?
    ensures !RunList(e, insts, m).Finish?
  {
    if insts != [] {
      DenoteControl(insts[0]);
      var r := ExecMI(e, insts[0], m);
      if r.Next? {
        NeverReturns(e, insts[1..], r.m);
      }
    }
  }

  lemma {:induction false} PhisHaveNoTargets(insts: seq<MInstr>)
    ensures Targets(Body(insts)) == Targets(insts)
  {
    forall i | 0 <= i < PhiCount(insts) ensures !IsTerminator(insts[i]) {
      PhiCountIsPhi(insts, i);
    }
    DropStraightLine(insts, PhiCount(insts));
  }

  /** In particular when the analysis of a block of good shape does not give up. */
  lemma {:induction false} DestinationIsReal(e: Env, insts: seq<MInstr>, next: Option<BlockId>, m: Mach)
    requires JumpsNamed(insts) && BlockShape(insts)
    requires var p := TailStart(insts); !(p > 0 && IsTerminator(insts[p - 1]))
    ensures LeavesFor(Reported(insts, next), Resolve(next, RunList(e, Body(insts), m)))
  {
    var p := TailStart(insts);
    NoTerminatorAbove(insts, p);
    StraightLine(e, Body(insts[..p]), m);
    ReportIsRight(e, insts, next, m);
  }

  /** The block after RemoveBranch and, when there is a destination, InsertBranch. */
  function Rewritten(insts: seq<MInstr>, tbb: Option<BlockId>): seq<MInstr> {
    Swept(insts, TailStart(insts)) + (if tbb.Some? then [JumpTo(tbb.value)] else [])
  }

  lemma {:induction false} DebugRuns(e: Env, insts: seq<MInstr>, m: Mach)
    requires forall i :: 0 <= i < |insts| ==> insts[i].opc.DBG_VALUE?
    ensures RunList(e, insts, m) == Fall(m)
  {
    if insts != [] {
      DebugRuns(e, insts[1..], m);
    }
  }

  /** The new tail, debug values and then the jump, leaves for the reported destination. */
  lemma {:induction false} NewTailRuns(e: Env, dbg: seq<MInstr>, tbb: Option<BlockId>, m: Mach)
    requires forall i :: 0 <= i < |dbg| ==> dbg[i].opc.DBG_VALUE?
    ensures RunList(e, dbg + (if tbb.Some? then [JumpTo(tbb.value)] else []), m) ==
            match tbb case None => Fall(m) case Some(t) => Goto(t, m)
  {
    var jump := if tbb.Some? then [JumpTo(tbb.value)] else [];
    RunListAppend(e, dbg, jump, m);
    DebugRuns(e, dbg, m);
    if jump != [] {
      JumpRuns(e, jump[0], [], m);
      assert [jump[0]] + [] == jump;
    }
  }

  /** Removing the branches and inserting one to the reported destination gives the same exits. */
  lemma {:induction false} RewritingKeepsExit(e: Env, insts: seq<MInstr>, m: Mach)
    requires JumpsNamed(insts)
    ensures RunList(e, Body(Rewritten(insts, TailTarget(insts))), m) == RunList(e, Body(insts), m)
  {
    var p, tbb := TailStart(insts), TailTarget(insts);
    var dbg := WithoutJumps(insts[p..]);
    var tail := dbg + (if tbb.Some? then [JumpTo(tbb.value)] else []);
    OnlyDebugLeft(insts[p..]);
    assert Rewritten(insts, tbb) == insts[..p] + tail;
    assert tail == [] || !tail[0].opc.PHI?;
    PhiCountAppend(insts[..p], tail);
    RunListAppend(e, Body(insts[..p]), tail, m);
    BlockRuns(e, insts, p, m);
    var x := RunList(e, Body(insts[..p]), m);
    if x.Fall? {
      NewTailRuns(e, dbg, tbb, x.m);
    }
  }

  /** Every instruction that is not a jump stays, in order. */
  lemma {:induction false} RewritingKeepsCode(insts: seq<MInstr>, tbb: Option<BlockId>)
    ensures WithoutJumps(Rewritten(insts, tbb)) == WithoutJumps(insts)
  {
    hide TailStart;
    var p := TailStart(insts);
    var dbg := WithoutJumps(insts[p..]);
    var jump := if tbb.Some? then [JumpTo(tbb.value)] else [];
    OnlyDebugLeft(insts[p..]);
    assert insts == insts[..p] + insts[p..];
    WithoutJumpsConcat(insts[..p], insts[p..]);
    WithoutJumpsConcat(insts[..p] + dbg, jump);
    WithoutJumpsConcat(insts[..p], dbg);
    NoJumpsToDrop(dbg);
  }

  lemma {:induction false} NoJumpsToDrop(insts: seq<MInstr>)
    requires forall i :: 0 <= i < |insts| ==> !insts[i].opc.JMP?
    ensures WithoutJumps(insts) == insts
  {
    if insts != [] {
      NoJumpsToDrop(insts[1..]);
    }
  }

  // ----- whole functions -----

  function ReplaceCode(f: Func, b: BlockId, insts: seq<MInstr>): Func
    requires b in f.blocks
  {
    f.(blocks := f.blocks[b := f.blocks[b].(insts := insts)])
  }

  /** A block's new code is as good as the old when it has the same PHIs and every run leaves it the same way. */
  ghost predicate SameBehaviour(e: Env, next: Option<BlockId>, x: seq<MInstr>, y: seq<MInstr>) {
    && (forall m :: Resolve(next, RunList(e, Body(x), m)) == Resolve(next, RunList(e, Body(y), m)))
    && (forall pred, regs :: ResolvePhis(x, pred, regs, regs) == ResolvePhis(y, pred, regs, regs))
  }

  lemma {:induction false} ReplacementSteps(e: Env, f: Func, b: BlockId, insts: seq<MInstr>, s: State)
    requires b in f.blocks && SameBehaviour(e, LayoutNext(f.layout, b), f.blocks[b].insts, insts)
    ensures Step(e, ReplaceCode(f, b, insts), s) == Step(e, f, s)
  {
    if s.At? && s.b in f.blocks {
      var g := ReplaceCode(f, b, insts);
      var next := LayoutNext(f.layout, s.b);
      forall t, m ensures Enter(g, s.b, t, m) == Enter(f, s.b, t, m) {
        if t == b {
          assert ResolvePhis(insts, s.b, m.regs, m.regs) == ResolvePhis(f.blocks[b].insts, s.b, m.regs, m.regs);
        }
      }
      var x, y := RunList(e, Body(f.blocks[s.b].insts), s.m), RunList(e, Body(g.blocks[s.b].insts), s.m);
      assert Resolve(next, x) == Resolve(next, y);
      LeavingResolved(f, s.b, x);
      LeavingResolved(g, s.b, y);
      var z := Resolve(next, x);
      assert z.Goto? ==> Enter(g, s.b, z.target, z.m) == Enter(f, s.b, z.target, z.m);
    }
  }

  lemma {:induction false} LeavingResolved(f: Func, b: BlockId, x: Exit)
    ensures Leaving(f, b, x) == Leaving(f, b, Resolve(LayoutNext(f.layout, b), x))
  {
  }

  /** Runs of any length are the same, state by state. */
  lemma {:induction false} ReplacementRuns(e: Env, f: Func, b: BlockId, insts: seq<MInstr>, s: State, n: nat)
    requires b in f.blocks && SameBehaviour(e, LayoutNext(f.layout, b), f.blocks[b].insts, insts)
    ensures Run(e, ReplaceCode(f, b, insts), s, n) == Run(e, f, s, n)
    decreases n
  {
    if n > 0 {
      ReplacementSteps(e, f, b, insts, s);
      ReplacementRuns(e, f, b, insts, Step(e, f, s), n - 1);
    }
  }

  /** Whatever AnalyzeBranch deletes from a block, no run of the function notices. */
  lemma {:induction false} TrimmingKeepsRuns(e: Env, f: Func, b: BlockId, s: State, n: nat)
    requires b in f.blocks && JumpsNamed(f.blocks[b].insts)
    ensures var next := LayoutNext(f.layout, b);
            Run(e, ReplaceCode(f, b, Trimmed(f.blocks[b].insts, next)), s, n) == Run(e, f, s, n)
  {
    var insts, next := f.blocks[b].insts, LayoutNext(f.layout, b);
    var r := Trimmed(insts, next);
    forall m ensures Resolve(next, RunList(e, Body(insts), m)) == Resolve(next, RunList(e, Body(r), m)) {
      TrimmingKeepsExit(e, insts, next, m);
    }
    forall pred, regs ensures ResolvePhis(insts, pred, regs, regs) == ResolvePhis(r, pred, regs, regs) {
      assert insts == r + insts[|r|..];
      PhisOfPrefix(r, insts[|r|..], pred, regs, regs);
    }
    ReplacementRuns(e, f, b, r, s, n);
  }

  /** Nor does it notice RemoveBranch followed by InsertBranch of the reported destination. */
  lemma {:induction false} RewritingKeepsRuns(e: Env, f: Func, b: BlockId, s: State, n: nat)
    requires b in f.blocks && JumpsNamed(f.blocks[b].insts)
    ensures var insts := f.blocks[b].insts;
            Run(e, ReplaceCode(f, b, Rewritten(insts, TailTarget(insts))), s, n) == Run(e, f, s, n)
  {
    var insts := f.blocks[b].insts;
    hide TailStart, Rewritten, RunList, ResolvePhis, TailTarget;
    var r := Rewritten(insts, TailTarget(insts));
    forall m ensures RunList(e, Body(insts), m) == RunList(e, Body(r), m) {
      RewritingKeepsExit(e, insts, m);
    }
    forall pred, regs ensures ResolvePhis(insts, pred, regs, regs) == ResolvePhis(r, pred, regs, regs) {
      RewritingKeepsPhis(insts, TailTarget(insts), pred, regs);
    }
    ReplacementRuns(e, f, b, r, s, n);
  }

  lemma {:induction false} RewritingKeepsPhis(insts: seq<MInstr>, tbb: Option<BlockId>, pred: BlockId, regs: Regs)
    ensures ResolvePhis(insts, pred, regs, regs) == ResolvePhis(Rewritten(insts, tbb), pred, regs, regs)
  {
    hide TailStart, ResolvePhis;
    var p, r := TailStart(insts), Rewritten(insts, tbb);
    OnlyDebugLeft(insts[p..]);
    assert insts == insts[..p] + insts[p..];
    assert r == insts[..p] + r[p..];
    assert r[p..] == [] || !r[p..][0].opc.PHI?;
    PhisOfPrefix(insts[..p], insts[p..], pred, regs, regs);
    PhisOfPrefix(insts[..p], r[p..], pred, regs, regs);
  }

  /** The analysis reports the branch of the block it leaves behind. */
  lemma {:induction false} TrimmedTarget(insts: seq<MInstr>, next: Option<BlockId>)
    requires JumpsNamed(insts)
    ensures var r := Trimmed(insts, next);
            JumpsNamed(r) && TailTarget(r) == if next == TailTarget(insts) then None else TailTarget(insts)
  {
    hide TopJump;
    var r, j := Trimmed(insts, next), TailJump(insts);
    if j.Some? {
      assert forall i :: 0 <= i < |r| ==> r[i] == insts[i];
      TailStartIs(r, TailStart(insts));
    }
  }

  /** The whole sequence, analysis with modification, removal and insertion of what the analysis reported, goes
      unnoticed too. */
  lemma {:induction false} AnalyzeRemoveInsert(e: Env, f: Func, b: BlockId, s: State, n: nat)
    requires b in f.blocks && JumpsNamed(f.blocks[b].insts)
    ensures var insts := f.blocks[b].insts;
            var a := Analyzed(Analysis(insts, None, None, []), TailJump(insts), LayoutNext(f.layout, b), true);
            Run(e, ReplaceCode(f, b, Rewritten(a.insts, a.tbb)), s, n) == Run(e, f, s, n)
  {
    hide TailStart, TopJump, Run, Rewritten;
    var insts, next := f.blocks[b].insts, LayoutNext(f.layout, b);
    var a := Analyzed(Analysis(insts, None, None, []), TailJump(insts), next, true);
    var g := ReplaceCode(f, b, a.insts);
    AnalysisTrims(Analysis(insts, None, None, []), next);
    TrimmedTarget(insts, next);
    TrimmingKeepsRuns(e, f, b, s, n);
    RewritingKeepsRuns(e, g, b, s, n);
    var r := Rewritten(a.insts, a.tbb);
    assert ReplaceCode(g, b, r).blocks == ReplaceCode(f, b, r).blocks;
  }

  /** The rest of a block, from an instruction that is reached. */
  lemma {:induction false} ReachedRuns(e: Env, insts: seq<MInstr>, i: nat, m: Mach)
    requires i < |insts| && !insts[i].opc.PHI?
    requires RunList(e, Body(insts[..i]), m).Fall?
    ensures RunList(e, Body(insts), m) == RunList(e, insts[i..], RunList(e, Body(insts[..i]), m).m)
  {
    assert insts == insts[..i] + insts[i..];
    PhiCountAppend(insts[..i], insts[i..]);
    RunListAppend(e, Body(insts[..i]), insts[i..], m);
  }

  /** A terminator above the tail, for the runs that get to it.  A jump leaves for its own block, so the report
      is right exactly when it names that block; a return makes it wrong; a conditional jump does as a jump does
      when its comparison holds, and otherwise lets the rest of the block decide. */
  lemma {:induction false} EarlyTerminatorDecides(e: Env, insts: seq<MInstr>, i: nat, next: Option<BlockId>, m: Mach)
    requires JumpsNamed(insts) && i < TailStart(insts) && IsTerminator(insts[i]) && Denote(insts[i]).Some?
    requires RunList(e, Body(insts[..i]), m).Fall?
    ensures var dest, x := Reported(insts, next), Resolve(next, RunList(e, Body(insts), m));
            var m1 := RunList(e, Body(insts[..i]), m).m;
            match Denote(insts[i]).value
            case Branch(t) => insts[i].opc.JMP? && x == Goto(t, m1) && (LeavesFor(dest, x) <==> dest == Some(t))
            case Leave => insts[i].opc.RET? && x == Finish(m1) && !LeavesFor(dest, x)
            case BranchIf(cc, a, v, t) =>
              if Holds(cc, Get(m1.regs, a), Value(m1, v))
              then x == Goto(t, m1) && (LeavesFor(dest, x) <==> dest == Some(t))
              else x == Resolve(next, RunList(e, insts[i + 1..], m1))
            case _ => false
  {
    hide TailStart, TailTarget, Denote, Body;
    ReachedRuns(e, insts, i, m);
    DenoteControl(insts[i]);
    TerminatorKinds(insts[i]);
    assert insts[i..][0] == insts[i] && insts[i..][1..] == insts[i + 1..];
  }

  lemma {:induction false} TerminatorKinds(mi: MInstr)
    requires IsTerminator(mi) && Denote(mi).Some?
    ensures Denote(mi).value.Branch? || Denote(mi).value.Leave? || Denote(mi).value.BranchIf?
  {
  }

  function EarlyJump(): seq<MInstr> {
    [JumpTo(1), MInstr(MOV_ri, [Use(0), Imm(0)]), JumpTo(2)]
  }

  lemma {:induction false} EarlyJumpReport(next: Option<BlockId>)
    ensures JumpsNamed(EarlyJump()) && TailStart(EarlyJump()) == 2 && !IsTerminator(EarlyJump()[1])
    ensures Reported(EarlyJump(), next) == Some(2)
  {
    hide TailStart;
    TailStartIs(EarlyJump(), 2);
  }

  /** A block for which the condition fails: the analysis does not give up, reports block 2, and every run leaves
      for block 1. */
  lemma {:induction false} EarlyJumpOverlooked(e: Env, next: Option<BlockId>, m: Mach)
    ensures var insts := EarlyJump();
            && JumpsNamed(insts) && TailStart(insts) == 2 && !IsTerminator(insts[1])
            && Reported(insts, next) == Some(2)
            && RunList(e, Body(insts), m) == Goto(1, m) && !LeavesFor(Some(2), Resolve(next, Goto(1, m)))
  {
    hide RunList, TailStart, Reported, JumpsNamed;
    var insts := EarlyJump();
    EarlyJumpReport(next);
    JumpRuns(e, insts[0], insts[1..], m);
    assert Body(insts) == insts == [insts[0]] + insts[1..];
  }
}
