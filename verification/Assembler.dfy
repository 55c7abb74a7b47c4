/** A laid-out function becomes a byte image: lower, encode, collect fixups, patch.  Module ByteMachine runs
    the image. */
module Assembler {
  import opened Words
  import opened Isa
  import opened Mir
  import opened Encoding
  import opened Decoding
  import opened Fixups

  type Labels = map<BlockId, nat>

  // ----- one instruction -----

  /** An instruction the assembler can take: a debug value, which emits nothing, or one whose operands its
      format accepts. */
  predicate Ready(mi: MInstr) {
    mi.opc.DBG_VALUE? || (NoFrameIndex(mi.ops) && Encodable(Lowered(mi)))
  }

  /** What is emitted for an instruction, and what the instruction means. */
  datatype Fragment = Fragment(bytes: seq<Byte>, slots: nat, fixups: seq<Fixup>, insn: Insn)

  function FragmentOf(mi: MInstr): Fragment
    requires Ready(mi)
  {
    if mi.opc.DBG_VALUE? then Fragment([], 0, [], DebugOnly)
    else
      var mc := Lowered(mi);
      Fragment(Encoded(mc), SlotsOf(mc.opc), FixupsOf(mc), Meaning(mc))
  }

  /** The label a fragment branches to. */
  function LabelOf(fr: Fragment): Option<BlockId> {
    if fr.insn.Branch? || fr.insn.BranchIf? then Some(fr.insn.target) else None
  }

  /** Whole slots; exactly the branches have a PC-relative fixup, at offset 0 and naming their label. */
  predicate WellMade(fr: Fragment) {
    && |fr.bytes| == 8 * fr.slots
    && (fr.bytes == [] <==> fr.insn.DebugOnly?)
    && (fr.bytes == [] ==> fr.fixups == [])
    && match LabelOf(fr)
       case Some(t) => |fr.bytes| == 8 && fr.fixups == [Fixup(0, Label(t), FK_PCRel_2)]
       case None => fr.fixups == [] || (|fr.fixups| == 1 && !fr.fixups[0].kind.FK_PCRel_2? && fr.fixups[0].offset == 0)
  }

  /** The bytes with a displacement in bytes 2 and 3 of a branch. */
  function Patched(fr: Fragment, disp: int): (r: seq<Byte>)
    requires WellMade(fr)
    ensures |r| == |fr.bytes|
  {
    if LabelOf(fr).None? then fr.bytes
    else fr.bytes[2 := (disp % 0x1_0000) % 0x100][3 := (disp % 0x1_0000) / 0x100]
  }

  /** Patched bytes decode, whatever follows, to the instruction with its displacement exactly when that is in
      range. */
  ghost predicate Faithful(fr: Fragment)
    requires WellMade(fr)
  {
    fr.bytes != [] ==>
      forall disp: int, rest: seq<Byte> ::
        var d := Decode(Patched(fr, disp) + rest);
        && d.Some? && 8 * d.value.slots == |fr.bytes|
        && (d.value.i == Placed(fr.insn, disp) <==> InRange(Placed(fr.insn, disp)))
  }

  lemma {:induction false} EncodedSlots(mc: MCInst)
    requires Encodable(mc)
    ensures |Encoded(mc)| == 8 * SlotsOf(mc.opc)
  {
  }

  lemma {:induction false} FragmentWellMade(mi: MInstr)
    requires Ready(mi)
    ensures WellMade(FragmentOf(mi))
  {
    hide FieldsOf, Encoded, LowerOperands;
    if !mi.opc.DBG_VALUE? {
      EncodedSlots(Lowered(mi));
    }
  }

  lemma {:induction false} PatchedFragment(mi: MInstr, disp: int)
    requires Ready(mi) && !mi.opc.DBG_VALUE? && WellMade(FragmentOf(mi))
    ensures Patched(FragmentOf(mi), disp) == PatchedBytes(Lowered(mi), disp)
  {
    var mc := Lowered(mi);
    if HasLabel(mc.opc) {
      PatchedIsField(mc, disp);
    }
  }

  lemma {:induction false} PatchedIsField(mc: MCInst, disp: int)
    requires Encodable(mc) && HasLabel(mc.opc)
    ensures var d := disp % 0x1_0000;
            |Encoded(mc)| == 8 && Encoded(mc)[2 := d % 0x100][3 := d / 0x100] == PatchedBytes(mc, disp)
  {
    var w, w' := FieldsOf(mc), PatchedFields(mc, disp);
    FieldBytes(w);
    FieldBytes(w');
    assert Encoded(mc) == Bytes(w) && PatchedBytes(mc, disp) == Bytes(w');
    SameButField(w, w');
  }

  lemma {:induction false} SameButField(w: Fields, w': Fields)
    requires FieldsFit(w) && FieldsFit(w') && w' == w.(off := w'.off)
    ensures Bytes(w') == Bytes(w)[2 := w'.off % 0x100][3 := w'.off / 0x100]
  {
    FieldBytes(w);
    FieldBytes(w');
    var x, y := Bytes(w)[2 := w'.off % 0x100][3 := w'.off / 0x100], Bytes(w');
    forall i | 0 <= i < 8 ensures x[i] == y[i] {
      if i >= 4 {
        assert x[i] == Bytes(w)[4..8][i - 4] && y[i] == Bytes(w')[4..8][i - 4];
      }
    }
  }

  lemma {:induction false} FragmentFaithful(mi: MInstr)
    requires Ready(mi)
    ensures WellMade(FragmentOf(mi)) && Faithful(FragmentOf(mi))
  {
    FragmentWellMade(mi);
    var fr := FragmentOf(mi);
    if fr.bytes != [] {
      forall disp: int, rest: seq<Byte>
        ensures var d := Decode(Patched(fr, disp) + rest);
                && d.Some? && 8 * d.value.slots == |fr.bytes|
                && (d.value.i == Placed(fr.insn, disp) <==> InRange(Placed(fr.insn, disp)))
      {
        PatchedFragment(mi, disp);
        RoundTrip(Lowered(mi), disp, rest);
      }
    }
  }

  /** The shape of the explicit operands decides the meaning. */
  lemma {:induction false} MeaningOfOperands(opc: Opcode, x: seq<Operand>, l: seq<MCOperand>)
    requires |l| == |x| && forall i :: 0 <= i < |x| ==> !IsImplicit(x[i]) && !x[i].FI? && l[i] == LowerOperand(x[i])
    requires Encodable(MCInst(opc, l))
    ensures DenoteOperands(opc, x) == Some(Meaning(MCInst(opc, l)))
  {
    if |x| > 0 {
      assert l[0] == LowerOperand(x[0]);
    }
    if |x| > 1 {
      assert l[1] == LowerOperand(x[1]);
    }
    if |x| > 2 {
      assert l[2] == LowerOperand(x[2]);
    }
    if |x| > 3 {
      assert l[3] == LowerOperand(x[3]);
    }
  }

  /** The fragment's meaning is the machine instruction's. */
  lemma {:induction false} FragmentDenotes(mi: MInstr)
    requires Ready(mi)
    ensures Denote(mi) == Some(FragmentOf(mi).insn)
  {
    hide Encodable, Meaning, DenoteOperands, Encoded, FixupsOf;
    if mi.opc.DBG_VALUE? {
      DebugDenotes(mi);
    } else {
      LoweredExplicit(mi.ops);
      MeaningOfOperands(mi.opc, Explicit(mi.ops), LowerOperands(mi.ops));
    }
  }

  lemma DebugDenotes(mi: MInstr)
    requires mi.opc.DBG_VALUE?
    ensures Denote(mi) == Some(DebugOnly)
  {
  }

  // ----- a section -----

  predicate AllReady(code: seq<MInstr>) {
    forall i :: 0 <= i < |code| ==> Ready(code[i])
  }

  function Fragments(code: seq<MInstr>): (r: seq<Fragment>)
    requires AllReady(code)
    ensures |r| == |code| && forall i :: 0 <= i < |r| ==> r[i] == FragmentOf(code[i])
  {
    if code == [] then [] else [FragmentOf(code[0])] + Fragments(code[1..])
  }

  /** Well-made fragments whose labels all have a place. */
  predicate Linked(frs: seq<Fragment>, labels: Labels) {
    frs == [] || (LinkedOne(frs[0], labels) && Linked(frs[1..], labels))
  }

  predicate LinkedOne(fr: Fragment, labels: Labels) {
    WellMade(fr) && (LabelOf(fr).Some? ==> LabelOf(fr).value in labels)
  }

  ghost predicate AllFaithful(frs: seq<Fragment>, labels: Labels)
    requires Linked(frs, labels)
  {
    frs == [] || (Faithful(frs[0]) && AllFaithful(frs[1..], labels))
  }

  /** The displacement of the fragment at slot `at`: from the slot after it to its label. */
  function Disp(fr: Fragment, labels: Labels, at: nat): int {
    match LabelOf(fr)
    case Some(t) => if t in labels then labels[t] - at - 1 else 0
    case None => 0
  }

  function SlotSum(frs: seq<Fragment>): nat {
    if frs == [] then 0 else frs[0].slots + SlotSum(frs[1..])
  }

  /** The bytes as emitted. */
  function RawImage(frs: seq<Fragment>): seq<Byte> {
    if frs == [] then [] else frs[0].bytes + RawImage(frs[1..])
  }

  /** The bytes with every branch patched. */
  function Image(frs: seq<Fragment>, labels: Labels, at: nat): seq<Byte>
    requires Linked(frs, labels)
  {
    if frs == [] then []
    else Patched(frs[0], Disp(frs[0], labels, at)) + Image(frs[1..], labels, at + frs[0].slots)
  }

  function Rebased(fs: seq<Fixup>, base: nat): (r: seq<Fixup>)
    ensures |r| == |fs|
  {
    seq(|fs|, i requires 0 <= i < |fs| => fs[i].(offset := fs[i].offset + base))
  }

  /** The fixups of the section: each fragment's, moved to its place. */
  function FixupList(frs: seq<Fragment>, at: nat): seq<Fixup> {
    if frs == [] then [] else Rebased(frs[0].fixups, 8 * at) + FixupList(frs[1..], at + frs[0].slots)
  }

  /** The value of a fixup once the layout is known; section-relative ones are left to the linker. */
  function ValueOf(f: Fixup, labels: Labels): Word {
    if f.kind.FK_PCRel_2? && f.target.Label? && f.target.b in labels
    then FixupValue(labels[f.target.b], f.offset / 8) else 0
  }

  predicate Inside(fs: seq<Fixup>, n: nat) {
    forall i :: 0 <= i < |fs| && fs[i].kind.FK_PCRel_2? ==> fs[i].offset + 4 <= n
  }

  function ApplyAll(data: seq<Byte>, fs: seq<Fixup>, labels: Labels): (r: seq<Byte>)
    requires Inside(fs, |data|)
    ensures |r| == |data|
    decreases fs
  {
    if fs == [] then data else ApplyAll(Applied(data, fs[0], ValueOf(fs[0], labels)), fs[1..], labels)
  }

  // ----- emission -----

  /** Lowers and encodes one instruction; its fixups are moved to where its bytes begin. */
  method EmitInstruction(em: CodeEmitter, mi: MInstr) returns (fixups: seq<Fixup>)
    requires Ready(mi)
    modifies em
    ensures em.OS == old(em.OS) + FragmentOf(mi).bytes
    ensures fixups == Rebased(FragmentOf(mi).fixups, |old(em.OS)|)
  {
    if mi.opc.DBG_VALUE? {
      return [];
    }
    var mc := Lower(mi);
    var base := |em.OS|;
    em.Fixups := [];
    em.EncodeInstruction(mc);
    assert em.Fixups == FixupsOf(mc);
    fixups := Rebased(em.Fixups, base);
  }

  lemma {:induction false} EmitStep(os: seq<Byte>, fixups: seq<Fixup>, rest: seq<Fragment>, at: nat)
    requires rest != []
    ensures (os + rest[0].bytes) + RawImage(rest[1..]) == os + RawImage(rest)
    ensures (fixups + Rebased(rest[0].fixups, 8 * at)) + FixupList(rest[1..], at + rest[0].slots)
            == fixups + FixupList(rest, at)
  {
  }

  /** Emits the code of a section and collects its fixups. */
  method EmitCode(code: seq<MInstr>) returns (os: seq<Byte>, fixups: seq<Fixup>)
    requires AllReady(code)
    ensures os == RawImage(Fragments(code)) && fixups == FixupList(Fragments(code), 0)
  {
    hide FragmentOf, Rebased;
    var em := new CodeEmitter();
    fixups := [];
    ghost var rest := Fragments(code);
    ghost var at := 0;
    for i := 0 to |code|
      invariant |em.OS| == 8 * at && rest == Fragments(code)[i..]
      invariant em.OS + RawImage(rest) == RawImage(Fragments(code))
      invariant fixups + FixupList(rest, at) == FixupList(Fragments(code), 0)
    {
      ghost var fr := FragmentOf(code[i]);
      assert rest[0] == fr;
      FragmentWellMade(code[i]);
      label step:
      var fs := EmitInstruction(em, code[i]);
      assert fs == Rebased(rest[0].fixups, 8 * at);
      EmitStep(old@step(em.OS), fixups, rest, at);
      fixups := fixups + fs;
      at := at + fr.slots;
      rest := rest[1..];
    }
    os := em.OS;
  }

  /** Patches all fixups in the buffer, one after the other. */
  method PatchCode(data: array<Byte>, fs: seq<Fixup>, labels: Labels)
    requires Inside(fs, data.Length)
    modifies data
    ensures data[..] == ApplyAll(old(data[..]), fs, labels)
  {
    for i := 0 to |fs|
      invariant Inside(fs[i..], data.Length)
      invariant ApplyAll(data[..], fs[i..], labels) == ApplyAll(old(data[..]), fs, labels)
    {
      assert fs[i..][1..] == fs[i + 1..];
      assert fs[i] == fs[i..][0];
      ApplyFixup(fs[i], data, ValueOf(fs[i], labels));
    }
    assert fs[|fs|..] == [];
  }

  /** Emission, layout and patching of a section. */
  method AssembleCode(code: seq<MInstr>, labels: Labels) returns (data: array<Byte>)
    requires AllReady(code) && Linked(Fragments(code), labels)
    ensures fresh(data) && data[..] == Image(Fragments(code), labels, 0)
  {
    var os, fixups := EmitCode(code);
    data := new Byte[|os|](i requires 0 <= i < |os| => os[i]);
    assert data[..] == os;
    ghost var frs := Fragments(code);
    PatchedIsImage([], frs, labels, 0);
    assert [] + RawImage(frs) == os && [] + Image(frs, labels, 0) == Image(frs, labels, 0);
    PatchCode(data, fixups, labels);
  }

  // ----- patching all fixups patches every branch -----

  lemma {:induction false} ApplyOne(data: seq<Byte>, f: Fixup, fs: seq<Fixup>, labels: Labels)
    requires Inside([f] + fs, |data|)
    ensures Inside(fs, |data|) && (f.kind.FK_PCRel_2? ==> f.offset + 4 <= |data|)
    ensures ApplyAll(data, [f] + fs, labels) == ApplyAll(Applied(data, f, ValueOf(f, labels)), fs, labels)
  {
    assert ([f] + fs)[0] == f && ([f] + fs)[1..] == fs;
    assert forall i :: 0 <= i < |fs| ==> fs[i] == ([f] + fs)[i + 1];
  }

  /** Fixups lie within the bytes of their fragments. */
  lemma {:induction false} FixupsInside(frs: seq<Fragment>, labels: Labels, at: nat)
    requires Linked(frs, labels)
    ensures Inside(FixupList(frs, at), 8 * at + |RawImage(frs)|)
  {
    if frs != [] {
      var a, b := Rebased(frs[0].fixups, 8 * at), FixupList(frs[1..], at + frs[0].slots);
      FixupsInside(frs[1..], labels, at + frs[0].slots);
      assert Inside(a, 8 * at + |RawImage(frs)|);
      var fs := a + b;
      assert forall i :: 0 <= i < |fs| ==> fs[i] == if i < |a| then a[i] else b[i - |a|];
    }
  }

  /** Patching a branch between other bytes. */
  lemma {:induction false} AppliedInside(pre: seq<Byte>, fr: Fragment, rest: seq<Byte>, f: Fixup, target: int, slot: int)
    requires WellMade(fr) && LabelOf(fr).Some? && f.kind.FK_PCRel_2? && f.offset == |pre|
    ensures Applied(pre + fr.bytes + rest, f, FixupValue(target, slot)) == pre + Patched(fr, target - slot - 1) + rest
  {
    DisplacementReachesTarget(target, slot);
  }

  /** The fixups of one fragment turn its emitted bytes into its final ones. */
  lemma {:induction false} PatchOne(pre: seq<Byte>, fr: Fragment, labels: Labels, at: nat, rest: seq<Byte>, fs: seq<Fixup>)
    requires LinkedOne(fr, labels) && |pre| == 8 * at
    requires Inside(Rebased(fr.fixups, 8 * at) + fs, |pre + fr.bytes + rest|)
    ensures WellMade(fr) && Inside(fs, |pre + fr.bytes + rest|)
    ensures ApplyAll(pre + fr.bytes + rest, Rebased(fr.fixups, 8 * at) + fs, labels)
            == ApplyAll(pre + Patched(fr, Disp(fr, labels, at)) + rest, fs, labels)
  {
    hide FixupValue;
    var data := pre + fr.bytes + rest;
    var own := Rebased(fr.fixups, 8 * at);
    if own == [] {
      assert own + fs == fs;
    } else {
      assert own == [own[0]];
      ApplyOne(data, own[0], fs, labels);
      if LabelOf(fr).Some? {
        AppliedInside(pre, fr, rest, own[0], labels[LabelOf(fr).value], at);
      }
    }
  }

  lemma {:induction false} PatchStep(pre: seq<Byte>, b: seq<Byte>, p: seq<Byte>, raw: seq<Byte>, img: seq<Byte>,
                                     own: seq<Fixup>, fs: seq<Fixup>, labels: Labels)
    requires |b| == |p| && Inside(own + fs, |pre + b + raw|) && Inside(fs, |pre + p + raw|)
    requires ApplyAll(pre + b + raw, own + fs, labels) == ApplyAll(pre + p + raw, fs, labels)
    requires ApplyAll(pre + p + raw, fs, labels) == pre + p + img
    ensures Inside(own + fs, |pre + (b + raw)|)
    ensures ApplyAll(pre + (b + raw), own + fs, labels) == pre + (p + img)
  {
    assert pre + (b + raw) == pre + b + raw;
    assert pre + (p + img) == pre + p + img;
  }

  lemma {:induction false} PatchedIsImage(pre: seq<Byte>, frs: seq<Fragment>, labels: Labels, at: nat)
    requires Linked(frs, labels) && |pre| == 8 * at
    ensures Inside(FixupList(frs, at), |pre + RawImage(frs)|)
    ensures ApplyAll(pre + RawImage(frs), FixupList(frs, at), labels) == pre + Image(frs, labels, at)
    decreases frs
  {
    hide Patched, Applied, ValueOf, Disp, LabelOf;
    FixupsInside(frs, labels, at);
    if frs == [] {
      assert pre + RawImage(frs) == pre == pre + Image(frs, labels, at);
    } else {
      var fr, tail := frs[0], frs[1..];
      var p, raw, img := Patched(fr, Disp(fr, labels, at)), RawImage(tail), Image(tail, labels, at + fr.slots);
      var own, fs := Rebased(fr.fixups, 8 * at), FixupList(tail, at + fr.slots);
      PatchOne(pre, fr, labels, at, raw, fs);
      PatchedIsImage(pre + p, tail, labels, at + fr.slots);
      PatchStep(pre, fr.bytes, p, raw, img, own, fs, labels);
    }
  }

  // ----- finding a fragment in the image -----

  lemma {:induction false} SlotSumConcat(a: seq<Fragment>, b: seq<Fragment>)
    ensures SlotSum(a + b) == SlotSum(a) + SlotSum(b)
  {
    if a == [] {
      assert a + b == b;
    } else {
      assert (a + b)[1..] == a[1..] + b;
      SlotSumConcat(a[1..], b);
    }
  }

  lemma {:induction false} DropConcat(a: seq<Byte>, b: seq<Byte>, n: nat)
    requires n <= |b|
    ensures (a + b)[|a| + n..] == b[n..]
  {
  }

  /** The image from the slot of fragment k on is the image of the fragments from k on. */
  lemma {:induction false} ImageFrom(frs: seq<Fragment>, labels: Labels, at: nat, k: nat)
    requires Linked(frs, labels) && k <= |frs|
    ensures Linked(frs[k..], labels)
    ensures var off := SlotSum(frs[..k]);
            && 8 * off <= |Image(frs, labels, at)|
            && Image(frs, labels, at)[8 * off..] == Image(frs[k..], labels, at + off)
    decreases k
  {
    hide Image, SlotSum, Linked;
    SlotSumTake(frs, k);
    if k == 0 {
      assert frs[0..] == frs;
    } else {
      var tail := frs[1..];
      var first := ImageStep(frs, labels, at);
      ImageFrom(tail, labels, at + frs[0].slots, k - 1);
      assert tail[k - 1..] == frs[k..];
      DropConcat(first, Image(tail, labels, at + frs[0].slots), 8 * SlotSum(tail[..k - 1]));
    }
  }

  lemma {:induction false} ImageStep(frs: seq<Fragment>, labels: Labels, at: nat) returns (first: seq<Byte>)
    requires Linked(frs, labels) && frs != []
    ensures Linked(frs[1..], labels) && |first| == 8 * frs[0].slots
    ensures Image(frs, labels, at) == first + Image(frs[1..], labels, at + frs[0].slots)
  {
    first := Patched(frs[0], Disp(frs[0], labels, at));
  }

  lemma {:induction false} SlotSumTake(frs: seq<Fragment>, k: nat)
    requires k <= |frs|
    ensures SlotSum(frs[..k]) == if k == 0 then 0 else frs[0].slots + SlotSum(frs[1..][..k - 1])
  {
    assert k > 0 ==> frs[..k][1..] == frs[1..][..k - 1];
  }

  // ----- the whole byte stream -----

  /** All instructions of a byte stream, one after the other. */
  function DecodeAll(b: seq<Byte>): Option<seq<Insn>>
    decreases |b|
  {
    if b == [] then Some([])
    else
      match Decode(b)
      case None => None
      case Some(d) =>
        if 8 * d.slots > |b| || d.slots == 0 then None
        else
          match DecodeAll(b[8 * d.slots..])
          case None => None
          case Some(rest) => Some([d.i] + rest)
  }

  /** The instructions of the code, labels turned into slot displacements. */
  function Resolved(frs: seq<Fragment>, labels: Labels, at: nat): seq<Insn> {
    if frs == [] then []
    else
      (if frs[0].bytes == [] then [] else [Placed(frs[0].insn, Disp(frs[0], labels, at))])
      + Resolved(frs[1..], labels, at + frs[0].slots)
  }

  /** Every instruction fits its format, with the displacement its place gives it. */
  predicate AllInRange(frs: seq<Fragment>, labels: Labels, at: nat) {
    frs == [] ||
    ((frs[0].bytes == [] || InRange(Placed(frs[0].insn, Disp(frs[0], labels, at))))
     && AllInRange(frs[1..], labels, at + frs[0].slots))
  }

  /** One instruction off the front of a stream. */
  lemma {:induction false} DecodeFront(b: seq<Byte>, rest: seq<Byte>, i: Insn, slots: nat, tail: seq<Insn>)
    requires slots > 0 && |b| == 8 * slots
    requires Decode(b + rest) == Some(Decoded(i, slots)) && DecodeAll(rest) == Some(tail)
    ensures DecodeAll(b + rest) == Some([i] + tail)
  {
    assert (b + rest)[8 * slots..] == rest;
  }

  /** One fragment off the front: its instruction is right exactly when it is in range. */
  lemma {:induction false} FrontRoundTrip(fr: Fragment, disp: int, rest: seq<Byte>, tail: seq<Insn>)
    requires WellMade(fr) && Faithful(fr) && fr.bytes != [] && DecodeAll(rest) == Some(tail)
    ensures var d := DecodeAll(Patched(fr, disp) + rest);
            && d.Some? && |d.value| == 1 + |tail| && d.value[1..] == tail
            && (d.value[0] == Placed(fr.insn, disp) <==> InRange(Placed(fr.insn, disp)))
  {
    var d := Decode(Patched(fr, disp) + rest).value;
    DecodeFront(Patched(fr, disp), rest, d.i, d.slots, tail);
  }

  /** One fragment, whether or not it emits anything, in front of a stream. */
  lemma {:induction false} StreamStep(fr: Fragment, disp: int, rest: seq<Byte>, ds: seq<Insn>, r: seq<Insn>, inRange: bool)
    requires WellMade(fr) && Faithful(fr)
    requires DecodeAll(rest) == Some(ds) && |ds| == |r| && (ds == r <==> inRange)
    ensures var d := DecodeAll(Patched(fr, disp) + rest);
            var all := (if fr.bytes == [] then [] else [Placed(fr.insn, disp)]) + r;
            && d.Some? && |d.value| == |all|
            && (d.value == all <==> (fr.bytes == [] || InRange(Placed(fr.insn, disp))) && inRange)
  {
    if fr.bytes == [] {
      assert Patched(fr, disp) + rest == rest;
      assert [] + r == r;
    } else {
      FrontRoundTrip(fr, disp, rest, ds);
      var x, y := DecodeAll(Patched(fr, disp) + rest).value, [Placed(fr.insn, disp)] + r;
      assert y[1..] == r && y[0] == Placed(fr.insn, disp);
      assert x == [x[0]] + x[1..];
    }
  }

  /** Decoding the stream gives back exactly the code, when and only when every instruction is in range. */
  lemma {:induction false} StreamRoundTrip(frs: seq<Fragment>, labels: Labels, at: nat)
    requires Linked(frs, labels) && AllFaithful(frs, labels)
    ensures var d := DecodeAll(Image(frs, labels, at));
            && d.Some? && |d.value| == |Resolved(frs, labels, at)|
            && (d.value == Resolved(frs, labels, at) <==> AllInRange(frs, labels, at))
    decreases frs
  {
    hide Patched, Decode, Faithful, Disp, InRange, Placed;
    if frs != [] {
      var fr, tail := frs[0], frs[1..];
      var next := at + fr.slots;
      StreamRoundTrip(tail, labels, next);
      StreamStep(fr, Disp(fr, labels, at), Image(tail, labels, next), DecodeAll(Image(tail, labels, next)).value,
                 Resolved(tail, labels, next), AllInRange(tail, labels, next));
    }
  }
}
