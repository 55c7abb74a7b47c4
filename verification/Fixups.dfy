/** applyFixup: the displacement of a branch, patched into bytes 2 and 3 of its instruction. */
module Fixups {
  import opened Words
  import opened Mir
  import opened Encoding
  import opened Decoding
  import Bits

  /** (uint16_t) ((Value - 8) / 8), all in unsigned 64-bit arithmetic. */
  function Displacement(value: Word): nat {
    var v: int := value;
    (Wrap64(v - 8) / 8) % 0x1_0000
  }

  /** The buffer after one fixup. */
  function Applied(data: seq<Byte>, f: Fixup, value: Word): (r: seq<Byte>)
    requires f.kind.FK_PCRel_2? ==> f.offset + 4 <= |data|
    ensures |r| == |data|
  {
    if f.kind.FK_PCRel_2? then
      data[f.offset + 2 := Displacement(value) % 0x100][f.offset + 3 := Displacement(value) / 0x100]
    else data
  }

  /** Section-relative fixups must have value 0 and leave the bytes alone. */
  method ApplyFixup(f: Fixup, data: array<Byte>, value: Word)
    requires !f.kind.FK_PCRel_2? ==> value == 0
    requires f.kind.FK_PCRel_2? ==> f.offset + 4 <= data.Length
    modifies data
    ensures data[..] == Applied(old(data[..]), f, value)
  {
    if f.kind.FK_SecRel_4? || f.kind.FK_SecRel_8? {
      return;
    }
    var d := Displacement(value);
    data[f.offset + 2] := d % 0x100;
    data[f.offset + 3] := d / 0x100;
  }

  /** Only bytes 2 and 3 after the place of a PC-relative fixup can change. */
  lemma {:induction false} AppliedOnly(data: seq<Byte>, f: Fixup, value: Word, i: nat)
    requires (f.kind.FK_PCRel_2? ==> f.offset + 4 <= |data|) && i < |data|
    requires !(f.kind.FK_PCRel_2? && (i == f.offset + 2 || i == f.offset + 3))
    ensures Applied(data, f, value)[i] == data[i]
  {
  }

  /** The value the assembler passes: target address minus instruction address, modulo 2^64. */
  function FixupValue(target: int, slot: int): Word {
    Wrap64(8 * target - 8 * slot)
  }

  lemma {:induction false} ScaledWrap(d: int)
    ensures Wrap64(8 * d) / 8 == d % 0x2000_0000_0000_0000
  {
    var q, r := d / 0x2000_0000_0000_0000, d % 0x2000_0000_0000_0000;
    Bits.DivModUnique(8 * d, TWO_64, q, 8 * r);
  }

  lemma {:induction false} LowOfLow(d: int)
    ensures (d % 0x2000_0000_0000_0000) % 0x1_0000 == d % 0x1_0000
  {
    var q, u := d / 0x2000_0000_0000_0000, d % 0x2000_0000_0000_0000;
    Bits.DivModUnique(d, 0x1_0000, q * 0x2000_0000_0000 + u / 0x1_0000, u % 0x1_0000);
  }

  /** Whatever the distance, forward, backward or zero, the patched field is the true displacement modulo
      2^16; read as a signed number it reaches the target exactly when the displacement fits 16 bits. */
  lemma {:induction false} DisplacementReachesTarget(target: int, slot: int)
    ensures Displacement(FixupValue(target, slot)) == (target - slot - 1) % 0x1_0000
    ensures slot + 1 + Low16Signed(Displacement(FixupValue(target, slot))) == target
            <==> FitsInt16(target - slot - 1)
  {
    var d := target - slot - 1;
    WrapAdd(8 * target - 8 * slot, -8);
    assert 8 * target - 8 * slot - 8 == 8 * d;
    ScaledWrap(d);
    LowOfLow(d);
    Low16Exact(d);
  }

  /** Patching a branch among other bytes changes its displacement field and nothing else. */
  lemma {:induction false} PatchOneBranch(before: seq<Byte>, mc: MCInst, rest: seq<Byte>, target: int, slot: int, s: Symbol)
    requires Encodable(mc) && HasLabel(mc.opc)
    ensures Applied(before + Encoded(mc) + rest, Fixup(|before|, s, FK_PCRel_2), FixupValue(target, slot))
            == before + PatchedBytes(mc, target - slot - 1) + rest
  {
    var d := (target - slot - 1) % 0x1_0000;
    DisplacementReachesTarget(target, slot);
    var w, w' := FieldsOf(mc), PatchedFields(mc, target - slot - 1);
    assert Encoded(mc) == Bytes(w) && PatchedBytes(mc, target - slot - 1) == Bytes(w');
    assert w' == w.(off := d);
    FieldBytes(w);
    FieldBytes(w');
    var x, y := before + Bytes(w) + rest, before + Bytes(w') + rest;
    var z := Applied(x, Fixup(|before|, s, FK_PCRel_2), FixupValue(target, slot));
    forall i | 0 <= i < |z| ensures z[i] == y[i] {
      if |before| <= i < |before| + 8 {
        assert y[i] == Bytes(w')[i - |before|];
        assert x[i] == Bytes(w)[i - |before|];
      }
    }
    assert z == y;
  }

  /** The displacement field is bytes 2 and 3. */
  lemma {:induction false} FieldBytes(w: Fields)
    requires FieldsFit(w)
    ensures var b := Bytes(w);
            && b[0] == w.op && b[1] == w.src * 16 + w.dst
            && b[2] == w.off % 0x100 && b[3] == w.off / 0x100
            && b[4..8] == LittleEndian(w.imm, 4)
  {
    var b := Bytes(w);
    assert LittleEndian(w.off / 0x100, 1) == [w.off / 0x100];
    assert b[2..4] == LittleEndian(w.off, 2);
    assert b[2] == b[2..4][0] && b[3] == b[2..4][1];
    assert b[4..8] == LittleEndian(w.imm, 4);
  }
}
