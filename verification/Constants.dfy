/** The 64-bit constant rewrites of the instruction description: LO32/HI32 and the mask 0xffffFFFF. */
module Constants {
  import opened Words
  import opened Bits
  import opened Isa
  import opened Mir
  import opened Cfg

  /** (int64_t)(int32_t)(uint64_t) N */
  function LO32(n: Word): int {
    Low32Signed(n)
  }

  /** ((int64_t) N - LO32(N)) >> 32: a wrapping subtraction and an arithmetic shift. */
  function HI32(n: Word): int {
    Low64Signed(Low64Signed(n) - LO32(n)) / TWO_32
  }

  /** Shifts, and and add on 64-bit words; the other operations keep whatever meaning `other` gives them. */
  function Alu64(other: (AluOp, Word, Word) -> Word, op: AluOp, a: Word, b: Word): Word {
    match op
    case SLL => if b < 64 then Wrap64(a * Pow2(b)) else other(op, a, b)
    case SRL => if b < 64 then Wrap64(a / Pow2(b)) else other(op, a, b)
    case AND => Wrap64(BitAnd(a, b))
    case _ => other(op, a, b)
  }

  ghost predicate HasShifts(e: Env) {
    forall op, a, b {:trigger e.alu(op, a, b)} :: e.alu(op, a, b) == Alu64(e.alu, op, a, b)
  }

  lemma {:induction false} Pow2Of32()
    ensures Pow2(32) == TWO_32
  {
    assert Pow2(8) == 0x100;
    assert Pow2(16) == 0x1_0000 by { assert Pow2(12) == 0x1000; }
    assert Pow2(24) == 0x100_0000 by { assert Pow2(20) == 0x10_0000; }
    assert Pow2(28) == 0x1000_0000;
  }

  /** Both halves fit a signed 32-bit immediate, and put together they are N, also where the subtraction
      overflows. */
  lemma {:induction false} HalvesRebuild(n: Word)
    ensures FitsInt32(LO32(n)) && FitsInt32(HI32(n))
    ensures Wrap64(HI32(n) * TWO_32 + LO32(n)) == n
  {
    hide Low64Signed;
    var s, lo := Low64Signed(n), LO32(n);
    var d := Low64Signed(s - lo);
    LowPart(n);
    HighPart(s - lo);
    assert HI32(n) * TWO_32 == d;
    Residue(d - (s - lo), s, d + lo, n);
  }

  lemma {:induction false} LowPart(n: Word)
    ensures (Low64Signed(n) - LO32(n)) % TWO_32 == 0 && (Low64Signed(n) - n) % TWO_64 == 0
  {
    var q, r := n / TWO_32, n % TWO_32;
    DivModUnique(n, TWO_64, 0, n);
    var high := if Low64Signed(n) == n then q else q - TWO_32;
    var carry := if LO32(n) == r then 0 else 1;
    DivModUnique(Low64Signed(n) - LO32(n), TWO_32, high + carry, 0);
    DivModUnique(Low64Signed(n) - n, TWO_64, if Low64Signed(n) == n then 0 else -1, 0);
  }

  lemma {:induction false} Residue(a: int, s: int, x: int, n: Word)
    requires a % TWO_64 == 0 && (s - n) % TWO_64 == 0 && x == a + s
    ensures Wrap64(x) == n
  {
    DivModUnique(x, TWO_64, a / TWO_64 + (s - n) / TWO_64, n);
  }

  /** A multiple of 2^32, wrapped to 64 bits, is a signed 32-bit number of such multiples. */
  lemma {:induction false} HighPart(x: int)
    requires x % TWO_32 == 0
    ensures var d := Low64Signed(x);
            d % TWO_32 == 0 && FitsInt32(d / TWO_32) && (d - x) % TWO_64 == 0
  {
    var q, u := x / TWO_64, x % TWO_64;
    assert u == x - q * TWO_64;
    assert u % TWO_32 == 0;
  }

  lemma {:induction false} MaskIsLow32(a: Word)
    ensures BitAnd(a, 0xffff_ffff) == a % TWO_32
  {
    Pow2Of32();
    AndLowBits(a, 32);
  }

  function ShiftPair(d: Reg, s: Reg): seq<MInstr> {
    [MInstr(ALU_ri(SLL), [Use(d), Use(s), Imm(32)]), MInstr(ALU_ri(SRL), [Use(d), Use(d), Imm(32)])]
  }

  lemma {:induction false} TwoInstructions(e: Env, a: MInstr, b: MInstr, i: Insn, j: Insn, m: Mach)
    requires Denote(a) == Some(i) && Denote(b) == Some(j)
    requires Exec(e, i, m).Next? && Exec(e, j, Exec(e, i, m).m).Next?
    ensures RunList(e, [a, b], m) == Fall(Exec(e, j, Exec(e, i, m).m).m)
  {
    var m1 := Exec(e, i, m).m;
    assert [a, b][1..] == [b] && [b][1..] == [];
    assert RunList(e, [b], m1) == Fall(Exec(e, j, m1).m);
  }

  lemma {:induction false} ShiftPairDenotes(d: Reg, s: Reg)
    ensures var code := ShiftPair(d, s);
            && code == [code[0], code[1]]
            && Denote(code[0]) == Some(Arith(SLL, d, s, Const(32)))
            && Denote(code[1]) == Some(Arith(SRL, d, d, Const(32)))
  {
    hide Explicit;
    ExplicitAll(ShiftPair(d, s)[0].ops);
    ExplicitAll(ShiftPair(d, s)[1].ops);
  }

  lemma {:induction false} ShiftValues(e: Env, x: Word)
    requires HasShifts(e)
    ensures var y := Wrap64(x * TWO_32);
            e.alu(SLL, x, 32) == y && e.alu(SRL, y, 32) == x % TWO_32 && e.alu(AND, x, 0xffff_ffff) == x % TWO_32
  {
    hide Pow2, BitAnd;
    Pow2Of32();
    MaskIsLow32(x);
    ShiftedBack(x);
    assert e.alu(SLL, x, 32) == Wrap64(x * TWO_32);
  }

  /** Shifting left and then logically right by 32 is the and with 0xffffFFFF. */
  lemma {:induction false} ShiftsMask(e: Env, d: Reg, s: Reg, m: Mach)
    requires HasShifts(e)
    ensures RunList(e, ShiftPair(d, s), m) ==
            Fall(m.(regs := m.regs[d := AluValue(e, AND, Get(m.regs, s), 0xffff_ffff)]))
  {
    hide Denote, ShiftPair, HasShifts, RunList;
    var x := Get(m.regs, s);
    var code := ShiftPair(d, s);
    var y := Wrap64(x * TWO_32);
    ShiftPairDenotes(d, s);
    ShiftValues(e, x);
    TwoInstructions(e, code[0], code[1], Arith(SLL, d, s, Const(32)), Arith(SRL, d, d, Const(32)), m);
    assert m.regs[d := y][d := x % TWO_32] == m.regs[d := x % TWO_32];
  }

  lemma {:induction false} ShiftedBack(x: Word)
    ensures Wrap64(x * TWO_32) / TWO_32 == x % TWO_32
  {
    var hi, lo := x / TWO_32, x % TWO_32;
    assert x * TWO_32 == hi * TWO_64 + lo * TWO_32;
    assert Wrap64(x * TWO_32) == lo * TWO_32;
  }
}
