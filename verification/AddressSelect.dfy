/** SelectAddr: an address expression becomes a base and a constant offset. */
module AddressSelect {
  import opened Words
  import opened Bits
  import opened Isa

  /** The address expressions SelectAddr tells apart.  InVReg stands for every other node: a value that its own
      selection leaves in a register. */
  datatype Node =
    | FrameIndexNode(fi: int)
    | Constant(v: int)
    | TargetExternalSymbol(sym: nat)
    | TargetGlobalAddress(sym: nat)
    | Add(a: Node, b: Node)
    | Or(a: Node, b: Node)
    | InVReg(r: Reg)

  datatype AddrBase = TargetFrameIndex(fi: int) | Computed(n: Node)

  datatype Selected = NoMatch | Match(base: AddrBase, offset: int)

  /** The value of an expression, modulo 2^64. */
  function Eval(e: Env, m: Mach, n: Node): Word {
    match n
    case FrameIndexNode(fi) => BaseValue(e, m, FrameBase(fi))
    case Constant(v) => Wrap64(v)
    case TargetExternalSymbol(s) => e.symbol(s)
    case TargetGlobalAddress(s) => e.symbol(s)
    case Add(a, b) => Wrap64(Eval(e, m, a) + Eval(e, m, b))
    case Or(a, b) => Wrap64(BitOr(Eval(e, m, a), Eval(e, m, b)))
    case InVReg(r) => Get(m.regs, r)
  }

  function BaseAddress(e: Env, m: Mach, b: AddrBase): Word {
    match b
    case TargetFrameIndex(fi) => BaseValue(e, m, FrameBase(fi))
    case Computed(n) => Eval(e, m, n)
  }

  /** LLVM's known-bits analysis, MaskedValueIsZero: what it says, and that it is right. */
  type ZeroBits = (Node, int) -> bool

  ghost predicate Sound(e: Env, zero: ZeroBits) {
    forall n, c, m :: zero(n, c) ==> BitAnd(Eval(e, m, n), Wrap64(c)) == 0
  }

  /** LLVM's isBaseWithConstantOffset. */
  predicate IsBaseWithConstantOffset(n: Node, zero: ZeroBits) {
    (n.Add? || n.Or?) && n.b.Constant? && (n.Or? ==> zero(n.a, n.b.v))
  }

  function FrameOrComputed(n: Node): AddrBase {
    if n.FrameIndexNode? then TargetFrameIndex(n.fi) else Computed(n)
  }

  function SelectAddr(addr: Node, zero: ZeroBits): Selected {
    if addr.FrameIndexNode? then Match(TargetFrameIndex(addr.fi), 0)
    else if addr.TargetExternalSymbol? || addr.TargetGlobalAddress? then NoMatch
    else if IsBaseWithConstantOffset(addr, zero) && FitsInt32(Low64Signed(addr.b.v)) then
      Match(FrameOrComputed(addr.a), Low64Signed(addr.b.v))
    else if addr.Add? && addr.b.Constant? && FitsInt32(Low64Signed(addr.b.v)) then
      Match(FrameOrComputed(addr.a), Low64Signed(addr.b.v))
    else Match(Computed(addr), 0)
  }

  /** Base plus constant is the expression: by wrapping addition, or by an or of disjoint bits. */
  lemma {:induction false} FoldedOperand(e: Env, m: Mach, n: Node, zero: ZeroBits)
    requires Sound(e, zero)
    requires IsBaseWithConstantOffset(n, zero)
    ensures Wrap64(Eval(e, m, n.a) + Low64Signed(n.b.v)) == Eval(e, m, n)
  {
    hide BitAnd, BitOr;
    SignedWraps(n.b.v);
    WrapAdd(Eval(e, m, n.a), Low64Signed(n.b.v));
    if n.Or? {
      assert zero(n.a, n.b.v);
      DisjointOrIsSum(Eval(e, m, n.a), Wrap64(n.b.v));
    }
  }

  /** The selected base and offset give the address, modulo 2^64; the offset fits 32 bits; only bare symbols
      are refused. */
  lemma {:induction false} SelectionKeepsAddress(e: Env, m: Mach, addr: Node, zero: ZeroBits)
    requires Sound(e, zero)
    ensures var s := SelectAddr(addr, zero);
            && (s.NoMatch? <==> addr.TargetExternalSymbol? || addr.TargetGlobalAddress?)
            && (s.Match? ==> Wrap64(BaseAddress(e, m, s.base) + s.offset) == Eval(e, m, addr) && FitsInt32(s.offset))
  {
    hide BitAnd, BitOr, Sound, Low64Signed;
    var s := SelectAddr(addr, zero);
    if addr.FrameIndexNode? || s.NoMatch? {
    } else if IsBaseWithConstantOffset(addr, zero) && FitsInt32(Low64Signed(addr.b.v)) {
      FoldedOperand(e, m, addr, zero);
      assert BaseAddress(e, m, s.base) == Eval(e, m, addr.a);
    } else {
      assert addr.Add? && addr.b.Constant? ==> IsBaseWithConstantOffset(addr, zero);
      assert s == Match(Computed(addr), 0);
    }
  }

  /** A base with a constant that can go into the access: added, or or-ed where the bits are known to be zero. */
  predicate Foldable(addr: Node, zero: ZeroBits) {
    && (addr.Add? || addr.Or?) && addr.b.Constant? && FitsInt32(Low64Signed(addr.b.v))
    && (addr.Or? ==> zero(addr.a, addr.b.v))
  }

  /** What can be folded is folded: an expression stays whole only if it is neither a frame index nor a base with
      such a constant; otherwise its base is the frame object, or the part without the constant. */
  lemma {:induction false} FoldableIsFolded(addr: Node, zero: ZeroBits)
    ensures var s := SelectAddr(addr, zero);
            && (s.Match? && s.base == Computed(addr) ==> !addr.FrameIndexNode? && !Foldable(addr, zero))
            && (addr.FrameIndexNode? ==> s == Match(TargetFrameIndex(addr.fi), 0))
            && (Foldable(addr, zero) && addr.a.FrameIndexNode? ==>
                  s == Match(TargetFrameIndex(addr.a.fi), Low64Signed(addr.b.v)))
            && (Foldable(addr, zero) && !addr.a.FrameIndexNode? ==> s == Match(Computed(addr.a), Low64Signed(addr.b.v)))
            && (s.Match? && !addr.FrameIndexNode? && !Foldable(addr, zero) ==> s == Match(Computed(addr), 0))
  {
    if addr.Add? || addr.Or? {
      assert addr.a < addr;
    }
  }
}
