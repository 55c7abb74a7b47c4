/** Bitwise operations on non-negative integers, digit by digit. */
module Bits {
  function BitAnd(a: nat, b: nat): nat {
    if a == 0 || b == 0 then 0
    else 2 * BitAnd(a / 2, b / 2) + (if a % 2 == 1 && b % 2 == 1 then 1 else 0)
  }

  function BitOr(a: nat, b: nat): nat {
    if a == 0 then b
    else if b == 0 then a
    else 2 * BitOr(a / 2, b / 2) + (if a % 2 == 1 || b % 2 == 1 then 1 else 0)
  }

  function Pow2(n: nat): (p: nat)
    ensures p > 0
  {
    if n == 0 then 1 else 2 * Pow2(n - 1)
  }

  /** Numbers without a common bit are added by or. */
  lemma {:induction false} DisjointOrIsSum(a: nat, b: nat)
    requires BitAnd(a, b) == 0
    ensures BitOr(a, b) == a + b
  {
    if a != 0 && b != 0 {
      DisjointOrIsSum(a / 2, b / 2);
    }
  }

  /** And with n ones keeps the n low bits. */
  lemma {:induction false} AndLowBits(a: nat, n: nat)
    ensures BitAnd(a, Pow2(n) - 1) == a % Pow2(n)
  {
    if a != 0 && n > 0 {
      var p := Pow2(n - 1);
      AndLowBits(a / 2, n - 1);
      assert (2 * p - 1) / 2 == p - 1 && (2 * p - 1) % 2 == 1;
      HalfMod(a, p);
    }
  }

  lemma {:induction false} HalfMod(a: nat, p: nat)
    requires p > 0
    ensures a % (2 * p) == 2 * ((a / 2) % p) + a % 2
  {
    var q, r := (a / 2) / p, (a / 2) % p;
    var low := 2 * r + a % 2;
    assert a / 2 == p * q + r;
    assert a == (2 * p) * q + low by {
      assert 2 * (p * q) == (2 * p) * q;
    }
    DivModUnique(a, 2 * p, q, low);
  }

  lemma {:induction false} NextMultiple(d: nat, p: int, q: int)
    requires p < q
    ensures d * q >= d * p + d
  {
    assert d * q == d * (q - p - 1) + d * (p + 1);
    assert d * (q - p - 1) >= 0;
  }

  /** Quotient and remainder are unique. */
  lemma {:induction false} DivModUnique(a: int, d: int, q: int, r: int)
    requires 0 <= r < d && a == d * q + r
    ensures a / d == q && a % d == r
  {
    var q', r' := a / d, a % d;
    assert a == d * q' + r' && 0 <= r' < d;
    if q < q' {
      NextMultiple(d, q, q');
    } else if q > q' {
      NextMultiple(d, q', q);
    }
  }
}
