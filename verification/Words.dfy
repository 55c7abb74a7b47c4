/** Machine words, bytes and the signed readings of truncated integers.  A C++ integer of n bits is an
    `int` kept in range by an explicit wrap. */
module Words {
  datatype Option<+T> = None | Some(value: T)

  const TWO_16: int := 0x1_0000
  const TWO_32: int := 0x1_0000_0000
  const TWO_64: int := 0x1_0000_0000_0000_0000

  type Byte = x: int | 0 <= x < 0x100
  type Word = x: int | 0 <= x < 0x1_0000_0000_0000_0000

  /** Truncation to `uint64_t`. */
  function Wrap64(x: int): Word {
    x % 0x1_0000_0000_0000_0000
  }

  /** The low 16 bits read as `int16_t`. */
  function Low16Signed(x: int): int {
    var u := x % 0x1_0000;
    if u < 0x8000 then u else u - 0x1_0000
  }

  /** The low 32 bits read as `int32_t`. */
  function Low32Signed(x: int): int {
    var u := x % 0x1_0000_0000;
    if u < 0x8000_0000 then u else u - 0x1_0000_0000
  }

  /** The low 64 bits read as `int64_t`. */
  function Low64Signed(x: int): int {
    var u := x % 0x1_0000_0000_0000_0000;
    if u < 0x8000_0000_0000_0000 then u else u - 0x1_0000_0000_0000_0000
  }

  predicate FitsInt16(x: int) {
    -0x8000 <= x < 0x8000
  }

  predicate FitsInt32(x: int) {
    -0x8000_0000 <= x < 0x8000_0000
  }

  predicate FitsInt64(x: int) {
    -0x8000_0000_0000_0000 <= x < 0x8000_0000_0000_0000
  }

  /** 256 to the power n. */
  function Pow256(n: nat): (p: nat)
    ensures p > 0
  {
    if n == 0 then 1 else 0x100 * Pow256(n - 1)
  }

  /** The n low bytes of v, least significant first. */
  function LittleEndian(v: nat, n: nat): (s: seq<Byte>)
    ensures |s| == n
  {
    if n == 0 then [] else [v % 0x100] + LittleEndian(v / 0x100, n - 1)
  }

  /** The number a little-endian byte string stands for. */
  function FromLittleEndian(s: seq<Byte>): nat {
    if s == [] then 0 else s[0] + 0x100 * FromLittleEndian(s[1..])
  }

  function Reverse<T>(s: seq<T>): (r: seq<T>)
    ensures |r| == |s|
  {
    if s == [] then [] else Reverse(s[1..]) + [s[0]]
  }

  /** Sums of wrapped words may wrap late. */
  lemma WrapAdd(a: int, b: int)
    ensures Wrap64(Wrap64(a) + b) == Wrap64(a + b)
    ensures Wrap64(a + Wrap64(b)) == Wrap64(a + b)
  {
  }

  lemma {:induction false} SignedWraps(v: int)
    ensures Wrap64(Low64Signed(v)) == Wrap64(v)
  {
    var u := v % TWO_64;
    assert Wrap64(u) == u && Wrap64(u - TWO_64) == u;
  }
}
