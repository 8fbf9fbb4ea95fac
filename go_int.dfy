/** Go's fixed-width integers as the model needs them: int64 with two's-complement
    wrap-around (Go defines signed overflow to wrap) and the truncating conversion
    to uint32. */
module GoInt {
  const TwoTo32: int := 0x1_0000_0000
  const TwoTo63: int := 0x8000_0000_0000_0000
  const TwoTo64: int := 0x1_0000_0000_0000_0000

  type Int64 = x: int | -0x8000_0000_0000_0000 <= x < 0x8000_0000_0000_0000
  type Uint32 = x: int | 0 <= x < 0x1_0000_0000

  predicate InInt64(x: int) {
    -TwoTo63 <= x < TwoTo63
  }

  /** The result of an int64 operation whose mathematical value is x: the one int64
      congruent to x modulo 2^64. */
  function WrapInt64(x: int): (r: Int64)
    ensures InInt64(r)
    ensures (x - r) % TwoTo64 == 0
  {
    (x + TwoTo63) % TwoTo64 - TwoTo63
  }

  /** uint32(x): keeps the low 32 bits of x. */
  function ToUint32(x: int): (r: Uint32)
    ensures (x - r) % TwoTo32 == 0
  {
    x % TwoTo32
  }

  /** Only one int64 is congruent to x, so WrapInt64 is determined by congruence. */
  lemma WrapInt64Unique(x: int, y: int)
    requires InInt64(y)
    requires (x - y) % TwoTo64 == 0
    ensures WrapInt64(x) == y
  {
    var r := WrapInt64(x);
    var k := (x - y) / TwoTo64;
    var j := (x - r) / TwoTo64;
    assert x - y == k * TwoTo64;
    assert x - r == j * TwoTo64;
    assert r - y == (k - j) * TwoTo64;
  }

  /** A value already in range is unchanged by wrapping. */
  lemma WrapInt64InRange(x: int)
    requires InInt64(x)
    ensures WrapInt64(x) == x
  {
    WrapInt64Unique(x, x);
  }

  /** Wrapping an operand before a subtraction and wrapping afterwards give the same
      int64, which is why Go's wrapped arithmetic still computes exact answers modulo 2^64. */
  lemma WrapInt64Sub(a: int, b: int)
    ensures WrapInt64(a - WrapInt64(b)) == WrapInt64(a - b)
  {
    var wb := WrapInt64(b);
    var y := WrapInt64(a - b);
    var k := (b - wb) / TwoTo64;
    var j := (a - b - y) / TwoTo64;
    assert b - wb == k * TwoTo64;
    assert a - b - y == j * TwoTo64;
    assert (a - wb) - y == (j + k) * TwoTo64;
    WrapInt64Unique(a - wb, y);
  }

  /** 2^k. */
  function Pow2(k: nat): (p: nat)
    ensures p >= 1
  {
    if k == 0 then 1 else 2 * Pow2(k - 1)
  }

  /** Bit k of a non-negative integer. */
  predicate Bit(x: nat, k: nat) {
    (x / Pow2(k)) % 2 == 1
  }

  /** Go's & on non-negative integers, bit by bit from the least significant. */
  function And(a: nat, b: nat): nat
    decreases a
  {
    if a == 0 || b == 0 then 0 else 2 * And(a / 2, b / 2) + (a % 2) * (b % 2)
  }

  /** Masking with a single bit keeps that bit of x and nothing else. */
  lemma {:induction false} AndPow2(x: nat, k: nat)
    ensures And(x, Pow2(k)) == if Bit(x, k) then Pow2(k) else 0
  {
    if k == 0 {
      assert Pow2(0) == 1;
      if x != 0 {
        assert And(x / 2, 0) == 0;
      }
    } else if x == 0 {
    } else {
      var p := Pow2(k - 1);
      assert Pow2(k) == 2 * p;
      assert Pow2(k) / 2 == p && Pow2(k) % 2 == 0;
      AndPow2(x / 2, k - 1);
      DivDiv(x, p);
    }
  }

  /** Euclidean division is determined by quotient and remainder. */
  lemma DivUnique(x: int, d: int, q: int, r: int)
    requires d > 0 && x == q * d + r && 0 <= r < d
    ensures x / d == q
  {
    var q', r' := x / d, x % d;
    assert x == q' * d + r';
    assert (q - q') * d == r' - r;
    MulBound(q - q', d);
  }

  /** A non-zero multiple of d is at least d away from 0. */
  lemma MulBound(k: int, d: int)
    requires d > 0
    ensures k >= 1 ==> k * d >= d
    ensures k <= -1 ==> k * d <= -d
  {
  }

  /** Dividing by 2 and then by p is dividing by 2p. */
  lemma DivDiv(x: nat, p: nat)
    requires p >= 1
    ensures (x / 2) / p == x / (2 * p)
  {
    var q := (x / 2) / p;
    var r := (x / 2) % p;
    assert x / 2 == q * p + r;
    assert x == q * (2 * p) + (2 * r + x % 2);
    DivUnique(x, 2 * p, q, 2 * r + x % 2);
  }
}
