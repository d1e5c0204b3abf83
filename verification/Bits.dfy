/** Integer arithmetic shared by the storage modules: powers of two, C's
    bitwise operators on unbounded integers, C's truncating division, and
    rounding up to an alignment. */
module Bits {

  function Pow2(n: nat): (p: nat)
    ensures p >= 1
  {
    if n == 0 then 1 else 2 * Pow2(n - 1)
  }

  /** `x & y` in two's complement; `x` may be negative, `y` is a mask. */
  function BitAnd(x: int, y: nat): (r: nat)
    ensures r <= y
    decreases y
  {
    if y == 0 then 0
    else (if x % 2 == 1 && y % 2 == 1 then 1 else 0) + 2 * BitAnd(x / 2, y / 2)
  }

  /** `x | y` on non-negative operands. */
  function BitOr(x: nat, y: nat): nat
    decreases x + y
  {
    if x == 0 && y == 0 then 0
    else (if x % 2 == 1 || y % 2 == 1 then 1 else 0) + 2 * BitOr(x / 2, y / 2)
  }

  /** C's `/`, which truncates toward zero. */
  function CDiv(a: int, b: int): int
    requires b > 0
  {
    if a >= 0 then a / b else -((-a) / b)
  }

  /** The first multiple of `a` at or above `x`. */
  function AlignUp(x: nat, a: nat): (r: nat)
    requires a > 0
    ensures x <= r < x + a && r % a == 0
  {
    AlignUpExists(x, a);
    AlignUpUnique(x, a);
    var r: nat :| x <= r < x + a && r % a == 0;
    r
  }

  lemma AlignUpExists(x: nat, a: nat)
    requires a > 0
    ensures exists r: nat :: x <= r < x + a && r % a == 0
  {
    var q := (x + a - 1) / a;
    DivModFacts(x + a - 1, a);
    DivModUnique(q * a, a, q, 0);
    var r: nat := q * a;
    assert x <= r < x + a && r % a == 0;
  }

  lemma AlignUpUnique(x: nat, a: nat)
    requires a > 0
    ensures forall r: nat, s: nat :: x <= r < x + a && r % a == 0 && x <= s < x + a && s % a == 0 ==> r == s
  {
    forall r: nat, s: nat | x <= r < x + a && r % a == 0 && x <= s < x + a && s % a == 0
      ensures r == s
    {
      DivModFacts(r, a);
      DivModFacts(s, a);
      var c := r / a - s / a;
      assert c * a == r - s;
      MulAtLeast(c, a);
      MulAtLeast(-c, a);
      assert (-c) * a == s - r;
    }
  }

  lemma DivModFacts(x: int, d: int)
    requires d > 0
    ensures x == (x / d) * d + x % d && 0 <= x % d < d
  {
  }

  lemma MulAtLeast(c: int, d: int)
    requires d > 0
    ensures c >= 1 ==> c * d >= d
  {
  }

  lemma MulMonotone(a: int, b: int, d: int)
    requires a <= b && d >= 0
    ensures a * d <= b * d
  {
  }

  lemma QuotientNat(x: nat, d: int, q: int, r: int)
    requires d > 0 && x == q * d + r && 0 <= r < d
    ensures q >= 0
  {
    if q < 0 {
      assert (-q) * d == r - x;
      MulAtLeast(-q, d);
    }
  }

  lemma DivNat(x: nat, d: int)
    requires d > 0
    ensures x / d >= 0
  {
    DivModFacts(x, d);
    QuotientNat(x, d, x / d, x % d);
  }

  lemma DivModUnique(x: int, d: int, q: int, r: int)
    requires d > 0 && 0 <= r < d && x == q * d + r
    ensures x / d == q && x % d == r
  {
    DivModFacts(x, d);
    var k := x / d;
    assert (q - k) * d == x % d - r;
    MulAtLeast(q - k, d);
    MulAtLeast(k - q, d);
    assert (k - q) * d == r - x % d;
  }

  /** A number already aligned is left alone, and nothing smaller than the
      result is both aligned and large enough. */
  lemma AlignUpLeast(x: nat, a: nat, y: nat)
    requires a > 0 && y % a == 0 && x <= y
    ensures AlignUp(x, a) <= y
  {
    var r := AlignUp(x, a);
    DivModFacts(y, a);
    DivModFacts(r, a);
    var c := r / a - y / a;
    assert c * a == r - y;
    MulAtLeast(c, a);
    assert c <= 0 ==> c * a <= 0;
  }

  /** Reduction modulo 2p, by halves. */
  lemma ModDouble(x: int, p: int)
    requires p > 0
    ensures x % (2 * p) == x % 2 + 2 * ((x / 2) % p)
  {
    var h := x / 2;
    DivModFacts(h, p);
    var q, r := h / p, h % p;
    assert x == 2 * h + x % 2;
    assert 2 * (q * p) == q * (2 * p);
    DivModUnique(x, 2 * p, q, 2 * r + x % 2);
  }

  lemma AndStep(x: int, p: nat, m: nat)
    requires p >= 1 && m == 2 * p && BitAnd(x / 2, p - 1) == (x / 2) % p
    ensures BitAnd(x, m - 1) == x % m
  {
    assert (m - 1) % 2 == 1 && (m - 1) / 2 == p - 1;
    ModDouble(x, p);
  }

  /** Masking with 2^n - 1 is reduction modulo 2^n, for negative numbers too. */
  lemma {:induction false} AndMask(x: int, n: nat)
    ensures BitAnd(x, Pow2(n) - 1) == x % Pow2(n)
    decreases n
  {
    if n > 0 {
      AndMask(x / 2, n - 1);
      AndStep(x, Pow2(n - 1), Pow2(n));
    }
  }

  lemma OrStep(p: nat)
    requires p >= 1
    ensures BitOr(2 * p, 2 * p - 1) == 1 + 2 * BitOr(p, p - 1)
  {
    assert (2 * p - 1) % 2 == 1;
    assert (2 * p) / 2 == p && (2 * p - 1) / 2 == p - 1;
  }

  /** Setting every bit below a power of two. */
  lemma {:induction false} OrMask(n: nat)
    ensures BitOr(Pow2(n), Pow2(n) - 1) == 2 * Pow2(n) - 1
  {
    if n == 0 {
      assert BitOr(1, 0) == 1 + 2 * BitOr(0, 0);
    } else {
      OrMask(n - 1);
      OrStep(Pow2(n - 1));
    }
  }

  /** Reducing modulo 2q and then modulo q is reducing modulo q. */
  lemma ModMod(x: int, q: int)
    requires q > 0
    ensures (x % (2 * q)) % q == x % q
  {
    DivModFacts(x, 2 * q);
    var r := x % (2 * q);
    DivModFacts(r, q);
    var a := x / (2 * q);
    assert x == (2 * a + r / q) * q + r % q;
    DivModUnique(x, q, 2 * a + r / q, r % q);
  }

  lemma {:induction false} Pow2Monotone(m: nat, n: nat)
    requires m <= n
    ensures Pow2(m) <= Pow2(n)
    decreases n - m
  {
    if m < n {
      Pow2Monotone(m, n - 1);
    }
  }
}
