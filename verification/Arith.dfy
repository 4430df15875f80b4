/** Multiplication, quotient and remainder. */
module Arith {
  lemma MulNonNeg(x: nat, y: nat)
    ensures x * y >= 0
  {
  }

  lemma MulMono(x: int, y: int, m: nat)
    requires x <= y
    ensures x * m <= y * m
  {
  }

  lemma QuotientNonNeg(n: nat, m: nat)
    requires m >= 1
    ensures n / m >= 0
  {
    assert n == (n / m) * m + n % m;
    if n / m <= -1 {
      MulMono(n / m, -1, m);
    }
  }

  /** Quotient and remainder are determined by x == q * m + r. */
  lemma DivModUnique(x: int, q: int, r: int, m: nat)
    requires m >= 1 && 0 <= r < m && x == q * m + r
    ensures x / m == q && x % m == r
  {
    var d := x / m - q;
    assert d * m == r - x % m by { assert x == (x / m) * m + x % m; assert (x / m - q) * m == (x / m) * m - q * m; }
    if d >= 1 { MulMono(1, d, m); } else if d <= -1 { MulMono(d, -1, m); }
  }

  /** Adding a multiple of `m` does not change the remainder. */
  lemma ModAddMul(x: int, k: int, m: nat)
    requires m >= 1
    ensures (x + k * m) % m == x % m
  {
    assert x == (x / m) * m + x % m;
    assert x + k * m == (x / m + k) * m + x % m by { assert (x / m + k) * m == (x / m) * m + k * m; }
    DivModUnique(x + k * m, x / m + k, x % m, m);
  }

  lemma ModZeroIsMultiple(x: int, m: nat)
    requires m >= 1 && x % m == 0
    ensures x == (x / m) * m
  {
  }

  /** A divisor of the divisor divides too. */
  lemma ModThroughDivisor(x: int, m: nat, d: nat)
    requires d >= 1 && m >= 1 && m % d == 0
    ensures x % m % d == x % d
  {
    var q := x / m;
    assert m == (m / d) * d;
    calc {
      x;
      x % m + q * m;
      x % m + q * ((m / d) * d);
      x % m + (q * (m / d)) * d;
    }
    ModAddMul(x % m, q * (m / d), d);
  }

  lemma MultiplesAligned(x: nat, k: nat, m: nat, d: nat)
    requires d >= 1 && x % d == 0 && m % d == 0
    ensures (x + k * m) % d == 0
  {
    ModZeroIsMultiple(m, d);
    assert k * m == (k * (m / d)) * d by { assert k * ((m / d) * d) == (k * (m / d)) * d; }
    ModAddMul(x, k * (m / d), d);
  }

  /** One step on in a cycle of `m`. */
  lemma NextMod(x: nat, m: nat)
    requires m >= 1
    ensures (x + 1) % m == if x % m == m - 1 then 0 else x % m + 1
  {
    var q := x / m;
    assert x == q * m + x % m;
    if x % m == m - 1 {
      assert (q + 1) * m == q * m + m;
      DivModUnique(x + 1, q + 1, 0, m);
    } else {
      DivModUnique(x + 1, q, x % m + 1, m);
    }
  }

  function Pow2(k: nat): (p: nat)
    ensures p >= 1
  {
    if k == 0 then 1 else 2 * Pow2(k - 1)
  }
}
