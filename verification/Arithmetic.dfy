/** Products and quotients of natural numbers. */
module Arithmetic {

  lemma ProductGrows(a: nat, b: nat, d: nat)
    requires a <= b
    ensures a * d <= b * d
  {
  }

  lemma Distributes(m: nat, n: nat, d: nat)
    ensures (m + n) * d == m * d + n * d
  {
  }

  /** There is one quotient and one remainder only. */
  lemma DivisionIsUnique(m: nat, x: nat, n: nat, y: nat, d: nat)
    requires m * d + x == n * d + y && x < d && y < d
    ensures m == n && x == y
  {
    assert (m - n) * d == y - x;
    assert m - n >= 1 ==> (m - n) * d >= d;
    assert n - m >= 1 ==> (n - m) * d >= d;
    assert (n - m) * d == x - y;
  }

  lemma DivisionIs(a: nat, d: nat, q: nat, r: nat)
    requires a == q * d + r && r < d
    ensures a / d == q && a % d == r
  {
    var p, s := a / d, a % d;
    assert a == d * p + s;
    assert d * p == p * d;
    DivisionIsUnique(p, s, q, r, d);
  }

  lemma QuotientGrows(a: nat, b: nat, d: nat)
    requires a <= b && d > 0
    ensures a / d <= b / d
  {
    var p, q := a / d, b / d;
    assert a == d * p + a % d && b == d * q + b % d;
    assert p > q ==> d * p >= d * (q + 1);
    assert d * (q + 1) == d * q + d;
  }
}
