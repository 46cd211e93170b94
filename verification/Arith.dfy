/** Facts about products and floored division that the solver does not find in larger proofs. */
module Arith {
  lemma Associate(a: int, b: int, c: int)
    ensures a * (b * c) == (a * b) * c
  {
  }

  lemma DivModUnique(q: int, r: int, d: int)
    requires 0 <= r < d
    ensures (d * q + r) / d == q && (d * q + r) % d == r
  {
    var n := d * q + r;
    var e := n / d - q;
    assert d * e == r - n % d by { assert n == d * (n / d) + n % d; }
    assert e >= 1 ==> d * e >= d;
    assert e <= -1 ==> d * e <= -d;
  }

  lemma IsRemainder(x: int, p: int, low: int)
    requires p > 0 && low + x / p * p == x
    ensures low == x % p
  {
    assert x == p * (x / p) + x % p;
  }

  lemma HalveThenDivide(x: int, p: int)
    requires p > 0
    ensures x / 2 / p == x / (2 * p)
  {
    var q, r := x / 2 / p, x / 2 % p;
    assert x / 2 == p * q + r;
    Associate(2, p, q);
    DivModUnique(q, 2 * r + x % 2, 2 * p);
  }
}
