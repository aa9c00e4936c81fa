/** The few facts about products, quotients and remainders that the proofs need by name. */
module Arithmetic {
  lemma MulMonotone(a: nat, b: nat, c: nat, d: nat)
    requires a <= c && b <= d
    ensures a * b <= c * d
  {
    assert a * b <= c * b <= c * d;
  }

  lemma DivBounds(n: nat, d: nat)
    requires d > 0
    ensures (n / d) * d <= n < (n / d + 1) * d
  {
    assert n == d * (n / d) + n % d;
  }

  lemma CancelLess(a: nat, b: nat, d: nat)
    requires a * d < b * d
    ensures a < b
  {
    if a >= b { MulMonotone(b, d, a, d); }
  }

  lemma CancelLessOrEqual(a: nat, b: nat, d: nat)
    requires d > 0 && a * d <= b * d
    ensures a <= b
  {
    assert (b + 1) * d == b * d + d;
    if a > b { MulMonotone(b + 1, d, a, d); }
  }

  lemma QuotientIs(n: nat, d: nat, q: nat)
    requires d > 0 && q * d <= n < (q + 1) * d
    ensures n / d == q
  {
    DivBounds(n, d);
    CancelLess(q, n / d + 1, d);
    CancelLess(n / d, q + 1, d);
  }

  lemma SmallMod(value: int, p: int)
    requires 0 <= value < p
    ensures value % p == value
  {
  }

  lemma NegativeMod(value: int, p: int)
    requires p > 0 && -p <= value < 0
    ensures value % p == value + p
  {
    var q, r := value / p, value % p;
    assert value == p * q + r;
    if q >= 0 { Nonnegative(p, q); }
    assert p * q == p * -2 - p * (-2 - q);
    if q <= -2 { Nonnegative(p, -2 - q); }
  }

  lemma Nonnegative(a: int, b: int)
    requires a >= 0 && b >= 0
    ensures a * b >= 0
  {
  }

  lemma SplitMod(n: nat, p: nat)
    requires p > 0
    ensures 256 * (n / 256 % p) + n % 256 == n % (256 * p)
  {
    var m := n / 256;
    var q, r := m / p, m % p;
    assert m == p * q + r;
    assert n == 256 * (p * q + r) + n % 256;
    assert 256 * (p * q + r) == (256 * p) * q + 256 * r;
    RemainderIs(n, 256 * p, q, 256 * r + n % 256);
  }

  lemma RemainderIs(n: int, d: int, q: int, r: int)
    requires d > 0 && n == d * q + r && 0 <= r < d
    ensures n % d == r
  {
    var q', r' := n / d, n % d;
    assert n == d * q' + r';
    assert d * (q - q') == d * q - d * q' && d * (q' - q) == d * q' - d * q;
    assert d * (q - q') == d * (q - q' - 1) + d && d * (q' - q) == d * (q' - q - 1) + d;
    if q > q' {
      Nonnegative(d, q - q' - 1);
    } else if q < q' {
      Nonnegative(d, q' - q - 1);
    }
  }
}
