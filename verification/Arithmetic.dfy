/**
 Products, quotients and remainders of integers.
 */
module Arithmetic {
  lemma Distribute(a: int, b: int, p: int)
    ensures (a + b) * p == a * p + b * p
    ensures (a - b) * p == a * p - b * p
  {
  }

  lemma Associate(a: int, b: int, c: int)
    ensures a * b * c == a * (b * c)
  {
  }

  lemma {:induction false} ProductMonotone(a: nat, b: nat, p: nat)
    requires a <= b
    ensures a * p <= b * p
  {
    if a < b {
      ProductMonotone(a, b - 1, p);
      Distribute(b, 1, p);
    }
  }

  lemma QuotientRemainder(t: int, m: nat)
    requires m > 0
    ensures t == t / m * m + t % m && 0 <= t % m < m
  {
  }

  lemma MultipleAway(d: int, m: nat)
    ensures d >= 1 ==> d * m >= m
    ensures d <= -1 ==> d * m <= 0 - m
  {
    if d >= 1 {
      ProductMonotone(1, d, m);
    } else if d <= -1 {
      ProductMonotone(1, -d, m);
    }
  }

  /** x >> k is a division. */
  function Quotient(x: nat, m: nat): (q: nat)
    requires m > 0
    ensures q == x / m
  {
    x / m
  }

  /** The quotient and remainder are the only numbers that look like them. */
  lemma DivModUnique(t: int, m: nat, q: int, v: nat)
    requires m > 0 && v < m && t == q * m + v
    ensures t / m == q && t % m == v
  {
    QuotientRemainder(t, m);
    Distribute(q, t / m, m);
    MultipleAway(q - t / m, m);
  }

  lemma QuotientBelow(x: nat, r: nat, p: nat)
    requires r > 0 && x < p * r
    ensures x / r < p
  {
    QuotientRemainder(x, r);
    if x / r >= p {
      ProductMonotone(p, x / r, r);
    }
  }

  lemma QuotientAtMost(x: nat, m: nat)
    requires m > 0
    ensures x / m <= x && x / m * m <= x
  {
    QuotientRemainder(x, m);
    ProductMonotone(1, m, x / m);
    assert m * (x / m) == x / m * m;
  }

  lemma ModAdd(t: int, k: int, m: nat)
    requires m > 0
    ensures (t + k * m) % m == t % m
  {
    QuotientRemainder(t, m);
    Distribute(t / m, k, m);
    DivModUnique(t + k * m, m, t / m + k, t % m);
  }

  lemma Twice(q: nat, p: nat)
    ensures q * (2 * p) == 2 * (q * p)
  {
  }

  lemma Above(a: nat, b: nat, p: nat)
    requires a < b
    ensures a * p + p <= b * p
  {
    ProductMonotone(a + 1, b, p);
    Distribute(a, 1, p);
  }
}
