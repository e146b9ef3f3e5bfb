/** Facts about quotients and remainders by a divisor that is not a constant. */
module Division {

  lemma Grow(d: int, m: int)
    requires d >= 1 && m > 0
    ensures d * m >= m
  {
  }

  lemma SameQuotient(q: int, q': int, r: int, r': int, m: int)
    requires 0 <= r < m && 0 <= r' < m && q * m + r == q' * m + r'
    ensures q == q' && r == r'
  {
    if q < q' {
      Grow(q' - q, m);
    } else if q' < q {
      Grow(q - q', m);
    }
  }

  /** Any way of writing `x` as a multiple of `m` plus a remainder gives the quotient and the remainder. */
  lemma Unique(x: int, q: int, r: int, m: int)
    requires 0 <= r < m && x == q * m + r
    ensures x / m == q && x % m == r
  {
    assert x == (x / m) * m + x % m;
    SameQuotient(q, x / m, r, x % m, m);
  }
}
