/** The few facts about multiplication that index arithmetic needs. */
module Arithmetic {

  lemma AtLeastOnce(x: int, d: int)
    requires d > 0
    ensures x > 0 ==> x * d >= d
    ensures x < 0 ==> x * d <= -d
  {
  }

  /** Quotient and remainder of a number given as `r + q * d`. */
  lemma DivMod(r: nat, q: nat, d: nat)
    requires r < d
    ensures 0 <= q * d && (r + q * d) / d == q && (r + q * d) % d == r
  {
    var n := r + q * d;
    var k := n / d;
    assert n == k * d + n % d;
    AtLeastOnce(q - k, d);
  }

  /** A number in a mixed base has its digits in range just once. */
  lemma DigitsUnique(r: int, q: int, r': int, q': int, d: nat)
    requires 0 <= r < d && 0 <= r' < d && r + q * d == r' + q' * d
    ensures r == r' && q == q'
  {
    assert (q - q') * d == r' - r;
    AtLeastOnce(q - q', d);
  }

  lemma DigitsInRange(r: int, q: int, d: nat, n: nat)
    requires 0 <= r < d && 0 <= q < n
    ensures 0 <= r + q * d < d * n
  {
    assert q * d <= (n - 1) * d;
  }

  lemma ProductGrows(a: nat, b: nat, d: nat)
    requires a <= b
    ensures 0 <= a * d <= b * d
    ensures a * d + (b - a) * d == b * d
  {
  }

  lemma Quotient(m: nat, d: nat, n: nat)
    requires d > 0 && m < d * n
    ensures m / d < n && m == m % d + m / d * d && m % d < d
  {
    assert m == m / d * d + m % d;
    if m / d >= n { ProductGrows(n, m / d, d); }
  }

  /** Quotient and remainder. */
  function Split(m: nat, d: nat): (r: (nat, nat))
    requires d > 0
    ensures r.1 < d && m == r.1 + r.0 * d
  {
    (m / d, m % d)
  }

  lemma SplitBelow(m: nat, d: nat, n: nat)
    requires d > 0 && m < d * n
    ensures Split(m, d).0 < n
  {
    Quotient(m, d, n);
  }

  lemma SplitOf(r: nat, q: nat, d: nat)
    requires r < d
    ensures 0 <= q * d && Split(r + q * d, d) == (q, r)
  {
    DivMod(r, q, d);
  }

  /** Numbers in a mixed base are ordered by their leading digit, and then by the other one. */
  lemma LexicographicOrder(r: int, q: int, r': int, q': int, d: nat)
    requires 0 <= r < d && 0 <= r' < d && 0 <= q && 0 <= q'
    ensures r + q * d < r' + q' * d <==> q < q' || (q == q' && r < r')
  {
    if q < q' {
      ProductGrows(q + 1, q', d);
    } else if q' < q {
      ProductGrows(q' + 1, q, d);
    }
  }
}
