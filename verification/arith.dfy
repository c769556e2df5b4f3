/** The lesser and the greater of two numbers, and the few facts about multiplication and division that the
    solver does not find by itself. */
module Arith {

  function Min(a: int, b: int): int {
    if b < a then b else a
  }

  function Max(a: int, b: int): int {
    if a < b then b else a
  }

  lemma MulMono(a: int, b: int, c: int)
    requires a <= b && 0 <= c
    ensures a * c <= b * c
  {
  }

  lemma MulStrict(a: int, b: int, c: int)
    requires a < b && 0 < c
    ensures a * c < b * c
  {
  }

  /** n / d is the one q with d*q <= n < d*q + d. */
  lemma DivIs(n: int, d: int, q: int)
    requires 0 < d && d * q <= n < d * q + d
    ensures n / d == q
  {
    var p := n / d;
    assert d * p <= n < d * p + d;
    if p < q {
      MulMono(p + 1, q, d);
    } else if q < p {
      MulMono(q + 1, p, d);
    }
  }

  lemma DivBounds(n: int, d: int)
    requires 0 < d
    ensures d * (n / d) <= n < d * (n / d) + d
  {
  }

  lemma DivMono(m: int, n: int, d: int)
    requires 0 < d && m <= n
    ensures m / d <= n / d
  {
    DivBounds(m, d);
    DivBounds(n, d);
    if m / d > n / d {
      MulMono(n / d + 1, m / d, d);
    }
  }

  lemma DivBelow(n: int, d: int, q: int)
    requires 0 < d && n < d * q
    ensures n / d < q
  {
    DivBounds(n, d);
    if q <= n / d {
      MulMono(q, n / d, d);
    }
  }

  lemma DivExact(i: int, d: int)
    requires 0 < d
    ensures (i * d) / d == i
  {
    DivIs(i * d, d, i);
  }
}
