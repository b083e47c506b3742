/** The few facts about multiplication and division that the solver does not find by itself. */
module Arith {

  function Min(a: int, b: int): int { if a < b then a else b }

  function Max(a: int, b: int): int { if a < b then b else a }

  lemma MulAtLeast(n: int, d: int)
    requires n > 0 && d >= 1
    ensures n * d >= n
  {}

  lemma MulMinus(n: int, a: int, b: int)
    ensures n * (a - b) == n * a - n * b
  {}

  /** Quotient and remainder are unique. */
  lemma {:induction false} QuotientUnique(q: int, r: int, q': int, r': int, n: int)
    requires 0 <= r < n && 0 <= r' < n
    requires n * q + r == n * q' + r'
    ensures q == q' && r == r'
  {
    if q > q' {
      MulMinus(n, q, q');
      MulAtLeast(n, q - q');
    } else if q < q' {
      MulMinus(n, q', q);
      MulAtLeast(n, q' - q);
    }
  }

  lemma {:induction false} RemainderIs(a: int, n: int, q: int, r: int)
    requires 0 <= r < n && a == n * q + r
    ensures a % n == r && a / n == q
  {
    assert a == n * (a / n) + a % n;
    QuotientUnique(a / n, a % n, q, r, n);
  }
}
