/**
 Integer arithmetic as C does it, and the few facts about products and quotients that the
 geometry modules use.
 */
module Arithmetic {

  function Abs(a: int): nat { if a < 0 then -a else a }

  /** C's division: truncation towards zero. */
  function TruncDiv(a: int, b: int): int
    requires b != 0
  {
    if (a < 0) == (b < 0) then Abs(a) / Abs(b) else -(Abs(a) / Abs(b))
  }

  lemma MulMono(d: int, a: int, b: int)
    requires d >= 0
    ensures a <= b ==> a * d <= b * d
  {
  }

  lemma DivFacts(n: nat, d: int)
    requires d > 0
    ensures n / d >= 0 && n % d == n - (n / d) * d && 0 <= n - (n / d) * d < d
  {
    assert n == d * (n / d) + n % d;
    assert (n / d) * d == d * (n / d);
  }

  /** Quotient and remainder are the only numbers that are what they are. */
  lemma DivIs(t: int, d: int, m: int, r: int)
    requires d > 0 && t == m * d + r && 0 <= r < d
    ensures t / d == m && t % d == r
  {
    var q, s := t / d, t % d;
    assert t == d * q + s && d * q == q * d;
    assert (m - q) * d == s - r;
    MulMono(d, 1, m - q);
    MulMono(d, m - q, -1);
  }
}
