/** Facts about Euclidean division that the solver does not find on its own. */
module Arith {
  /** Quotient and remainder are unique. */
  lemma DivUnique(v: int, q: int, r: int, d: int)
    requires 0 < d && 0 <= r < d && v == q * d + r
    ensures v / d == q && v % d == r
  {
    var k := q - v / d;
    assert k * d == v % d - r;
    if k > 0 {
      MulAtLeast(k, d);
    } else if k < 0 {
      MulAtLeast(-k, d);
    }
  }

  lemma MulAtLeast(k: int, d: int)
    requires 1 <= k && 0 < d
    ensures d <= k * d
  {
    assert k * d == (k - 1) * d + d;
  }
}
