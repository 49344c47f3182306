/**
 Integer division facts shared by the clock breakdown and the carousel's
 index wrap-around.
 */
module Arith {

  /** The Euclidean quotient and remainder are the only pair that splits
      `a` into multiples of `n` and a remainder below `n`. */
  lemma DivModUnique(a: int, n: int, q: int, r: int)
    requires n > 0
    requires 0 <= r < n
    requires a == q * n + r
    ensures a / n == q && a % n == r
  {
    var q', r' := a / n, a % n;
    assert a == q' * n + r';
    assert (q - q') * n == q * n - q' * n;
    if q > q' {
      MultipleAtLeast(q - q', n);
    } else if q < q' {
      MultipleAtLeast(q' - q, n);
    }
  }

  /** A positive multiple of a positive `n` is at least `n`. */
  lemma {:induction false} MultipleAtLeast(x: int, n: int)
    requires x >= 1 && n > 0
    ensures x * n >= n
    decreases x
  {
    if x > 1 {
      MultipleAtLeast(x - 1, n);
      assert x * n == (x - 1) * n + n;
    }
  }
}
