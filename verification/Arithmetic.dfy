/** Quotients the solver does not find by itself. */
module Arithmetic {
  lemma MulNonnegative(a: int, b: int)
    requires a >= 0 && b >= 0
    ensures a * b >= 0
  {
  }

  lemma NonzeroMultiple(d: int, k: int)
    requires d > 0 && k != 0
    ensures d * k >= d || d * k <= -d
  {
    if k >= 1 {
      MulNonnegative(d, k - 1);
      assert d * k == d * (k - 1) + d;
    } else {
      MulNonnegative(d, -k - 1);
      assert d * k == -(d * (-k - 1)) - d;
    }
  }

  lemma DivIs(n: int, d: int, q: int)
    requires d > 0 && d * q <= n < d * q + d
    ensures n / d == q
  {
    var k := n / d - q;
    assert d * k == d * (n / d) - d * q;
    if k != 0 { NonzeroMultiple(d, k); }
  }
}
