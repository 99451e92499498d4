/** Division and remainder by a variable, which the solver needs to be told about. */
module Arithmetic {

  lemma DivModUnique(x: int, p: int, q: int, r: int)
    requires p > 0 && x == q * p + r && 0 <= r < p
    ensures x / p == q && x % p == r
  {
    var d := x / p;
    assert d * p + x % p == x;
    assert (d - q) * p == r - x % p by { MulMinus(d, q, p); }
    MulAtLeast(d - q, p);
  }

  lemma MulMinus(d: int, q: int, p: int)
    ensures (d - q) * p == d * p - q * p
  {
  }

  lemma MulAtLeast(a: int, p: int)
    requires p > 0
    ensures a >= 1 ==> a * p >= p
    ensures a <= -1 ==> a * p <= -p
  {
  }
}
