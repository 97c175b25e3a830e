/** Powers and quotients of whole numbers. */
module Arithmetic {

  function Power(base: nat, n: nat): (p: nat)
    ensures base > 0 ==> p > 0
  {
    if n == 0 then 1 else base * Power(base, n - 1)
  }

  lemma DivisionIsUnique(q: int, n: int, a: int, r: int)
    requires 0 <= r < n && q == a * n + r
    ensures q / n == a && q % n == r
  {
    var d := a - q / n;
    assert d * n == q % n - r;
    assert d >= 1 ==> d * n >= n;
    assert d <= -1 ==> d * n <= -n;
  }
}
