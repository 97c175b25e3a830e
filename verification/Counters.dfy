/** Counters 32 bits wide. */
module Counters {

  type Counter = x: nat | x < 0x1_0000_0000

  function Wrap(x: int): Counter { x % 0x1_0000_0000 }

  // Adding to a counter counts modulo 2^32, also downwards.
  lemma WrapAdd(a: int, x: int)
    ensures Wrap(Wrap(a) + x) == Wrap(a + x)
  {
    var m := 0x1_0000_0000;
    var q, p := a / m, (Wrap(a) + x) / m;
    assert a + x == (q + p) * m + Wrap(Wrap(a) + x);
  }

  // A counter shows the total if and only if the total fits.
  lemma WrapAtMost(x: nat)
    ensures Wrap(x) <= x && (Wrap(x) == x <==> x < 0x1_0000_0000)
  {}

  // A counter that showed the total before an addition shows it afterwards.
  lemma CounterNext(c: Counter, total: int, x: int, c': Counter, total': int)
    requires c == Wrap(total) && c' == Wrap(c + x) && total' == total + x
    ensures c' == Wrap(total')
  {
    WrapAdd(total, x);
  }
}
