/** The pseudo-random number generator of RFC 5170, section 5.7, in Carta's form without division. */
module ParkMiller {
  import opened Arithmetic

  const MODULUS := 0x7FFF_FFFF
  const MULTIPLIER := 16807

  ghost predicate InRange(s: int) { 1 <= s < MODULUS }

  // One call: the product is reduced by adding its high part to its low 31 bits.
  function Next(s: nat): nat {
    var hi := MULTIPLIER * (s / 0x1_0000);
    var lo := MULTIPLIER * (s % 0x1_0000) + (hi % 0x8000) * 0x1_0000 + hi / 0x8000;
    if lo > MODULUS then lo - MODULUS else lo
  }

  // The multiplier's inverse modulo the modulus
  const INVERSE := 1407677000

  lemma Congruent(a: int, b: int, k: int)
    requires a == b + k * MODULUS
    ensures a % MODULUS == b % MODULUS
  {}

  lemma ProductModulus(a: int, b: int)
    ensures (a * (b % MODULUS)) % MODULUS == (a * b) % MODULUS
  {
    var q := b / MODULUS;
    assert a * b == a * (b % MODULUS) + (a * q) * MODULUS by {
      assert b == b % MODULUS + q * MODULUS;
      assert a * (q * MODULUS) == (a * q) * MODULUS;
    }
    Congruent(a * b, a * (b % MODULUS), a * q);
  }

  // Multiplying by the inverse takes a product back.
  lemma InverseTakesBack(s: int)
    requires 0 <= s < MODULUS
    ensures (INVERSE * ((MULTIPLIER * s) % MODULUS)) % MODULUS == s
  {
    ProductModulus(INVERSE, MULTIPLIER * s);
    var k := (INVERSE * MULTIPLIER - 1) / MODULUS;
    assert INVERSE * MULTIPLIER == 1 + k * MODULUS;
    assert INVERSE * (MULTIPLIER * s) == s + (k * s) * MODULUS;
    Congruent(INVERSE * (MULTIPLIER * s), s, k * s);
  }

  // From a seed in range the product is not a multiple of the modulus: the generator never reaches 0 or the modulus.
  lemma ProductInRange(s: int)
    requires InRange(s)
    ensures InRange((MULTIPLIER * s) % MODULUS)
  {
    InverseTakesBack(s);
  }

  // One call multiplies by 16807 modulo 2^31 - 1, and stays in range.
  lemma NextIsProduct(s: nat)
    requires InRange(s)
    ensures Next(s) == (MULTIPLIER * s) % MODULUS && InRange(Next(s))
  {
    var hi := MULTIPLIER * (s / 0x1_0000);
    var lo := MULTIPLIER * (s % 0x1_0000) + (hi % 0x8000) * 0x1_0000 + hi / 0x8000;
    assert MULTIPLIER * s == lo + (hi / 0x8000) * MODULUS;
    Congruent(MULTIPLIER * s, lo, hi / 0x8000);
    ProductInRange(s);
  }

  // Different seeds have different successors: a seed can be computed back.
  lemma NextIsInvertible(s: nat)
    requires InRange(s)
    ensures (INVERSE * Next(s)) % MODULUS == s
  {
    NextIsProduct(s); InverseTakesBack(s);
  }

  // The seed after n calls
  function After(n: nat, s: nat): nat { if n == 0 then s else Next(After(n - 1, s)) }

  lemma OneMoreFactor(p: nat, s: nat, t: nat)
    requires InRange(t) && t == (p * s) % MODULUS
    ensures Next(t) == ((MULTIPLIER * p) * s) % MODULUS && InRange(Next(t))
  {
    NextIsProduct(t);
    ProductModulus(MULTIPLIER, p * s);
    assert MULTIPLIER * (p * s) == (MULTIPLIER * p) * s;
  }

  // After n calls the seed is 16807^n times the first seed, modulo 2^31 - 1, and in range.
  lemma {:induction false} AfterCalls(n: nat, s: nat)
    requires InRange(s)
    ensures After(n, s) == (Power(MULTIPLIER, n) * s) % MODULUS && InRange(After(n, s))
  {
    if n > 0 {
      AfterCalls(n - 1, s);
      OneMoreFactor(Power(MULTIPLIER, n - 1), s, After(n - 1, s));
    }
  }

  // An unset seed stays 0.
  lemma {:induction false} AfterZero(n: nat)
    ensures After(n, 0) == 0
  {
    if n > 0 { AfterZero(n - 1); }
  }

  class Generator {
    var seed: nat
    ghost var start: nat
    ghost var calls: nat

    // The seed was never set, or set in range.
    ghost predicate Valid()
      reads this
    {
      (start == 0 || InRange(start)) && seed == After(calls, start)
    }

    constructor ()
      ensures Valid() && seed == 0 && start == 0
    {
      seed, start, calls := 0, 0, 0;
    }

    // A seed out of range is refused.
    method Srand(s: nat)
      requires Valid()
      modifies this
      ensures Valid()
      ensures if InRange(s) then seed == s == start && calls == 0
              else seed == old(seed) && start == old(start) && calls == old(calls)
    {
      if s >= 1 && s <= 0x7FFF_FFFE {
        seed, start, calls := s, s, 0;
      }
    }

    method Advance()
      requires Valid()
      modifies this`seed, this`calls
      ensures Valid() && calls == old(calls) + 1
    {
      var hi := MULTIPLIER * (seed / 0x1_0000);
      var lo := MULTIPLIER * (seed % 0x1_0000);
      lo := lo + (hi % 0x8000) * 0x1_0000;
      lo := lo + hi / 0x8000;
      if lo > MODULUS {
        lo := lo - MODULUS;
      }
      seed := lo;
      calls := calls + 1;
    }

    // A number below maxv
    method Rand(maxv: nat) returns (r: int)
      requires Valid()
      modifies this`seed, this`calls
      ensures Valid() && calls == old(calls) + 1
      ensures if start == 0 then seed == 0 else InRange(seed) && seed == (Power(MULTIPLIER, calls) * start) % MODULUS
      ensures r == Scaled(seed, maxv) && (maxv > 0 ==> 0 <= r < maxv)
    {
      Advance();
      if start == 0 { AfterZero(calls); } else { AfterCalls(calls, start); }
      ScaledBelow(seed, maxv);
      r := Scaled(seed, maxv);
    }
  }

  function Scaled(s: nat, maxv: nat): int { (s as real * maxv as real / MODULUS as real).Floor }

  // Scaling rounds down the quotient and stays below maxv.
  lemma ScaledBelow(s: nat, maxv: nat)
    requires s < MODULUS
    ensures maxv > 0 ==> 0 <= Scaled(s, maxv) < maxv
    ensures Scaled(s, maxv) * MODULUS <= s * maxv < (Scaled(s, maxv) + 1) * MODULUS
  {
    var x, q := s as real * maxv as real / MODULUS as real, Scaled(s, maxv);
    assert x * MODULUS as real == s as real * maxv as real;
    assert s as real * maxv as real == (s * maxv) as real;
    assert q as real <= x < q as real + 1.0;
    assert (q * MODULUS) as real <= (s * maxv) as real < ((q + 1) * MODULUS) as real;
    assert maxv > 0 ==> s * maxv < MODULUS * maxv;
  }
}
