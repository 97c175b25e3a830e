/** The partition of an object into source blocks (RFC 5052, section 9.1), and the symbol tables built on it. */
module Partition {

  function Ceil(x: real): int { -((-x).Floor) }

  // Number of blocks, of large blocks, and the symbols in a large and in a small block
  datatype Blocking = Blocking(blocks: int, larges: int, large: int, small: int)

  // The closest integer; the lower one if both are equally close
  function Closest(x: real): int {
    if Ceil(x) as real - x < x - x.Floor as real then Ceil(x) else x.Floor
  }

  // of_compute_blocking_struct for blocks of at most b symbols, an object of l bytes and symbols of e bytes
  function ComputeBlocking(b: nat, l: nat, e: nat): Blocking
    requires b > 0 && l > 0 && e > 0
  {
    var t := Symbols(l, e);
    var blocks := Ceil(t as real / b as real);
    if blocks == 0 then Blocking(0, 0, 0, 0) else SpreadOver(t, blocks)
  }

  // The average block size, rounded up and down
  function SpreadOver(t: int, blocks: int): Blocking
    requires blocks != 0
  {
    SpreadBy(blocks, t as real / blocks as real)
  }

  function SpreadBy(blocks: int, a: real): Blocking {
    Blocking(blocks, Closest((a - a.Floor as real) * blocks as real), Ceil(a), a.Floor)
  }

  // Symbols needed for the object
  function Symbols(l: nat, e: nat): int
    requires e > 0
  {
    Ceil(l as real / e as real)
  }

  lemma Product(a: int, b: int)
    ensures (a * b) as real == a as real * b as real
  {}

  lemma ScaleStrictly(x: real, y: real, b: real)
    requires b > 0.0 && x < y
    ensures x * b < y * b
  {}

  lemma QuotientScales(a: real, b: real) returns (x: real)
    requires b > 0.0
    ensures x == a / b && x * b == a
  {
    x := a / b;
  }

  // Comparing the quotient x of a and b with a whole number
  lemma QuotientBelow(a: int, b: int, x: real, g: int)
    requires b > 0 && x * b as real == a as real && x < g as real
    ensures a < g * b
  {
    Product(g, b); ScaleStrictly(x, g as real, b as real);
    var p := g * b;
    assert a as real < p as real;
  }

  lemma QuotientAbove(a: int, b: int, x: real, g: int)
    requires b > 0 && x * b as real == a as real && g as real < x
    ensures g * b < a
  {
    Product(g, b); ScaleStrictly(g as real, x, b as real);
    var p := g * b;
    assert p as real < a as real;
  }

  lemma QuotientAtLeast(a: int, b: int, x: real, g: int)
    requires b > 0 && x * b as real == a as real && g as real <= x
    ensures g * b <= a
  {
    if x == g as real { Product(g, b); } else { QuotientAbove(a, b, x, g); }
  }

  lemma QuotientAtMost(a: int, b: int, x: real, g: int)
    requires b > 0 && x * b as real == a as real && x <= g as real
    ensures a <= g * b
  {
    if x == g as real { Product(g, b); } else { QuotientBelow(a, b, x, g); }
  }

  lemma CeilOfQuotient(a: int, b: int, c: int)
    requires a >= 0 && b > 0 && c == Ceil(a as real / b as real)
    ensures (c - 1) * b < a <= c * b
  {
    var x := QuotientScales(a as real, b as real);
    QuotientAbove(a, b, x, c - 1); QuotientAtMost(a, b, x, c);
  }

  // The fraction left over times the number of blocks is a whole number: the remainder.
  lemma WholeFraction(t: int, n: int, f: int, x: real)
    requires x * n as real == t as real
    ensures Closest((x - f as real) * n as real) == t - f * n
  {
    var p := f * n;
    Product(f, n);
    Difference(x, f as real, n as real);
    assert (x - f as real) * n as real == (t - p) as real;
  }

  lemma Difference(x: real, y: real, n: real)
    ensures (x - y) * n == x * n - y * n
  {}

  lemma Below(a: int, b: int, n: int)
    requires n > 0 && a * n < b * n
    ensures a < b
  {
    assert (b - a) * n > 0;
    assert b - a <= 0 ==> (b - a) * n <= 0;
  }

  // Rounding down and up: either the division is exact, or the two results are neighbours.
  lemma Neighbours(t: int, n: int, f: int, g: int)
    requires n >= 1 && f * n <= t < (f + 1) * n && (g - 1) * n < t <= g * n
    ensures 0 <= t - f * n < n && g == if t == f * n then f else f + 1
  {
    assert (f + 1) * n == f * n + n;
    Below(g - 1, f + 1, n);
    if t == f * n { Below(g - 1, f, n); } else { Below(f, g, n); }
    assert g * n == (g - 1) * n + n;
    assert g < f ==> (f - g) * n >= n;
  }

  lemma LargeAndSmall(t: int, n: int, f: int, g: int, larges: int)
    requires larges == t - f * n && g == if larges == 0 then f else f + 1
    ensures larges * g + (n - larges) * f == t
  {
    assert (n - larges) * f == n * f - larges * f;
    assert larges * (f + 1) == larges * f + larges;
  }

  lemma NoMoreThan(f: int, n: int, b: int, t: int)
    requires n >= 1 && f * n <= t <= n * b
    ensures f <= b && (f * n < t ==> f < b)
  {
    assert n * b == b * n;
    if f * n < t { Below(f, b, n); } else { assert (b + 1) * n == b * n + n; Below(f, b + 1, n); }
  }

  lemma AtLeastOne(f: int, n: int, b: int, t: int)
    requires n >= 1 && b >= 1 && (n - 1) * b < t < (f + 1) * n
    ensures f >= 1
  {
    AtLeastFactor(n - 1, b);
    Below(1, f + 1, n);
  }

  lemma AtLeastFactor(a: int, b: int)
    requires a >= 0 && b >= 1
    ensures a * b >= a
  {
    assert a * b == a + a * (b - 1);
    assert a * (b - 1) >= 0;
  }

  lemma Positive(a: int, b: int)
    requires b > 0 && a * b > 0
    ensures a > 0
  {
    assert a <= 0 ==> a * b <= 0;
  }

  // The results in whole numbers, for an average block size of x
  lemma SpreadBounds(t: int, n: int, f: int, g: int, x: real)
    requires n > 0 && x * n as real == t as real && f == x.Floor && g == Ceil(x)
    ensures f * n <= t < (f + 1) * n && (g - 1) * n < t <= g * n
  {
    QuotientAtLeast(t, n, x, f); QuotientBelow(t, n, x, f + 1);
    QuotientAbove(t, n, x, g - 1); QuotientAtMost(t, n, x, g);
  }

  lemma SpreadValues(t: int, n: int, f: int, g: int, x: real)
    requires n > 0 && x * n as real == t as real && f == x.Floor && g == Ceil(x)
    ensures SpreadBy(n, x) == Blocking(n, t - f * n, g, f)
  {
    WholeFraction(t, n, f, x);
  }

  lemma SpreadOverValues(t: int, n: int) returns (f: int, g: int)
    requires n > 0
    ensures SpreadOver(t, n) == Blocking(n, t - f * n, g, f) && f * n <= t < (f + 1) * n && (g - 1) * n < t <= g * n
  {
    var x := QuotientScales(t as real, n as real);
    f, g := x.Floor, Ceil(x);
    SpreadBounds(t, n, f, g, x); SpreadValues(t, n, f, g, x);
  }

  lemma BlockCount(b: nat, l: nat, e: nat) returns (t: int, n: int)
    requires b > 0 && l > 0 && e > 0
    ensures t == Symbols(l, e) >= 1 && n >= 1 && ComputeBlocking(b, l, e) == SpreadOver(t, n)
            && (n - 1) * b < t <= n * b && (t - 1) * e < l <= t * e
  {
    t := Symbols(l, e);
    CeilOfQuotient(l, e, t);
    Positive(t, e);
    n := Ceil(t as real / b as real);
    CeilOfQuotient(t, b, n);
    Positive(n, b);
  }

  // The blocks hold just the symbols needed for the object, differ in size by at most one, none is larger than allowed,
  // and there are no more of them than needed.
  lemma BlockingIsPartition(b: nat, l: nat, e: nat)
    requires b > 0 && l > 0 && e > 0
    ensures var s := ComputeBlocking(b, l, e);
            var t := s.larges * s.large + (s.blocks - s.larges) * s.small;
            && (t - 1) * e < l <= t * e && t == Symbols(l, e)
            && s.blocks >= 1 && 0 <= s.larges < s.blocks
            && s.small <= s.large <= s.small + 1 && s.large <= b && 1 <= s.small
            && (s.larges == 0 ==> s.large == s.small)
            && (s.blocks - 1) * b < t <= s.blocks * b
  {
    var t, n := BlockCount(b, l, e);
    var f, g := SpreadOverValues(t, n);
    Neighbours(t, n, f, g); NoMoreThan(f, n, b, t); AtLeastOne(f, n, b, t);
    LargeAndSmall(t, n, f, g, t - f * n);
  }
}
