/** What the words, numbers and identifiers of a radiotap header are, told from its bytes. */
module RadiotapBytes {
  import opened Arithmetic
  import opened RadiotapLayout
  import opened RadiotapSingleWord

  // ------------------------------------------------------------------ numbers

  // The least significant byte of a number comes first ...
  lemma NumberBytes(h: seq<Octet>, i: nat)
    requires i + 2 <= |h|
    ensures h[i] == Le16(h, i) % 0x100 && h[i + 1] == Le16(h, i) / 0x100
  {}

  // ... but of an OUI the most significant.
  lemma OuiBytes(h: seq<Octet>, i: nat)
    requires i + 3 <= |h|
    ensures h[i] == Oui(h, i) / 0x1_0000 && h[i + 1] == Oui(h, i) / 0x100 % 0x100 && h[i + 2] == Oui(h, i) % 0x100
  {
    var w, a: int, b: int := Oui(h, i), h[i], h[i + 1];
    assert w / 0x100 == 0x100 * a + b;
  }

  lemma WordBytes(h: seq<Octet>, i: nat)
    requires i + 4 <= |h|
    ensures h[i] == Le32(h, i) % 0x100 && h[i + 1] == Le32(h, i) / 0x100 % 0x100
    ensures h[i + 2] == Le32(h, i) / 0x1_0000 % 0x100 && h[i + 3] == Le32(h, i) / 0x100_0000
  {
    var w, a: int, b: int, c: int := Le32(h, i), h[i + 1], h[i + 2], h[i + 3];
    assert w / 0x100 == a + 0x100 * b + 0x1_0000 * c;
    assert w / 0x1_0000 == b + 0x100 * c;
  }

  // ------------------------------------------------------------------ bits

  // Bit b is that of the power 2^b.
  lemma {:induction false} BitIsDigit(w: nat, b: nat)
    ensures Power(2, b) > 0 && Shifted(w, b) == w / Power(2, b) && (Bit(w, b) <==> w / Power(2, b) % 2 == 1)
    decreases b
  {
    if b > 0 {
      BitIsDigit(w / 2, b - 1);
      HalfFirst(w, Power(2, b - 1));
      ZeroShifted(b);
    }
  }

  lemma ZeroShifted(b: nat)
    requires b > 0
    ensures Shifted(0, b) == 0 && Shifted(0 / 2, b - 1) == 0
  {}

  lemma HalfFirst(w: nat, p: nat)
    requires p > 0
    ensures 2 * p > 0 && w / 2 / p == w / (2 * p)
  {
    var q, r := w / 2 / p, w / 2 % p;
    assert w / 2 == q * p + r;
    DivisionIsUnique(w, 2 * p, q, 2 * r + w % 2);
  }

  lemma ShiftOne(w: nat, b: nat)
    ensures Bit(w, b + 1) <==> Bit(w / 2, b)
  {
    if w == 0 { assert Shifted(0, b + 1) == 0 && Shifted(0, b) == 0; }
  }

  // Bits of the low byte, and of the bytes above it
  lemma LowBit(lo: nat, hi: nat, b: nat)
    requires lo < 0x100 && b < 8
    ensures Bit(lo + 0x100 * hi, b) <==> Bit(lo, b)
  {
    ByteUnit();
    LowBits(lo, hi, 0x80, b, 8);
  }

  lemma {:induction false} LowBits(lo: nat, hi: nat, half: nat, b: nat, n: nat)
    requires b < n && half == Power(2, n - 1)
    ensures Bit(lo + 2 * half * hi, b) <==> Bit(lo, b)
  {
    var w := lo + 2 * half * hi;
    assert w == lo + 2 * (half * hi);
    if b > 0 {
      assert w / 2 == lo / 2 + half * hi;
      ShiftOne(w, b - 1); ShiftOne(lo, b - 1);
      assert half == 2 * Power(2, n - 2);
      LowBits(lo / 2, hi, Power(2, n - 2), b - 1, n - 1);
    }
  }

  lemma {:induction false} HighBits(lo: nat, hi: nat, unit: nat, n: nat, b: nat)
    requires lo < unit && unit == Power(2, n)
    ensures Bit(lo + unit * hi, n + b) <==> Bit(hi, b)
  {
    if n > 0 {
      var w, half := lo + unit * hi, Power(2, n - 1);
      assert w == lo + 2 * (half * hi) by { assert unit * hi == 2 * half * hi; }
      assert w / 2 == lo / 2 + half * hi;
      ShiftOne(w, n - 1 + b);
      HighBits(lo / 2, hi, half, n - 1, b);
    }
  }

  lemma ByteUnit()
    ensures Power(2, 7) == 0x80 && Power(2, 8) == 0x100
  {
    assert Power(2, 3) == 8;
    assert Power(2, 6) == 64;
  }

  lemma BytesAbove(h: seq<Octet>, i: nat, a: int, b: int, c: int)
    requires i + 4 <= |h| && a == h[i + 1] && b == h[i + 2] && c == h[i + 3]
    ensures Le32(h, i) == h[i] + 0x100 * (a + 0x100 * (b + 0x100 * c))
  {}

  lemma BitOfBytes(d: nat, a: nat, b: nat, c: nat, w: nat, i: nat, j: nat)
    requires d < 0x100 && a < 0x100 && b < 0x100 && c < 0x100 && i < 4 && j < 8
    requires w == d + 0x100 * (a + 0x100 * (b + 0x100 * c))
    ensures Bit(w, 8 * i + j) <==> Bit(if i == 0 then d else if i == 1 then a else if i == 2 then b else c, j)
  {
    var y := b + 0x100 * c;
    var x := a + 0x100 * y;
    ByteUnit();
    LowBit(d, x, j); LowBit(a, y, j); LowBit(b, c, j);
    if i > 0 { HighBits(d, x, 0x100, 8, 8 * (i - 1) + j); }
    if i > 1 { HighBits(a, y, 0x100, 8, 8 * (i - 2) + j); }
    if i > 2 { HighBits(b, c, 0x100, 8, j); }
  }

  // Bit 8 * i + j of present word k is bit j of its byte i.
  lemma PresentBit(h: seq<Octet>, k: nat, i: nat, j: nat)
    requires 8 + 4 * k <= |h| && i < 4 && j < 8
    ensures Bit(WordAt(h, k), 8 * i + j) <==> Bit(h[4 + 4 * k + i], j)
  {
    var at := 4 + 4 * k;
    BytesAbove(h, at, h[at + 1], h[at + 2], h[at + 3]);
    BitOfBytes(h[at], h[at + 1], h[at + 2], h[at + 3], Le32(h, at), i, j);
  }

  // A word announces another one if the highest bit of its last byte is set.
  lemma ExtBit(h: seq<Octet>, k: nat)
    requires 8 + 4 * k <= |h|
    ensures Bit(WordAt(h, k), EXT) <==> h[7 + 4 * k] >= 0x80
  {
    PresentBit(h, k, 3, 7);
    ByteUnit();
    BitIsDigit(h[7 + 4 * k], 7);
  }

  // ------------------------------------------------------------------ the present words

  // The header length that the bytes declare
  function Declared(h: seq<Octet>): int
    requires 4 <= |h|
  {
    (h[2] as int) + 0x100 * (h[3] as int)
  }

  // Word n - 1 is the last present word, inside the declared length if it is not the first.
  ghost predicate LastWord(h: seq<Octet>, len: int, n: nat) {
    && 1 <= n && 4 + 4 * n <= |h| && h[3 + 4 * n] < 0x80 && (n > 1 ==> 4 + 4 * n <= len)
    && forall k :: 0 <= k < n - 1 ==> h[7 + 4 * k] >= 0x80
  }
}
