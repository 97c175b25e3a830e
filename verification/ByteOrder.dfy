/** Numbers of 16 and 32 bits as bytes, the most significant first. */
module ByteOrder {
  import Bytes

  function Be16(n: nat): (b: seq<bv8>)
    requires n < 0x1_0000
    ensures |b| == 2
  {
    [(n / 0x100) as bv8, (n % 0x100) as bv8]
  }

  function FieldAt(s: seq<bv8>, i: nat): nat
    requires i + 2 <= |s|
  {
    0x100 * (s[i] as int) + s[i + 1] as int
  }

  lemma FieldRoundTrip(s: seq<bv8>, i: nat, n: nat)
    requires n < 0x1_0000 && i + 2 <= |s| && s[i..i + 2] == Be16(n)
    ensures s[i] as int == n / 0x100 && s[i + 1] as int == n % 0x100 && FieldAt(s, i) == n
  {
    Bytes.IntRoundTrip(n / 0x100); Bytes.IntRoundTrip(n % 0x100);
    assert s[i..i + 2][0] == s[i] && s[i..i + 2][1] == s[i + 1];
  }

  lemma FieldDigits(s: seq<bv8>, i: nat)
    requires i + 2 <= |s|
    ensures FieldAt(s, i) < 0x1_0000
    ensures s[i] as int == FieldAt(s, i) / 0x100 && s[i + 1] as int == FieldAt(s, i) % 0x100
  {
    Bytes.ByteRoundTrip(s[i]); Bytes.ByteRoundTrip(s[i + 1]);
  }

  function Be32(n: nat): (b: seq<bv8>)
    requires n < 0x1_0000_0000
    ensures |b| == 4
  {
    Be16(n / 0x1_0000) + Be16(n % 0x1_0000)
  }

  function LongAt(s: seq<bv8>, i: nat): (n: nat)
    requires i + 4 <= |s|
    ensures n < 0x1_0000_0000
  {
    FieldDigits(s, i); FieldDigits(s, i + 2);
    0x1_0000 * FieldAt(s, i) + FieldAt(s, i + 2)
  }

  lemma Halves(n: nat, hi: nat, lo: nat)
    requires n == 0x1_0000 * hi + lo && lo < 0x1_0000
    ensures hi == n / 0x1_0000 && lo == n % 0x1_0000
    ensures hi / 0x100 == n / 0x100_0000 && hi % 0x100 == n / 0x1_0000 % 0x100
    ensures lo / 0x100 == n / 0x100 % 0x100 && lo % 0x100 == n % 0x100
  {
    var a, b, c, d := hi / 0x100, hi % 0x100, lo / 0x100, lo % 0x100;
    assert n == 0x100_0000 * a + 0x1_0000 * b + 0x100 * c + d;
    assert n / 0x100 == 0x1_0000 * a + 0x100 * b + c;
  }

  lemma LongRoundTrip(s: seq<bv8>, i: nat, n: nat)
    requires n < 0x1_0000_0000 && i + 4 <= |s| && s[i..i + 4] == Be32(n)
    ensures s[i] as int == n / 0x100_0000 && s[i + 1] as int == n / 0x1_0000 % 0x100
    ensures s[i + 2] as int == n / 0x100 % 0x100 && s[i + 3] as int == n % 0x100
    ensures LongAt(s, i) == n
  {
    var hi, lo := n / 0x1_0000, n % 0x1_0000;
    TwoHalves(s, i, hi, lo);
    FieldRoundTrip(s, i, hi); FieldRoundTrip(s, i + 2, lo);
    Halves(n, hi, lo);
  }

  lemma TwoHalves(s: seq<bv8>, i: nat, hi: nat, lo: nat)
    requires hi < 0x1_0000 && lo < 0x1_0000 && i + 4 <= |s| && s[i..i + 4] == Be16(hi) + Be16(lo)
    ensures s[i..i + 2] == Be16(hi) && s[i + 2..i + 4] == Be16(lo)
  {
    assert s[i..i + 2] == s[i..i + 4][..2] && s[i + 2..i + 4] == s[i..i + 4][2..];
  }
}
