/** Bytes as integers. */
module Bytes {
  lemma NextByte(b: bv8)
    requires b != 255
    ensures (b + 1) as int == b as int + 1
  {}

  lemma {:induction false} ByteWithValue(n: nat) returns (b: bv8)
    requires n < 256
    ensures b as int == n
  {
    if n == 0 {
      b := 0;
    } else {
      var a := ByteWithValue(n - 1);
      NotLast(a);
      NextByte(a);
      b := a + 1;
    }
  }

  lemma NotLast(b: bv8)
    requires b as int < 255
    ensures b != 255
  {}

  lemma ByteRoundTrip(b: bv8)
    ensures 0 <= b as int < 256 && (b as int) as bv8 == b
  {}

  lemma IntRoundTrip(n: int)
    requires 0 <= n < 256
    ensures (n as bv8) as int == n
  {
    var b := ByteWithValue(n);
    ByteRoundTrip(b);
  }
}
