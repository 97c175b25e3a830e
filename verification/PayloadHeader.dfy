/** The length field at the start of every data packet, least significant byte first. */
module PayloadHeader {
  import opened GaloisField
  import opened Interleaving
  import opened BlockProtocol

  lemma Digits(n: nat, p: nat, q: nat, r: nat, s: nat)
    requires p < 0x100 && q < 0x100 && r < 0x100 && s < 0x100
    requires n == p + 0x100 * q + 0x1_0000 * r + 0x100_0000 * s
    ensures n < 0x1_0000_0000
    ensures p == n % 0x100 && q == n / 0x100 % 0x100 && r == n / 0x1_0000 % 0x100 && s == n / 0x100_0000
  {
    assert n / 0x100 == q + 0x100 * r + 0x1_0000 * s;
    assert n / 0x1_0000 == r + 0x100 * s;
  }

  // The bytes are the digits of the length to base 256, the lowest first.
  method ReadLength(a: array<bv8>) returns (n: nat)
    requires PAYLOAD_HEADER <= a.Length
    ensures n == HeaderLength(a[..]) && n < 0x1_0000_0000
    ensures a[0] as int == n % 0x100 && a[1] as int == n / 0x100 % 0x100
    ensures a[2] as int == n / 0x1_0000 % 0x100 && a[3] as int == n / 0x100_0000
  {
    IndexIsInt(a[0]); IndexIsInt(a[1]); IndexIsInt(a[2]); IndexIsInt(a[3]);
    var p: nat, q: nat, r: nat, s: nat := a[0] as int, a[1] as int, a[2] as int, a[3] as int;
    n := p + 0x100 * q + 0x1_0000 * r + 0x100_0000 * s;
    Digits(n, p, q, r, s);
  }

  lemma ByteValue(n: nat)
    requires n < 256
    ensures Index(n as bv8) == n
  {
    ByteIsBv(n); IndexOfByte(n);
  }

  method WriteLength(a: array<bv8>, n: nat)
    requires PAYLOAD_HEADER <= a.Length && n <= MAX_USER_PACKET_LENGTH
    modifies a
    ensures a[PAYLOAD_HEADER..] == old(a[PAYLOAD_HEADER..])
    ensures HeaderLength(a[..]) == n
  {
    ByteValue(n % 0x100); ByteValue(n / 0x100); ByteValue(0);
    a[0], a[1], a[2], a[3] := (n % 0x100) as bv8, (n / 0x100) as bv8, 0, 0;
  }
}
