/** How a block's data and FEC packets share one run of sequence numbers. */
module Interleaving {
  import opened Arithmetic

  const MAX_DATA_OR_FEC_PACKETS_PER_BLOCK := 32
  const MAX_USER_PACKET_LENGTH := 2278
  const MAX_PACKET_LENGTH := 4192

  // Bytes of the payload header, which holds the length of the payload
  const PAYLOAD_HEADER := 4

  // Packets per block, bytes per packet and buffered blocks; sender and receiver agree on them.
  datatype Config = Config(data: nat, fec: nat, size: nat, buffers: nat) {
    ghost predicate Valid() {
      && 1 <= data <= MAX_DATA_OR_FEC_PACKETS_PER_BLOCK && fec <= MAX_DATA_OR_FEC_PACKETS_PER_BLOCK
      && PAYLOAD_HEADER <= size <= MAX_USER_PACKET_LENGTH && 1 <= buffers
    }

    function Packets(): nat { data + fec }
  }

  function Min(a: int, b: int): int { if a < b then a else b }

  datatype Role = Data(index: nat) | Fec(index: nat)

  ghost predicate HasRole(c: Config, r: Role) {
    match r
    case Data(i) => i < c.data
    case Fec(j) => j < c.fec
  }

  // The position in the block of a data packet, and of a FEC packet
  function DataSlot(c: Config, i: nat): nat { i + Min(i, c.fec) }

  function FecSlot(c: Config, j: nat): nat { j + Min(j + 1, c.data) }

  // Data packets take the even positions and FEC packets the odd ones as long as both kinds remain; the rest of one
  // kind follows.
  lemma Alternation(c: Config, i: nat)
    ensures i < c.data && i < c.fec ==> DataSlot(c, i) == 2 * i && FecSlot(c, i) == 2 * i + 1
    ensures c.fec <= i < c.data ==> DataSlot(c, i) == c.fec + i
    ensures c.data <= i < c.fec ==> FecSlot(c, i) == c.data + i
  {}

  ghost function SlotOf(c: Config, r: Role): nat {
    match r
    case Data(i) => DataSlot(c, i)
    case Fec(j) => FecSlot(c, j)
  }

  // Alternating as long as both kinds remain, then the rest of one kind
  ghost function RoleOf(c: Config, s: nat): Role {
    if s < 2 * c.data && s < 2 * c.fec then (if s % 2 == 0 then Data(s / 2) else Fec(s / 2))
    else if c.fec < c.data then Data(if s < c.fec then 0 else s - c.fec)
    else Fec(if s < c.data then 0 else s - c.data)
  }

  // Every position below data + fec is taken by exactly one packet.
  lemma SlotsAreBijective(c: Config, s: nat, r: Role)
    requires HasRole(c, r) && s < c.Packets()
    ensures HasRole(c, RoleOf(c, s)) && SlotOf(c, RoleOf(c, s)) == s
    ensures SlotOf(c, r) < c.Packets() && RoleOf(c, SlotOf(c, r)) == r
  {}

  // The block of a sequence number, and the packet's position in it
  function BlockNumber(c: Config, seqNr: nat): (num: nat)
    requires c.Packets() > 0
  {
    DivisionIsNonnegative(seqNr, c.Packets());
    seqNr / c.Packets()
  }

  function Position(c: Config, seqNr: nat): (s: nat)
    requires c.Packets() > 0
    ensures s < c.Packets()
  {
    seqNr % c.Packets()
  }

  lemma DivisionIsNonnegative(a: nat, b: nat)
    requires b > 0
    ensures a / b >= 0
  {}

  // Data and FEC packets taken so far, between two rounds of the alternation
  ghost predicate InStep(c: Config, di: nat, fi: nat) {
    di <= c.data && fi <= c.fec && (di == fi || (di < fi && di == c.data) || (fi < di && fi == c.fec))
  }

  lemma SlotsInStep(c: Config, di: nat, fi: nat)
    requires InStep(c, di, fi)
    ensures di < c.data ==> DataSlot(c, di) == di + fi && (fi < c.fec ==> FecSlot(c, fi) == di + 1 + fi)
    ensures di == c.data && fi < c.fec ==> FecSlot(c, fi) == di + fi
    ensures InStep(c, if di < c.data then di + 1 else di, if fi < c.fec then fi + 1 else fi)
  {}

  // The first sequence number of block b
  function FirstNumber(c: Config, b: nat): nat { if b == 0 then 0 else FirstNumber(c, b - 1) + c.Packets() }

  lemma OneBlockFurther(q: nat, n: nat)
    requires n > 0
    ensures (q + n) / n == q / n + 1 && (q + n) % n == q % n
  {
    assert q + n == (q / n + 1) * n + q % n;
    DivisionIsUnique(q + n, n, q / n + 1, q % n);
  }

  // A block's numbers are those the receiver takes for it.
  lemma {:induction false} NumberOfPacket(c: Config, b: nat, s: nat)
    requires s < c.Packets()
    ensures BlockNumber(c, FirstNumber(c, b) + s) == b && Position(c, FirstNumber(c, b) + s) == s
  {
    if b == 0 {
      DivisionIsUnique(s, c.Packets(), 0, s);
    } else {
      NumberOfPacket(c, b - 1, s); OneBlockFurther(FirstNumber(c, b - 1) + s, c.Packets());
      assert FirstNumber(c, b) + s == FirstNumber(c, b - 1) + s + c.Packets();
    }
  }
}
