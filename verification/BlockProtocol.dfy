/** The receiving side of the block protocol as a state machine. */
module BlockProtocol {
  import opened GaloisField
  import opened ErasureCodeSpec
  import opened Interleaving
  import opened Counters

  // A packet buffer: whether a packet has arrived in it, and the bytes the erasure code covers
  datatype PacketView = Absent | Present(data: Block)

  datatype BlockView = BlockView(num: int, packets: seq<PacketView>)

  datatype Status = Status(receivedBlocks: Counter, damagedBlocks: Counter, receivedPackets: Counter,
                           lostPackets: Counter,
                           txRestarts: Counter)

  // What a block consisted of when it was decoded
  datatype Eviction = Eviction(num: int, packets: seq<PacketView>)

  datatype RxState = RxState(blocks: seq<BlockView>, maxBlockNum: int, status: Status, output: seq<bv8>,
                             journal: seq<Eviction>, since: nat)

  // Buffer bytes that the protocol state does not determine: what the chosen slot held before the packet
  // was copied in, and the four bytes that follow each decoded data block.
  datatype Leftover = Leftover(slot: seq<bv8>, tails: seq<seq<bv8>>)

  // The indices below n where the flag is set, in order
  function Select(flags: seq<bool>, n: nat): (r: seq<nat>)
    requires n <= |flags|
    ensures |r| <= n
  {
    if n == 0 then [] else if flags[n - 1] then Select(flags, n - 1) + [n - 1] else Select(flags, n - 1)
  }

  lemma {:induction false} SelectIsOrdered(flags: seq<bool>, n: nat)
    requires n <= |flags|
    ensures forall i, j :: 0 <= i < j < |Select(flags, n)| ==> Select(flags, n)[i] < Select(flags, n)[j]
    ensures forall i :: 0 <= i < |Select(flags, n)| ==> Select(flags, n)[i] < n && flags[Select(flags, n)[i]]
    ensures forall k :: 0 <= k < n && flags[k] ==> k in Select(flags, n)
  {
    if n > 0 { SelectIsOrdered(flags, n - 1); }
  }

  ghost predicate Shaped(c: Config, packets: seq<PacketView>) {
    |packets| == c.Packets() && forall s :: 0 <= s < |packets| && packets[s].Present? ==> |packets[s].data| == c.size
  }

  ghost function MissingFlags(c: Config, packets: seq<PacketView>): (f: seq<bool>)
    requires |packets| == c.Packets()
    ensures |f| == c.data
  {
    seq(c.data, i requires 0 <= i < c.data => SlotFits(c, Data(i)); packets[DataSlot(c, i)].Absent?)
  }

  ghost function GoodFlags(c: Config, packets: seq<PacketView>): (f: seq<bool>)
    requires |packets| == c.Packets()
    ensures |f| == c.fec
  {
    seq(c.fec, j requires 0 <= j < c.fec => SlotFits(c, Fec(j)); packets[FecSlot(c, j)].Present?)
  }

  lemma SlotFits(c: Config, r: Role)
    requires HasRole(c, r)
    ensures SlotOf(c, r) < c.Packets()
  {}

  // Data packets that did not arrive, FEC packets that did
  ghost function Missing(c: Config, packets: seq<PacketView>): seq<nat>
    requires |packets| == c.Packets()
  {
    Select(MissingFlags(c, packets), c.data)
  }

  ghost function Good(c: Config, packets: seq<PacketView>): seq<nat>
    requires |packets| == c.Packets()
  {
    Select(GoodFlags(c, packets), c.fec)
  }

  ghost predicate Recoverable(c: Config, packets: seq<PacketView>)
    requires |packets| == c.Packets()
  {
    |Missing(c, packets)| <= |Good(c, packets)|
  }

  ghost function ParityBlock(x: seq<Block>, j: nat, size: nat): (b: Block)
    requires Sized(x, size)
    ensures |b| == size
  {
    seq(size, p requires 0 <= p < size => Parity(x, j, p, |x|))
  }

  // The content of the packet at position s of a block with data x
  ghost function PacketContent(c: Config, x: seq<Block>, s: nat): (b: Block)
    requires |x| == c.data && Sized(x, c.size) && s < c.Packets()
    ensures |b| == c.size
  {
    match RoleOf(c, s)
    case Data(i) => x[i]
    case Fec(j) => ParityBlock(x, j, c.size)
  }

  // Data blocks that agree with every data packet that arrived and with the FEC packets used for the others
  ghost predicate IsRecovery(c: Config, packets: seq<PacketView>, x: seq<Block>)
    requires Shaped(c, packets) && Recoverable(c, packets)
  {
    && |x| == c.data && Sized(x, c.size)
    && (forall i :: 0 <= i < c.data && !MissingFlags(c, packets)[i] ==> x[i] == packets[DataSlot(c, i)].data)
    && (forall k :: 0 <= k < |Missing(c, packets)| ==> FecUsed(c, packets, x, Good(c, packets)[k]))
  }

  ghost predicate FecUsed(c: Config, packets: seq<PacketView>, x: seq<Block>, j: nat)
    requires Shaped(c, packets) && Sized(x, c.size)
  {
    j < c.fec && (SlotFits(c, Fec(j)); packets[FecSlot(c, j)] == Present(ParityBlock(x, j, c.size)))
  }

  ghost function Recovery(c: Config, packets: seq<PacketView>): seq<Block>
    requires Shaped(c, packets) && Recoverable(c, packets)
  {
    if x :| IsRecovery(c, packets, x) then x else []
  }

  // A block can be recovered in at most one way.
  lemma RecoveryUnique(c: Config, packets: seq<PacketView>, x: seq<Block>)
    requires c.Valid() && Shaped(c, packets) && Recoverable(c, packets) && IsRecovery(c, packets, x)
    ensures Recovery(c, packets) == x
  {
    var y := Recovery(c, packets);
    assert IsRecovery(c, packets, y);
    var erased := Missing(c, packets);
    var nos := Good(c, packets)[..|erased|];
    SelectIsOrdered(MissingFlags(c, packets), c.data);
    SelectIsOrdered(GoodFlags(c, packets), c.fec);
    forall i | 0 <= i < c.data && i !in erased ensures x[i] == y[i] {
      assert !MissingFlags(c, packets)[i];
    }
    forall k, p | 0 <= k < |nos| && 0 <= p < c.size
      ensures Parity(x, nos[k], p, c.data) == Parity(y, nos[k], p, c.data)
    {
      assert FecUsed(c, packets, x, Good(c, packets)[k]) && FecUsed(c, packets, y, Good(c, packets)[k]);
      assert ParityBlock(x, nos[k], c.size)[p] == ParityBlock(y, nos[k], c.size)[p];
    }
    ErasedDetermined(x, y, c.size, nos, erased);
  }

  // ------------------------------------------------------------------ what a decoded block writes

  // The payload length in a block's header, least significant byte first
  ghost function HeaderLength(b: Block): int
    requires PAYLOAD_HEADER <= |b|
  {
    Index(b[0]) + 0x100 * Index(b[1]) + 0x1_0000 * Index(b[2]) + 0x100_0000 * Index(b[3])
  }

  lemma HeaderLengthNonnegative(b: Block)
    requires PAYLOAD_HEADER <= |b|
    ensures HeaderLength(b) >= 0
  {
    IndexIsInt(b[0]); IndexIsInt(b[1]); IndexIsInt(b[2]); IndexIsInt(b[3]);
  }

  // The bytes written for a block; a length beyond the packet size is cut to the packet size.
  ghost function Payload(c: Config, b: Block, tail: seq<bv8>): seq<bv8>
    requires PAYLOAD_HEADER <= |b| == c.size && |tail| == PAYLOAD_HEADER
  {
    HeaderLengthNonnegative(b);
    (b + tail)[PAYLOAD_HEADER..PAYLOAD_HEADER + Min(HeaderLength(b), c.size)]
  }

  // As many bytes as the header says, or as the packet has, from behind the header on
  lemma PayloadBytes(c: Config, b: Block, tail: seq<bv8>)
    requires PAYLOAD_HEADER <= |b| == c.size && |tail| == PAYLOAD_HEADER
    ensures |Payload(c, b, tail)| == if HeaderLength(b) <= |b| then HeaderLength(b) else |b|
    ensures forall i :: 0 <= i < |Payload(c, b, tail)| ==>
      Payload(c, b, tail)[i] == if 4 + i < |b| then b[4 + i] else tail[4 + i - |b|]
  {
    HeaderLengthNonnegative(b);
  }

  // What is written for data packet i: nothing when it did not arrive and the block is not recoverable
  ghost function WrittenFor(c: Config, packets: seq<PacketView>, tails: seq<seq<bv8>>, i: nat): seq<bv8>
    requires c.Valid() && Shaped(c, packets) && i < c.data && Tails(c, tails)
  {
    SlotFits(c, Data(i));
    if Recoverable(c, packets) then
      var x := Recovery(c, packets);
      if |x| == c.data && Sized(x, c.size) then Payload(c, x[i], tails[i]) else []
    else if packets[DataSlot(c, i)].Present? then Payload(c, packets[DataSlot(c, i)].data, tails[i])
    else []
  }

  ghost function Written(c: Config, packets: seq<PacketView>, tails: seq<seq<bv8>>, n: nat): seq<bv8>
    requires c.Valid() && Shaped(c, packets) && n <= c.data && Tails(c, tails)
  {
    if n == 0 then [] else Written(c, packets, tails, n - 1) + WrittenFor(c, packets, tails, n - 1)
  }

  ghost predicate Tails(c: Config, tails: seq<seq<bv8>>) {
    |tails| == c.data && forall i :: 0 <= i < |tails| ==> |tails[i]| == PAYLOAD_HEADER
  }

  // ------------------------------------------------------------------ one packet

  function EmptyBlock(c: Config, num: int): (b: BlockView)
    ensures b.num == num && |b.packets| == c.Packets() && forall k :: 0 <= k < |b.packets| ==> b.packets[k] == Absent
  {
    BlockView(num, seq(c.Packets(), i => Absent))
  }

  function UnusedBlocks(c: Config): (r: seq<BlockView>)
    ensures |r| == c.buffers && forall b :: 0 <= b < |r| ==> r[b] == EmptyBlock(c, -1)
  {
    seq(c.buffers, i requires 0 <= i < c.buffers => EmptyBlock(c, -1))
  }

  ghost predicate ShapedState(c: Config, s: RxState) {
    && |s.blocks| == c.buffers && s.since <= |s.journal|
    && (forall b :: 0 <= b < |s.blocks| ==> Shaped(c, s.blocks[b].packets) && -1 <= s.blocks[b].num)
    && (forall e :: 0 <= e < |s.journal| ==> Shaped(c, s.journal[e].packets))
  }

  function InitialState(c: Config): RxState {
    RxState(UnusedBlocks(c), -1, Status(0, 0, 0, 0, 0), [], [], 0)
  }

  // The first buffer with the smallest block number among the first n
  function Oldest(blocks: seq<BlockView>, n: nat): (r: nat)
    requires 0 < n <= |blocks|
    ensures r < n
  {
    if n == 1 then 0
    else if blocks[n - 1].num < blocks[Oldest(blocks, n - 1)].num then n - 1 else Oldest(blocks, n - 1)
  }

  lemma {:induction false} OldestIsLeast(blocks: seq<BlockView>, n: nat)
    requires 0 < n <= |blocks|
    ensures forall b :: 0 <= b < n ==> blocks[Oldest(blocks, n)].num <= blocks[b].num
  {
    if n > 1 { OldestIsLeast(blocks, n - 1); }
  }

  ghost function CountBlock(c: Config, st: Status, packets: seq<PacketView>): Status
    requires |packets| == c.Packets()
  {
    var lost := |Missing(c, packets)| + (c.fec - |Good(c, packets)|);
    st.(receivedBlocks := Wrap(st.receivedBlocks + 1),
        damagedBlocks := if Recoverable(c, packets) then st.damagedBlocks else Wrap(st.damagedBlocks + 1),
        lostPackets := Wrap(st.lostPackets + lost),
        receivedPackets := Wrap(st.receivedPackets + (c.Packets() - lost)))
  }

  // Decodes the block in buffer b and empties the buffer.
  ghost function Evict(c: Config, s: RxState, b: nat, tails: seq<seq<bv8>>): (r: RxState)
    requires c.Valid() && ShapedState(c, s) && b < c.buffers && Tails(c, tails)
    ensures ShapedState(c, r)
  {
    var block := s.blocks[b];
    s.(blocks := s.blocks[b := EmptyBlock(c, block.num)],
       status := CountBlock(c, s.status, block.packets),
       output := s.output + Written(c, block.packets, tails, c.data),
       journal := s.journal + [Eviction(block.num, block.packets)])
  }

  // A block number far below the window means that the transmitter was restarted.
  predicate Restarts(c: Config, s: RxState, num: int) { num + 128 * c.buffers < s.maxBlockNum }

  ghost function Restarted(c: Config, s: RxState): (r: RxState)
    requires ShapedState(c, s)
    ensures ShapedState(c, r)
  {
    s.(blocks := UnusedBlocks(c),
       status := Status(0, 0, 0, 0, Wrap(s.status.txRestarts + 1)), since := |s.journal|)
  }

  // Makes room for a block above all others, decoding the oldest block if there is no unused buffer.
  ghost function Admit(c: Config, s: RxState, num: nat, tails: seq<seq<bv8>>): (r: RxState)
    requires c.Valid() && ShapedState(c, s) && Tails(c, tails)
    ensures ShapedState(c, r)
  {
    var b := Oldest(s.blocks, c.buffers);
    var s' := if s.blocks[b].num != -1 then Evict(c, s, b, tails) else s;
    s'.(blocks := s'.blocks[b := s'.blocks[b].(num := num)], maxBlockNum := num)
  }

  // The first buffer with block number num, or the number of buffers
  function Find(blocks: seq<BlockView>, num: int, n: nat): (r: nat)
    requires n <= |blocks|
    ensures r <= n && (r < n ==> blocks[r].num == num) && forall b :: 0 <= b < r ==> blocks[b].num != num
  {
    if n == 0 then 0
    else
      var b := Find(blocks, num, n - 1);
      if b < n - 1 then b else if blocks[n - 1].num == num then n - 1 else n
  }

  // The first size bytes of a buffer that held before and then had a packet copied over its start
  function Overwritten(before: seq<bv8>, payload: seq<bv8>, size: nat): (r: seq<bv8>)
    requires |before| == size
    ensures |r| == size
  {
    if size <= |payload| then payload[..size] else payload + before[|payload|..]
  }

  // Puts the packet in its place unless that place is taken or its block is not buffered.
  ghost function Store(c: Config, s: RxState, num: nat, slot: nat, payload: seq<bv8>, left: seq<bv8>): (r: RxState)
    requires c.Valid() && ShapedState(c, s) && slot < c.Packets() && |left| == c.size
    ensures ShapedState(c, r)
  {
    var b := Find(s.blocks, num, c.buffers);
    if b == c.buffers || s.blocks[b].packets[slot].Present? then s
    else
      var packets := s.blocks[b].packets[slot := Present(Overwritten(left, payload, c.size))];
      s.(blocks := s.blocks[b := s.blocks[b].(packets := packets)])
  }

  // The state in which the packet of block num is stored: after a restart or a new block, or as it was
  ghost function Admitted(c: Config, s: RxState, num: nat, tails: seq<seq<bv8>>): (r: RxState)
    requires c.Valid() && ShapedState(c, s) && Tails(c, tails)
    ensures ShapedState(c, r)
  {
    if Restarts(c, s, num) then Admit(c, Restarted(c, s), num, tails)
    else if num > s.maxBlockNum then Admit(c, s, num, tails)
    else s
  }

  // process_payload: one packet with an intact checksum
  ghost function Step(c: Config, s: RxState, seqNr: nat, payload: seq<bv8>, left: Leftover): (r: RxState)
    requires c.Valid() && ShapedState(c, s) && |left.slot| == c.size && Tails(c, left.tails)
    ensures ShapedState(c, r)
  {
    var num := BlockNumber(c, seqNr);
    Store(c, Admitted(c, s, num, left.tails), num, Position(c, seqNr), payload, left.slot)
  }
}
