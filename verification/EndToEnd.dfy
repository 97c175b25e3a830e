/** From the bytes the sender is fed to the bytes the receiver writes. */
module EndToEnd {
  import opened GaloisField
  import opened ErasureCodeSpec
  import opened Interleaving
  import opened BlockProtocol
  import opened BlockRuns
  import opened Sequences
  import opened Arrivals
  import opened Deliveries
  import opened Transmitter
  import opened BlockReceiver

  // ------------------------------------------------------------------ what the sender sends

  // The packet at position s of block b
  ghost function PacketAt(c: Config, blocks: seq<seq<Block>>, b: nat, s: nat): Packet
    requires SentBlocks(c, blocks) && b < |blocks| && s < c.Packets()
  {
    Packet(FirstNumber(c, b) + s, PacketContent(c, blocks[b], s))
  }

  ghost predicate IsPacket(c: Config, x: seq<Block>, first: nat, skip: int, s: nat, p: Packet)
    requires |x| == c.data && Sized(x, c.size)
  {
    s < c.Packets() && !Skipped(c, skip, s) && p == Packet(first + s, PacketContent(c, x, s))
  }

  lemma LastPacketIn(c: Config, x: seq<Block>, first: nat, skip: int, s: nat, p: Packet)
    requires |x| == c.data && Sized(x, c.size) && s < c.Packets() && IsPacket(c, x, first, skip, s, p)
    ensures p in BlockPackets(c, x, first, skip, s + 1)
  {}

  lemma {:induction false} PacketIn(c: Config, x: seq<Block>, first: nat, skip: int, n: nat, s: nat, p: Packet)
    requires |x| == c.data && Sized(x, c.size) && s < n <= c.Packets() && IsPacket(c, x, first, skip, s, p)
    ensures p in BlockPackets(c, x, first, skip, n)
  {
    if s < n - 1 { PacketIn(c, x, first, skip, n - 1, s, p); } else { LastPacketIn(c, x, first, skip, s, p); }
  }

  lemma {:induction false} PacketFrom(c: Config, x: seq<Block>, first: nat, skip: int, n: nat, p: Packet)
    returns (s: nat)
    requires |x| == c.data && Sized(x, c.size) && n <= c.Packets() && p in BlockPackets(c, x, first, skip, n)
    ensures s < n && IsPacket(c, x, first, skip, s, p)
  {
    s := n - 1;
    if p in BlockPackets(c, x, first, skip, n - 1) { s := PacketFrom(c, x, first, skip, n - 1, p); }
  }

  // The packet at position s of block b is p, and not skipped.
  ghost predicate IsSent(c: Config, blocks: seq<seq<Block>>, skips: seq<int>, b: nat, s: nat, p: Packet)
    requires SentBlocks(c, blocks) && |skips| == |blocks|
  {
    b < |blocks| && s < c.Packets() && !Skipped(c, skips[b], s) && p == PacketAt(c, blocks, b, s)
  }

  lemma LastBlockIsSent(c: Config, blocks: seq<seq<Block>>, skips: seq<int>, p: Packet)
    requires SentBlocks(c, blocks) && |skips| == |blocks| > 0
    ensures var b := |blocks| - 1;
            p in BlockPackets(c, blocks[b], FirstNumber(c, b), skips[b], c.Packets()) <==>
              exists s: nat :: IsSent(c, blocks, skips, b, s, p)
  {
    var b := |blocks| - 1;
    if p in BlockPackets(c, blocks[b], FirstNumber(c, b), skips[b], c.Packets()) {
      var s := PacketFrom(c, blocks[b], FirstNumber(c, b), skips[b], c.Packets(), p);
      assert IsSent(c, blocks, skips, b, s, p);
    }
    if s: nat :| IsSent(c, blocks, skips, b, s, p) {
      PacketIn(c, blocks[b], FirstNumber(c, b), skips[b], c.Packets(), s, p);
    }
  }

  lemma EarlierBlockIsSent(c: Config, blocks: seq<seq<Block>>, skips: seq<int>, b: nat, s: nat, p: Packet)
    requires SentBlocks(c, blocks) && |skips| == |blocks| && b + 1 < |blocks|
    ensures SentBlocks(c, blocks[..|blocks| - 1])
    ensures IsSent(c, blocks[..|blocks| - 1], skips[..|blocks| - 1], b, s, p) <==> IsSent(c, blocks, skips, b, s, p)
  {}

  // Exactly the packets of the blocks, except skipped FEC packets, are sent.
  lemma {:induction false} TransmissionsAre(c: Config, blocks: seq<seq<Block>>, skips: seq<int>, p: Packet)
    requires SentBlocks(c, blocks) && |skips| == |blocks|
    ensures p in Transmissions(c, blocks, skips) <==> exists b: nat, s: nat :: IsSent(c, blocks, skips, b, s, p)
  {
    if blocks != [] {
      var last := |blocks| - 1;
      TransmissionsAre(c, blocks[..last], skips[..last], p);
      LastBlockIsSent(c, blocks, skips, p);
      if p in Transmissions(c, blocks[..last], skips[..last]) {
        var b: nat, s: nat :| IsSent(c, blocks[..last], skips[..last], b, s, p);
        EarlierBlockIsSent(c, blocks, skips, b, s, p);
      }
      forall b: nat, s: nat | IsSent(c, blocks, skips, b, s, p) ensures p in Transmissions(c, blocks, skips) {
        if b < last { EarlierBlockIsSent(c, blocks, skips, b, s, p); }
      }
    }
  }

  ghost predicate AscendingNumbers(ps: seq<Packet>) { forall i, j :: 0 <= i < j < |ps| ==> ps[i].seqNr < ps[j].seqNr }

  ghost predicate Within(ps: seq<Packet>, from: nat, to: nat) { forall i :: 0 <= i < |ps| ==> from <= ps[i].seqNr < to }

  lemma {:induction false} BlockAscends(c: Config, x: seq<Block>, first: nat, skip: int, n: nat)
    requires |x| == c.data && Sized(x, c.size) && n <= c.Packets()
    ensures AscendingNumbers(BlockPackets(c, x, first, skip, n))
            && Within(BlockPackets(c, x, first, skip, n), first, first + n)
  {
    if n > 0 { BlockAscends(c, x, first, skip, n - 1); }
  }

  // Sequence numbers only grow: no number is used twice.
  lemma {:induction false} NumbersAscend(c: Config, blocks: seq<seq<Block>>, skips: seq<int>)
    requires SentBlocks(c, blocks) && |skips| == |blocks|
    ensures AscendingNumbers(Transmissions(c, blocks, skips))
            && Within(Transmissions(c, blocks, skips), 0, FirstNumber(c, |blocks|))
  {
    if blocks != [] {
      var b := |blocks| - 1;
      NumbersAscend(c, blocks[..b], skips[..b]);
      BlockAscends(c, blocks[b], FirstNumber(c, b), skips[b], c.Packets());
    }
  }

  // ------------------------------------------------------------------ the stream the receiver sees

  ghost function ZeroBlock(c: Config): (x: seq<Block>)
    requires c.Valid()
    ensures SentBlock(c, x)
  {
    IndexIsInt(0);
    seq(c.data, i => seq(c.size, p => 0 as bv8))
  }

  // The blocks sent, followed by blocks that never are
  ghost function BlockAt(c: Config, blocks: seq<seq<Block>>, b: nat): (x: seq<Block>)
    requires c.Valid() && SentBlocks(c, blocks)
    ensures SentBlock(c, x)
  {
    if b < |blocks| then blocks[b] else ZeroBlock(c)
  }

  ghost function StreamOf(c: Config, blocks: seq<seq<Block>>): (sent: Stream)
    requires c.Valid() && SentBlocks(c, blocks)
    ensures IsStream(c, sent) && forall b: nat :: b < |blocks| ==> sent(b) == blocks[b]
  {
    (b: nat) => BlockAt(c, blocks, b)
  }

  lemma {:induction false} PayloadsOfStream(c: Config, blocks: seq<seq<Block>>, m: nat)
    requires c.Valid() && SentBlocks(c, blocks) && m <= |blocks|
    ensures StreamPayloads(c, StreamOf(c, blocks), m) == AllPayloads(c, blocks[..m])
  {
    if m > 0 {
      PayloadsOfStream(c, blocks, m - 1);
      assert blocks[..m][..m - 1] == blocks[..m - 1];
    }
  }

  lemma {:induction false} PayloadsGrow(c: Config, blocks: seq<seq<Block>>, m: nat)
    requires c.Valid() && SentBlocks(c, blocks) && m <= |blocks|
    ensures AllPayloads(c, blocks[..m]) <= AllPayloads(c, blocks)
    decreases |blocks|
  {
    if m < |blocks| {
      var b := |blocks| - 1;
      PayloadsGrow(c, blocks[..b], m);
      assert blocks[..b][..m] == blocks[..m];
    } else {
      assert blocks[..m] == blocks;
    }
  }

  // A packet that was sent, possibly followed by bytes the link added
  ghost predicate Carries(sent: seq<Packet>, seqNr: nat, payload: seq<bv8>) {
    exists p :: p in sent && p.seqNr == seqNr && p.payload <= payload
  }

  ghost predicate FromSender(ins: seq<Input>, sent: seq<Packet>) {
    forall i :: 0 <= i < |ins| ==> Carries(sent, ins[i].seqNr, ins[i].payload)
  }

  lemma SentIsGenuine(c: Config, blocks: seq<seq<Block>>, skips: seq<int>, x: Input, p: Packet)
    requires c.Valid() && SentBlocks(c, blocks) && |skips| == |blocks|
    requires p in Transmissions(c, blocks, skips) && p.seqNr == x.seqNr && p.payload <= x.payload
    ensures GenuineInput(c, StreamOf(c, blocks), x.seqNr, x.payload) && BlockNumber(c, x.seqNr) < |blocks|
  {
    TransmissionsAre(c, blocks, skips, p);
    var b: nat, s: nat :| IsSent(c, blocks, skips, b, s, p);
    PacketIsGenuine(c, blocks, x, b, s, p);
  }

  lemma PacketIsGenuine(c: Config, blocks: seq<seq<Block>>, x: Input, b: nat, s: nat, p: Packet)
    requires c.Valid() && SentBlocks(c, blocks) && b < |blocks| && s < c.Packets() && p == PacketAt(c, blocks, b, s)
    requires p.seqNr == x.seqNr && p.payload <= x.payload
    ensures GenuineInput(c, StreamOf(c, blocks), x.seqNr, x.payload) && BlockNumber(c, x.seqNr) == b
  {
    NumberOfPacket(c, b, s);
    assert StreamOf(c, blocks)(b) == blocks[b];
  }

  lemma ArrivalsAreGenuine(c: Config, blocks: seq<seq<Block>>, skips: seq<int>, ins: seq<Input>)
    requires Inputs(c, ins) && SentBlocks(c, blocks) && |skips| == |blocks|
             && FromSender(ins, Transmissions(c, blocks, skips))
    ensures GenuineInputs(c, StreamOf(c, blocks), ins) && Highest(c, ins) < |blocks|
  {
    forall i | 0 <= i < |ins|
      ensures GenuineInput(c, StreamOf(c, blocks), ins[i].seqNr, ins[i].payload) && Number(c, ins[i]) < |blocks|
    {
      var p :| p in Transmissions(c, blocks, skips) && p.seqNr == ins[i].seqNr && p.payload <= ins[i].payload;
      SentIsGenuine(c, blocks, skips, ins[i], p);
    }
    HighestBelow(c, ins, |blocks|);
  }

  // No packet was taken for a restart, and enough packets were kept of every block that left the window.
  ghost predicate InTime(c: Config, ins: seq<Input>)
    requires Inputs(c, ins)
  {
    NoneTooLate(c, ins) && EnoughKept(c, ins)
  }

  // Whatever the link does to the packets, the output is told from which of them arrived when. If all arrived in time
  // it is the whole blocks that led, in order; if none was overtaken, it is the first bytes the sender was fed.
  lemma FedIsWritten(c: Config, fed: seq<bv8>, blocks: seq<seq<Block>>, skips: seq<int>, sent: seq<Packet>, seqNr: nat,
                     chunks: seq<seq<bv8>>, ins: seq<Input>)
    requires History(c, fed, blocks, skips, sent, seqNr, chunks)
    requires Inputs(c, ins) && FromSender(ins, sent)
    ensures Run(c, ins).output == Delivery(c, StreamOf(c, blocks), ins)
    ensures Finished(c, ins) <= |blocks|
    ensures InTime(c, ins) ==>
              Run(c, ins).output == Flatten(WholeBlocks(c, StreamOf(c, blocks), Leaders(c, ins), Finished(c, ins)))
    ensures InTime(c, ins) && NoneOvertaken(c, ins) ==>
              Run(c, ins).output == AllPayloads(c, blocks[..Finished(c, ins)]) <= fed
  {
    ArrivalsAreGenuine(c, blocks, skips, ins);
    EveryDelivery(c, StreamOf(c, blocks), ins);
    FinishedWereSent(c, blocks, ins);
    if InTime(c, ins) {
      LeadersDelivered(c, StreamOf(c, blocks), ins);
      if NoneOvertaken(c, ins) {
        StreamDelivered(c, StreamOf(c, blocks), ins);
        PayloadsOfStream(c, blocks, Finished(c, ins));
        PayloadsGrow(c, blocks, Finished(c, ins));
      }
    }
  }

  // There are no more leaders than blocks.
  lemma FinishedWereSent(c: Config, blocks: seq<seq<Block>>, ins: seq<Input>)
    requires c.Valid() && Highest(c, ins) < |blocks|
    ensures Finished(c, ins) <= |blocks|
  {
    var l := Leaders(c, ins);
    if l != [] { AscendingAtLeast(l, |l| - 1); }
  }

  // ------------------------------------------------------------------ the receiver at work

  // The state machine's inputs for these packets
  ghost predicate InputsOf(c: Config, packets: seq<Packet>, ins: seq<Input>) {
    Inputs(c, ins) && |ins| == |packets|
      && forall i :: 0 <= i < |ins| ==> ins[i].seqNr == packets[i].seqNr && ins[i].payload == packets[i].payload
  }

  lemma RunNext(c: Config, packets: seq<Packet>, ins: seq<Input>, p: Packet, left: Leftover)
    requires InputsOf(c, packets, ins) && |left.slot| == c.size && Tails(c, left.tails)
    ensures InputsOf(c, packets + [p], ins + [Input(p.seqNr, p.payload, left)])
    ensures Run(c, ins + [Input(p.seqNr, p.payload, left)]) == Step(c, Run(c, ins), p.seqNr, p.payload, left)
  {
    assert (ins + [Input(p.seqNr, p.payload, left)])[..|ins|] == ins;
  }

  // The receiver stands where the run over these packets ends.
  ghost predicate At(r: Receiver, packets: seq<Packet>, ins: seq<Input>)
    reads r, r.repr, r.t.gfExp, r.t.gfLog, r.t.inverse, r.t.gfMulTable
  {
    r.Valid() && r.Searchable() && InputsOf(r.c, packets, ins) && r.state == Run(r.c, ins)
  }

  ghost predicate Acceptable(c: Config, p: Packet) {
    c.Packets() > 0 && BlockNumber(c, p.seqNr) < INT_MAX && |p.payload| <= MAX_PACKET_LENGTH
  }

  method ReceiveNext(r: Receiver, p: Packet, ghost packets: seq<Packet>, ghost ins: seq<Input>)
    returns (ghost ins': seq<Input>)
    requires At(r, packets, ins) && Acceptable(r.c, p)
    modifies r, r.repr
    ensures At(r, packets + [p], ins')
  {
    ghost var left := r.ProcessPayload(p.seqNr, p.payload);
    RunNext(r.c, packets, ins, p, left);
    ins' := ins + [Input(p.seqNr, p.payload, left)];
  }

  /** A fresh receiver takes packets one after the other. */
  method ReceiveAll(r: Receiver, packets: seq<Packet>) returns (ghost ins: seq<Input>)
    requires r.Valid() && r.Searchable() && r.state == InitialState(r.c)
    requires forall i :: 0 <= i < |packets| ==> Acceptable(r.c, packets[i])
    modifies r, r.repr
    ensures At(r, packets, ins)
  {
    ins := [];
    for i := 0 to |packets|
      invariant At(r, packets[..i], ins)
    {
      PrefixNext(packets, i);
      ins := ReceiveNext(r, packets[i], packets[..i], ins);
    }
    PrefixWhole(packets);
  }

  lemma PrefixNext(packets: seq<Packet>, i: nat)
    requires i < |packets|
    ensures packets[..i + 1] == packets[..i] + [packets[i]]
  {}

  lemma PrefixWhole(packets: seq<Packet>)
    ensures packets[..|packets|] == packets
  {}

  ghost predicate FromLink(arrivals: seq<Packet>, sent: seq<Packet>) {
    forall i :: 0 <= i < |arrivals| ==> Carries(sent, arrivals[i].seqNr, arrivals[i].payload)
  }

  // Sender and receiver together: what is written, and when it is the first bytes of those fed.
  lemma WrittenIsFed(tx: Sender, rx: Receiver, arrivals: seq<Packet>, ins: seq<Input>)
    requires tx.Valid() && rx.c == tx.c && At(rx, arrivals, ins) && FromLink(arrivals, tx.sent)
    ensures SentBlocks(rx.c, tx.blocks) && rx.written == Delivery(rx.c, StreamOf(rx.c, tx.blocks), ins)
    ensures Finished(rx.c, ins) <= |tx.blocks|
    ensures InTime(rx.c, ins) && NoneOvertaken(rx.c, ins) ==>
              rx.written == AllPayloads(rx.c, tx.blocks[..Finished(rx.c, ins)]) <= tx.fed
  {
    var fed, blocks, skips, sent, seqNr, chunks := tx.fed, tx.blocks, tx.skips, tx.sent, tx.seqNr, tx.chunks;
    FedIsWritten(rx.c, fed, blocks, skips, sent, seqNr, chunks, ins);
  }
}
