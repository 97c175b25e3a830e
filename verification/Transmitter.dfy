/** The sender: user bytes are packed into data packets, a full block is encoded and sent interleaved. */
module Transmitter {
  import opened Sequences
  import Memory
  import opened GaloisTables
  import opened ErasureCodeSpec
  import opened ErasureCode
  import opened Interleaving
  import opened BlockProtocol
  import opened PayloadHeader
  import opened BlockRuns
  import opened Arrivals

  datatype Packet = Packet(seqNr: nat, payload: seq<bv8>)

  // While skip lasts, every other FEC packet of a block is left out.
  ghost predicate Skipped(c: Config, skip: int, s: nat) {
    match RoleOf(c, s)
    case Data(_) => false
    case Fec(j) => j < skip && j % 2 == 1
  }

  // The packets sent for the first n positions of a block
  ghost function BlockPackets(c: Config, x: seq<Block>, first: nat, skip: int, n: nat): seq<Packet>
    requires |x| == c.data && Sized(x, c.size) && n <= c.Packets()
  {
    if n == 0 then []
    else
      BlockPackets(c, x, first, skip, n - 1) +
      (if Skipped(c, skip, n - 1) then [] else [Packet(first + n - 1, PacketContent(c, x, n - 1))])
  }

  ghost predicate SentBlocks(c: Config, blocks: seq<seq<Block>>) {
    forall b :: 0 <= b < |blocks| ==> SentBlock(c, blocks[b])
  }

  // The packets sent for all blocks; skips holds the value of skip at the start of each.
  ghost function Transmissions(c: Config, blocks: seq<seq<Block>>, skips: seq<int>): seq<Packet>
    requires SentBlocks(c, blocks) && |skips| == |blocks|
  {
    if blocks == [] then []
    else
      var b := |blocks| - 1;
      Transmissions(c, blocks[..b], skips[..b]) + BlockPackets(c, blocks[b], FirstNumber(c, b), skips[b], c.Packets())
  }

  // ------------------------------------------------------------------ sending one block

  ghost predicate ParityBlocks(fec: seq<array<bv8>>, x: seq<Block>, size: nat)
    requires Fits(fec, size) && Sized(x, size)
    reads fec
  {
    forall j :: 0 <= j < |fec| ==> fec[j][..size] == ParityBlock(x, j, size)
  }

  method EncodeBlock(c: Config, t: Tables, data: seq<array<bv8>>, ghost x: seq<Block>) returns (fec: seq<array<bv8>>)
    requires c.Valid() && t.Valid() && |data| == c.data && Buffers(t, data, [], c.size)
             && ErasureCode.Holds(data, x, c.size)
    ensures |fec| == c.fec && Fits(fec, c.size) && ParityBlocks(fec, x, c.size)
  {
    fec := NewPool(c.fec, MAX_USER_PACKET_LENGTH, t, data, c.size);
    FecEncode(t, c.size, data, fec);
    assert Contents(data, c.size) == x;
    forall j | 0 <= j < |fec| ensures fec[j][..c.size] == ParityBlock(x, j, c.size) {
      assert Summed(fec[j][..], x, j, c.data, c.size);
    }
  }

  method NewPool(n: nat, length: nat, t: Tables, data: seq<array<bv8>>, size: nat) returns (pool: seq<array<bv8>>)
    requires Buffers(t, data, [], size) && t.Valid() && size <= length
    ensures |pool| == n && Buffers(t, data, pool, size) && fresh(pool)
  {
    pool := [];
    for i := 0 to n
      invariant |pool| == i && Buffers(t, data, pool, size) && fresh(pool)
    {
      var a := new bv8[length](_ => 0);
      pool := pool + [a];
    }
  }

  // The packets sent are those for the first n positions.
  ghost predicate SentUpTo(sent: seq<Packet>, c: Config, x: seq<Block>, first: nat, skip: int, n: nat) {
    |x| == c.data && Sized(x, c.size) && n <= c.Packets() && sent == BlockPackets(c, x, first, skip, n)
  }

  method SendPacket(sent: seq<Packet>, seqNr: nat, block: array<bv8>, size: nat) returns (r: seq<Packet>)
    requires size <= block.Length
    ensures r == sent + [Packet(seqNr, block[..size])]
  {
    r := sent + [Packet(seqNr, block[..size])];
  }

  method SendData(c: Config, block: array<bv8>, sent: seq<Packet>, seqNr: nat, ghost di: nat, ghost s: nat,
                  ghost x: seq<Block>, ghost first: nat, ghost skip: int)
    returns (sent': seq<Packet>)
    requires di < c.data && s == DataSlot(c, di) && seqNr == first + s && SentUpTo(sent, c, x, first, skip, s)
    requires c.size <= block.Length && block[..c.size] == x[di]
    ensures SentUpTo(sent', c, x, first, skip, s + 1)
  {
    SlotFits(c, Data(di)); SlotsAreBijective(c, 0, Data(di));
    sent' := SendPacket(sent, seqNr, block, c.size);
  }

  // FEC packet fi, left out if skip lasts and the number of such packets so far is odd
  method SendFec(c: Config, block: array<bv8>, fi: nat, sent: seq<Packet>, seqNr: nat, skipLeft: int, counterFec: nat,
                 ghost s: nat, ghost x: seq<Block>, ghost first: nat, ghost skip: int)
    returns (sent': seq<Packet>, counterFec': nat)
    requires fi < c.fec && s == FecSlot(c, fi) && seqNr == first + s && SentUpTo(sent, c, x, first, skip, s)
    requires c.size <= block.Length && block[..c.size] == ParityBlock(x, fi, c.size)
    requires skipLeft == skip - fi && counterFec == CountedFec(fi, skip)
    ensures SentUpTo(sent', c, x, first, skip, s + 1) && counterFec' == CountedFec(fi + 1, skip)
  {
    SlotFits(c, Fec(fi)); SlotsAreBijective(c, 0, Fec(fi));
    sent', counterFec' := sent, counterFec;
    if skipLeft < 1 {
      sent' := SendPacket(sent, seqNr, block, c.size);
    } else {
      if counterFec % 2 == 0 {
        sent' := SendPacket(sent, seqNr, block, c.size);
      }
      counterFec' := counterFec + 1;
    }
  }

  // FEC packets that came up while skip lasted
  ghost function CountedFec(fi: nat, skip: int): nat {
    if fi < skip then fi else if skip < 0 then 0 else skip
  }

  // Each round lessens skip by one.
  ghost predicate Lasts(skip: int, round: nat) { skip - round >= 1 }

  // The FEC packets before packet j that came up while skip lasted
  ghost function CameUp(skip: int, j: nat): set<nat> { set i: nat | i < j && Lasts(skip, i) }

  lemma {:induction false} CameUpCount(skip: int, j: nat)
    ensures |CameUp(skip, j)| == CountedFec(j, skip)
  {
    if j > 0 {
      CameUpCount(skip, j - 1);
      assert CameUp(skip, j) == if Lasts(skip, j - 1) then CameUp(skip, j - 1) + {j - 1} else CameUp(skip, j - 1);
    }
  }

  // What is left out: the FEC packets that come up while skip lasts, after an odd number of others that did.
  lemma LeftOutIff(c: Config, skip: int, s: nat)
    requires s < c.Packets()
    ensures Skipped(c, skip, s) <==>
              exists j :: 0 <= j < c.fec && s == FecSlot(c, j) && Lasts(skip, j) && |CameUp(skip, j)| % 2 == 1
  {
    SlotsAreBijective(c, s, RoleOf(c, s));
    forall j | 0 <= j < c.fec && s == FecSlot(c, j) ensures RoleOf(c, s) == Fec(j) { SlotsAreBijective(c, s, Fec(j)); }
    if RoleOf(c, s).Fec? { CameUpCount(skip, RoleOf(c, s).index); }
  }

  // One data packet and one FEC packet, as far as there are any
  method SendRound(c: Config, data: seq<array<bv8>>, fec: seq<array<bv8>>, di: nat, fi: nat, sent: seq<Packet>,
                   seqNr: nat, skipLeft: int, counterFec: nat, ghost s: nat, ghost x: seq<Block>, ghost first: nat,
                   ghost skip: int)
    returns (sent': seq<Packet>, di': nat, fi': nat, seqNr': nat, counterFec': nat, ghost s': nat)
    requires |data| == c.data && |fec| == c.fec && Fits(data, c.size) && Fits(fec, c.size)
    requires |x| == c.data && Sized(x, c.size) && (di < c.data ==> data[di][..c.size] == x[di])
    requires fi < c.fec ==> fec[fi][..c.size] == ParityBlock(x, fi, c.size)
    requires InStep(c, di, fi) && s == di + fi && seqNr == first + s && SentUpTo(sent, c, x, first, skip, s)
    requires counterFec == CountedFec(fi, skip) && skipLeft == skip - Rounds(di, fi)
    ensures di' == (if di < c.data then di + 1 else di) && fi' == (if fi < c.fec then fi + 1 else fi)
    ensures s' == di' + fi' && seqNr' == first + s' && SentUpTo(sent', c, x, first, skip, s')
            && counterFec' == CountedFec(fi', skip)
  {
    SlotsInStep(c, di, fi);
    sent', di', fi', seqNr', counterFec', s' := sent, di, fi, seqNr, counterFec, s;
    if di < c.data {
      sent' := SendData(c, data[di], sent, seqNr, di, s, x, first, skip);
      seqNr', di', s' := seqNr + 1, di + 1, s + 1;
    }
    if fi < c.fec {
      sent', counterFec' := SendFec(c, fec[fi], fi, sent', seqNr', skipLeft, counterFec, s', x, first, skip);
      seqNr', fi', s' := seqNr' + 1, fi + 1, s' + 1;
    }
  }

  // The alternation of data and FEC packets
  method SendInterleaved(c: Config, data: seq<array<bv8>>, fec: seq<array<bv8>>, first: nat, skip: int,
                         ghost x: seq<Block>)
    returns (sent: seq<Packet>, skipLeft: int)
    requires |data| == c.data && |fec| == c.fec && Fits(data, c.size) && Fits(fec, c.size)
    requires ErasureCode.Holds(data, x, c.size) && ParityBlocks(fec, x, c.size)
    ensures sent == BlockPackets(c, x, first, skip, c.Packets())
    ensures skipLeft == skip - Rounds(c.data, c.fec)
  {
    sent, skipLeft := [], skip;
    var di, fi, seqNr, counterFec := 0, 0, first, 0;
    ghost var s := 0;
    while di < c.data || fi < c.fec
      invariant InStep(c, di, fi) && s == di + fi && seqNr == first + s && SentUpTo(sent, c, x, first, skip, s)
      invariant skipLeft == skip - Rounds(di, fi) && counterFec == CountedFec(fi, skip)
      decreases c.data - di + c.fec - fi
    {
      SlotsInStep(c, di, fi);
      sent, di, fi, seqNr, counterFec, s :=
        SendRound(c, data, fec, di, fi, sent, seqNr, skipLeft, counterFec, s, x, first, skip);
      skipLeft := skipLeft - 1;
    }
  }

  method SendBlock(c: Config, t: Tables, data: seq<array<bv8>>, first: nat, skip: int, ghost x: seq<Block>)
    returns (sent: seq<Packet>, skipLeft: int)
    requires c.Valid() && t.Valid() && |data| == c.data && Buffers(t, data, [], c.size)
             && ErasureCode.Holds(data, x, c.size)
    ensures sent == BlockPackets(c, x, first, skip, c.Packets())
    ensures skipLeft == skip - Rounds(c.data, c.fec)
  {
    var fec := EncodeBlock(c, t, data, x);
    sent, skipLeft := SendInterleaved(c, data, fec, first, skip, x);
  }

  function Rounds(di: nat, fi: nat): nat { if di < fi then fi else di }

  // ------------------------------------------------------------------ packing user bytes

  ghost function AllPayloads(c: Config, blocks: seq<seq<Block>>): seq<bv8>
    requires c.Valid() && SentBlocks(c, blocks)
  {
    if blocks == [] then []
    else
      var b := |blocks| - 1;
      AllPayloads(c, blocks[..b]) + BlockPayloads(c, blocks[b], c.data)
  }

  // The buffer holds these payload bytes behind the space for the header.
  ghost predicate Packed(a: array<bv8>, len: nat, chunk: seq<bv8>, size: nat)
    reads a
  {
    len == PAYLOAD_HEADER + |chunk| && len <= size <= a.Length && a[PAYLOAD_HEADER..len] == chunk
  }

  // ... and its header is filled in.
  ghost predicate Labelled(a: array<bv8>, len: nat, chunk: seq<bv8>, size: nat)
    reads a
  {
    Packed(a, len, chunk, size) && HeaderLength(a[..]) == |chunk|
  }

  ghost predicate AllLabelled(data: seq<array<bv8>>, lens: seq<nat>, chunks: seq<seq<bv8>>, size: nat, n: nat)
    requires n <= |data| && n <= |lens| && n <= |chunks|
    reads data
  {
    forall i :: 0 <= i < n ==> Labelled(data[i], lens[i], chunks[i], size)
  }

  lemma LabelledIsSent(c: Config, a: array<bv8>, len: nat, chunk: seq<bv8>)
    requires c.Valid() && Labelled(a, len, chunk, c.size)
    ensures HeaderLength(a[..c.size]) == |chunk| <= c.size - PAYLOAD_HEADER && SentPayload(c, a[..c.size]) == chunk
  {
    var all := a[..];
    SliceOfPrefix(all, c.size, PAYLOAD_HEADER, len);
    assert all[..c.size] == a[..c.size] && all[PAYLOAD_HEADER..len] == a[PAYLOAD_HEADER..len];
  }

  lemma {:induction false} PayloadsAreChunks(c: Config, x: seq<Block>, chunks: seq<seq<bv8>>, n: nat)
    requires c.Valid() && SentBlock(c, x) && n <= c.data == |chunks|
    requires forall i :: 0 <= i < c.data ==> SentPayload(c, x[i]) == chunks[i]
    ensures BlockPayloads(c, x, n) == Flatten(chunks[..n])
  {
    if n > 0 {
      PayloadsAreChunks(c, x, chunks, n - 1);
      assert chunks[..n][..n - 1] == chunks[..n - 1];
    }
  }

  // The data packets of a block hold these chunks.
  ghost predicate Carries(c: Config, x: seq<Block>, chunks: seq<seq<bv8>>) {
    c.Valid() && SentBlock(c, x) && |chunks| == c.data
    && forall i :: 0 <= i < c.data ==> SentPayload(c, x[i]) == chunks[i]
  }

  lemma LabelledBlock(c: Config, data: seq<array<bv8>>, lens: seq<nat>, chunks: seq<seq<bv8>>)
    requires c.Valid() && |data| == |lens| == |chunks| == c.data && AllLabelled(data, lens, chunks, c.size, c.data)
             && Fits(data, c.size)
    ensures Carries(c, Contents(data, c.size), chunks)
            && BlockPayloads(c, Contents(data, c.size), c.data) == Flatten(chunks)
  {
    var x := Contents(data, c.size);
    forall i | 0 <= i < c.data
      ensures HeaderLength(x[i]) <= c.size - PAYLOAD_HEADER && SentPayload(c, x[i]) == chunks[i]
    {
      LabelledIsSent(c, data[i], lens[i], chunks[i]);
    }
    PayloadsAreChunks(c, x, chunks, c.data);
    assert chunks[..c.data] == chunks;
  }

  // What has been sent and packed, apart from the buffers
  ghost predicate History(c: Config, fed: seq<bv8>, blocks: seq<seq<Block>>, skips: seq<int>, sent: seq<Packet>,
                          seqNr: nat, chunks: seq<seq<bv8>>) {
    && c.Valid() && SentBlocks(c, blocks) && |skips| == |blocks| && sent == Transmissions(c, blocks, skips)
    && seqNr == FirstNumber(c, |blocks|) && fed == AllPayloads(c, blocks) + Flatten(chunks)
  }

  lemma HistoryAppends(c: Config, fed: seq<bv8>, blocks: seq<seq<Block>>, skips: seq<int>, sent: seq<Packet>,
                       seqNr: nat, chunks: seq<seq<bv8>>, input: seq<bv8>)
    requires History(c, fed, blocks, skips, sent, seqNr, chunks) && chunks != []
    ensures History(c, fed + input, blocks, skips, sent, seqNr, chunks[|chunks| - 1 := chunks[|chunks| - 1] + input])
  {
    FlattenLonger(chunks, input);
    Regroup(AllPayloads(c, blocks), Flatten(chunks), input);
  }

  lemma HistoryOpens(c: Config, fed: seq<bv8>, blocks: seq<seq<Block>>, skips: seq<int>, sent: seq<Packet>, seqNr: nat,
                     chunks: seq<seq<bv8>>)
    requires History(c, fed, blocks, skips, sent, seqNr, chunks)
    ensures History(c, fed, blocks, skips, sent, seqNr, chunks + [[]])
  {
    assert (chunks + [[]])[..|chunks|] == chunks;
  }

  lemma HistoryStarts(c: Config)
    requires c.Valid()
    ensures History(c, [], [], [], [], 0, [[]])
  {
    StartsAnew(c, [], [], [], [], 0);
  }

  lemma SentNext(c: Config, blocks: seq<seq<Block>>, skips: seq<int>, x: seq<Block>, skip: int, b: nat,
                 all: seq<seq<Block>>, skips': seq<int>)
    requires SentBlocks(c, blocks) && SentBlock(c, x) && SentBlocks(c, all) && |skips| == |blocks| == b
    requires all == blocks + [x] && skips' == skips + [skip]
    ensures Transmissions(c, all, skips') ==
            Transmissions(c, blocks, skips) + BlockPackets(c, x, FirstNumber(c, b), skip, c.Packets())
  {
    assert all[..b] == blocks && skips'[..b] == skips && all[b] == x;
  }

  lemma FedNext(c: Config, blocks: seq<seq<Block>>, x: seq<Block>, b: nat, all: seq<seq<Block>>)
    requires c.Valid() && SentBlocks(c, blocks) && SentBlock(c, x) && SentBlocks(c, all) && |blocks| == b
    requires all == blocks + [x]
    ensures AllPayloads(c, all) == AllPayloads(c, blocks) + BlockPayloads(c, x, c.data)
  {
    assert all[..b] == blocks && all[b] == x;
  }

  // With an empty packet open
  lemma StartsAnew(c: Config, fed: seq<bv8>, blocks: seq<seq<Block>>, skips: seq<int>, sent: seq<Packet>, seqNr: nat)
    requires c.Valid() && SentBlocks(c, blocks) && |skips| == |blocks| && sent == Transmissions(c, blocks, skips)
    requires seqNr == FirstNumber(c, |blocks|) && fed == AllPayloads(c, blocks)
    ensures History(c, fed, blocks, skips, sent, seqNr, [[]])
  {
    var empty: seq<seq<bv8>> := [[]];
    assert empty[..0] == [];
  }

  lemma HistoryBlock(c: Config, fed: seq<bv8>, blocks: seq<seq<Block>>, skips: seq<int>, sent: seq<Packet>, seqNr: nat,
                     chunks: seq<seq<bv8>>, x: seq<Block>, skip: int, all: seq<seq<Block>>, skips': seq<int>)
    requires History(c, fed, blocks, skips, sent, seqNr, chunks) && SentBlock(c, x)
             && BlockPayloads(c, x, c.data) == Flatten(chunks)
    requires all == blocks + [x] && skips' == skips + [skip]
    ensures History(c, fed, all, skips', sent + BlockPackets(c, x, seqNr, skip, c.Packets()), seqNr + c.Packets(), [[]])
  {
    SentNext(c, blocks, skips, x, skip, |blocks|, all, skips');
    FedNext(c, blocks, x, |blocks|, all);
    StartsAnew(c, fed, all, skips', sent + BlockPackets(c, x, seqNr, skip, c.Packets()), seqNr + c.Packets());
  }

  // ------------------------------------------------------------------ what one round does

  datatype Progress = Progress(currPb: nat, chunks: seq<seq<bv8>>, blocks: seq<seq<Block>>, sent: seq<Packet>,
      skips: seq<int>, skipFec: int, seqNr: nat)

  // The open packet is longer by the input.
  ghost function Longer(p: Progress, input: seq<bv8>): Progress
    requires p.currPb < |p.chunks|
  {
    p.(chunks := p.chunks[p.currPb := p.chunks[p.currPb] + input])
  }

  // The open packet is closed, and an empty one begun.
  ghost function Advanced(p: Progress): Progress { p.(currPb := p.currPb + 1, chunks := p.chunks + [[]]) }

  // The block of these chunks is sent, and a new one begun; after a slow block the next one leaves out FEC packets.
  ghost predicate BlockSent(c: Config, p: Progress, slow: bool, q: Progress) {
    && q.currPb == 0 && q.chunks == [[]] && |q.blocks| == |p.blocks| + 1 && p.blocks <= q.blocks
    && Carries(c, q.blocks[|p.blocks|], p.chunks) && p.sent <= q.sent && q.seqNr == p.seqNr + c.Packets()
    && q.skips == p.skips + [p.skipFec] && q.skipFec == if slow then 4 else p.skipFec - Rounds(c.data, c.fec)
  }

  // The open packet is closed, which sends the block if the packet is its last.
  ghost predicate Closed(c: Config, p: Progress, slow: bool, q: Progress) {
    if p.currPb < c.data - 1 then q == Advanced(p) else BlockSent(c, p, slow, q)
  }

  // The input joins the open packet, which is closed if that makes it long enough, and only then.
  ghost predicate Fed(c: Config, minLength: nat, p: Progress, input: seq<bv8>, slow: bool, q: Progress)
    requires p.currPb < |p.chunks|
  {
    if input == [] then q == p
    else if PAYLOAD_HEADER + |p.chunks[p.currPb]| + |input| < minLength then q == Longer(p, input)
    else Closed(c, Longer(p, input), slow, q)
  }

  class Sender {
    const c: Config
    const t: Tables
    const minLength: nat
    const data: seq<array<bv8>>
    var lens: seq<nat>
    var currPb: nat
    var seqNr: nat
    var skipFec: int
    var sent: seq<Packet>
    ghost var fed: seq<bv8>
    ghost var blocks: seq<seq<Block>>
    ghost var skips: seq<int>
    ghost var chunks: seq<seq<bv8>>

    ghost predicate Shape() {
      c.Valid() && |data| == c.data && Buffers(t, data, [], MAX_PACKET_LENGTH) && minLength <= c.size
    }

    ghost predicate Valid()
      reads this, data, t.gfExp, t.gfLog, t.inverse, t.gfMulTable
    {
      && Shape() && t.Valid() && |lens| == c.data && currPb < c.data && |chunks| == currPb + 1
      && AllLabelled(data, lens, chunks, c.size, currPb)
      && (if lens[currPb] == 0 then chunks[currPb] == []
          else Packed(data[currPb], lens[currPb], chunks[currPb], c.size))
      && (lens[currPb] <= PAYLOAD_HEADER || lens[currPb] < minLength)
      && (forall i :: currPb < i < c.data ==> lens[i] == 0)
      && History(c, fed, blocks, skips, sent, seqNr, chunks)
    }

    ghost function Now(): Progress
      reads this
    {
      Progress(currPb, chunks, blocks, sent, skips, skipFec, seqNr)
    }

    constructor (config: Config, tables: Tables, min: nat)
      requires config.Valid() && tables.Valid() && min <= config.size
      ensures Valid() && c == config && t == tables && minLength == min && fed == []
      ensures Now() == Progress(0, [[]], [], [], [], 0, 0)
    {
      c, t, minLength := config, tables, min;
      var pool := NewPool(config.data, MAX_PACKET_LENGTH, tables, [], MAX_PACKET_LENGTH);
      data := pool;
      lens := seq(config.data, i => 0);
      currPb, seqNr, skipFec, sent := 0, 0, 0, [];
      fed, blocks, skips, chunks := [], [], [], [[]];
      new;
      HistoryStarts(c);
    }

    method SendComplete() returns (packets: seq<Packet>, skipLeft: int, ghost x: seq<Block>)
      requires Shape() && t.Valid() && |lens| == |chunks| == c.data && AllLabelled(data, lens, chunks, c.size, c.data)
      requires History(c, fed, blocks, skips, sent, seqNr, chunks)
      ensures History(c, fed, blocks + [x], skips + [skipFec], sent + packets, seqNr + c.Packets(), [[]])
      ensures skipLeft == skipFec - Rounds(c.data, c.fec) && Carries(c, x, chunks)
    {
      x := Contents(data, c.size);
      LabelledBlock(c, data, lens, chunks);
      packets, skipLeft := SendBlock(c, t, data, seqNr, skipFec, x);
      HistoryBlock(c, fed, blocks, skips, sent, seqNr, chunks, x, skipFec, blocks + [x], skips + [skipFec]);
    }

    method FinishBlock(packets: seq<Packet>, skipLeft: int, slow: bool, ghost x: seq<Block>)
      requires History(c, fed, blocks + [x], skips + [skipFec], sent + packets, seqNr + c.Packets(), [[]])
      modifies this`lens, this`seqNr, this`skipFec, this`sent, this`blocks, this`skips, this`chunks
      ensures History(c, fed, blocks, skips, sent, seqNr, chunks) && chunks == [[]]
      ensures blocks == old(blocks) + [x] && skips == old(skips) + [old(skipFec)] && sent == old(sent) + packets
      ensures |lens| == c.data && forall i :: 0 <= i < c.data ==> lens[i] == 0
      ensures skipFec == (if slow then 4 else skipLeft) && seqNr == old(seqNr) + c.Packets()
    {
      sent := sent + packets;
      blocks, skips, chunks := blocks + [x], skips + [skipFec], [[]];
      skipFec := skipLeft;
      if slow {
        skipFec := 4;
      }
      seqNr := seqNr + (c.data + c.fec);
      lens := seq(c.data, i => 0);
    }

    // Encodes and sends the complete block; a slow link makes the next one leave out FEC packets.
    method TransmitBlock(slow: bool)
      requires Shape() && t.Valid() && |lens| == |chunks| == c.data && AllLabelled(data, lens, chunks, c.size, c.data)
      requires History(c, fed, blocks, skips, sent, seqNr, chunks)
      modifies this`lens, this`seqNr, this`skipFec, this`sent, this`blocks, this`skips, this`chunks
      ensures History(c, fed, blocks, skips, sent, seqNr, chunks)
      ensures |lens| == c.data && forall i :: 0 <= i < c.data ==> lens[i] == 0
      ensures BlockSent(c, old(Now()), slow, Now().(currPb := 0))
    {
      var packets, skipLeft;
      ghost var x;
      packets, skipLeft, x := SendComplete();
      FinishBlock(packets, skipLeft, slow, x);
    }

    // Copies input bytes behind those already in the open packet.
    method Append(input: seq<bv8>)
      requires Shape() && |lens| == c.data && currPb < c.data && |chunks| == currPb + 1
               && |input| + lens[currPb] <= c.size
      requires Packed(data[currPb], lens[currPb], chunks[currPb], c.size)
      modifies this`lens, this`chunks, this`fed, data[currPb]
      ensures lens == old(lens)[currPb := old(lens[currPb]) + |input|]
      ensures chunks == old(chunks)[currPb := old(chunks[currPb]) + input] && fed == old(fed) + input
      ensures Packed(data[currPb], lens[currPb], chunks[currPb], c.size)
    {
      var a, start := data[currPb], lens[currPb];
      Memory.Copy(input, a, start);
      assert a[PAYLOAD_HEADER..start] == chunks[currPb] && a[start..start + |input|] == input;
      assert a[PAYLOAD_HEADER..start + |input|] == a[PAYLOAD_HEADER..start] + a[start..start + |input|];
      lens := lens[currPb := start + |input|];
      chunks := chunks[currPb := chunks[currPb] + input];
      fed := fed + input;
    }

    // The complete packets stay as they are.
    method AppendNext(input: seq<bv8>)
      requires Shape() && |lens| == c.data && currPb < c.data && |chunks| == currPb + 1
               && |input| + lens[currPb] <= c.size
      requires Packed(data[currPb], lens[currPb], chunks[currPb], c.size)
               && AllLabelled(data, lens, chunks, c.size, currPb)
      modifies this`lens, this`chunks, this`fed, data[currPb]
      ensures lens == old(lens)[currPb := old(lens[currPb]) + |input|]
      ensures chunks == old(chunks)[currPb := old(chunks[currPb]) + input] && fed == old(fed) + input
      ensures Packed(data[currPb], lens[currPb], chunks[currPb], c.size)
              && AllLabelled(data, lens, chunks, c.size, currPb)
    {
      Append(input);
      forall i | 0 <= i < currPb ensures Labelled(data[i], lens[i], chunks[i], c.size) {
        assert data[i] != data[currPb] && old(Labelled(data[i], lens[i], chunks[i], c.size));
      }
    }

    // Valid, with a packet begun and possibly long enough
    ghost predicate Begun()
      reads this, data, t.gfExp, t.gfLog, t.inverse, t.gfMulTable
    {
      && Shape() && t.Valid() && |lens| == c.data && currPb < c.data && |chunks| == currPb + 1
      && AllLabelled(data, lens, chunks, c.size, currPb) && Packed(data[currPb], lens[currPb], chunks[currPb], c.size)
      && (forall i :: currPb < i < c.data ==> lens[i] == 0) && History(c, fed, blocks, skips, sent, seqNr, chunks)
    }

    // Leaves space for the header if the buffer is fresh.
    method Begin()
      requires Valid()
      modifies this`lens
      ensures Valid() && Begun() && Now() == old(Now())
    {
      if lens[currPb] == 0 {
        lens := lens[currPb := PAYLOAD_HEADER];
      }
    }

    method Extend(input: seq<bv8>)
      requires Begun() && |input| + lens[currPb] <= c.size
      modifies this`lens, this`chunks, this`fed, data[currPb]
      ensures Begun() && fed == old(fed) + input && Now() == Longer(old(Now()), input)
    {
      HistoryAppends(c, fed, blocks, skips, sent, seqNr, chunks, input);
      AppendNext(input);
    }

    // Writes the header of the open packet.
    method Label()
      requires Begun()
      modifies data[currPb]
      ensures Begun() && AllLabelled(data, lens, chunks, c.size, currPb + 1)
    {
      WriteLength(data[currPb], lens[currPb] - PAYLOAD_HEADER);
    }

    method NextBuffer()
      requires Begun() && AllLabelled(data, lens, chunks, c.size, currPb + 1) && currPb < c.data - 1
      modifies this`currPb, this`chunks
      ensures Valid() && Now() == Advanced(old(Now()))
    {
      HistoryOpens(c, fed, blocks, skips, sent, seqNr, chunks);
      currPb := currPb + 1;
      chunks := chunks + [[]];
    }

    // Back to the first buffer
    method StartBlock()
      requires Shape() && t.Valid() && |lens| == c.data && forall i :: 0 <= i < c.data ==> lens[i] == 0
      requires chunks == [[]]
      requires History(c, fed, blocks, skips, sent, seqNr, chunks)
      modifies this`currPb
      ensures Valid() && currPb == 0
    {
      currPb := 0;
    }

    method LastBuffer(slow: bool)
      requires Begun() && AllLabelled(data, lens, chunks, c.size, currPb + 1) && currPb == c.data - 1
      modifies this`lens, this`currPb, this`seqNr, this`skipFec, this`sent, this`blocks, this`skips, this`chunks
      ensures Valid() && BlockSent(c, old(Now()), slow, Now())
    {
      TransmitBlock(slow);
      StartBlock();
    }

    // Completes the open packet and moves on to the next buffer, or sends the block.
    method FinishPacket(slow: bool)
      requires Begun()
      modifies this, data[currPb]
      ensures Valid() && fed == old(fed) && Closed(c, old(Now()), slow, Now())
    {
      Label();
      if currPb == c.data - 1 {
        LastBuffer(slow);
      } else {
        NextBuffer();
      }
    }

    /** One round of the main loop: reads what the input offers, closes the open packet if it is long enough by then,
        and sends the block if that was its last packet. */
    method Feed(input: seq<bv8>, slow: bool)
      requires Valid() && PAYLOAD_HEADER + |chunks[currPb]| + |input| <= c.size
      modifies this, data
      ensures Valid() && fed == old(fed) + input && Fed(c, minLength, old(Now()), input, slow, Now())
    {
      Begin();
      if |input| == 0 {
        return;
      }
      Extend(input);
      if lens[currPb] >= minLength {
        FinishPacket(slow);
      }
    }
  }
}
