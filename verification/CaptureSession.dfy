/** A whole capture, and a whole transmission. */
module CaptureSession {
  import Memory
  import opened ByteOrder
  import opened Sequences
  import opened Counters
  import opened FrameOrder
  import opened CaptureSpec
  import opened CaptureRuns
  import opened CapturedFrames
  import opened FrameControl

  // The receiver stands where the run over these events ends.
  ghost predicate At(fc: FrameController, events: seq<Event>, ins: seq<Input>)
    reads fc, fc.packetHeap, fc.packetHeap.tree, fc.packetBuffer
  {
    fc.Valid() && InputsFor(fc.cfg, events, ins) && fc.state == Run(fc.cfg, ins)
  }

  method Process(fc: FrameController, e: Event, ghost events: seq<Event>, ghost ins: seq<Input>)
    returns (ghost ins': seq<Input>)
    requires At(fc, events, ins)
    modifies fc, fc.packetBuffer, fc.packetHeap`count, fc.packetHeap.tree
    ensures At(fc, events + [e], ins')
  {
    ghost var d := fc.ProcessFrame(e);
    RunNext(fc.cfg, events, ins, e, d);
    ins' := ins + [Input(e, d)];
  }

  // The frames of one call of pcap_dispatch
  method Dispatch(fc: FrameController, batch: seq<Event>, ghost events: seq<Event>, ghost ins: seq<Input>)
    returns (ghost ins': seq<Input>)
    requires At(fc, events, ins)
    modifies fc, fc.packetBuffer, fc.packetHeap`count, fc.packetHeap.tree
    ensures At(fc, events + batch, ins')
  {
    ins' := ins;
    EmptyPrefix(events, batch);
    for i := 0 to |batch|
      invariant At(fc, events + batch[..i], ins')
    {
      PrefixNext(events, batch, i);
      ins' := Process(fc, batch[i], events + batch[..i], ins');
    }
    WholePrefix(batch);
  }

  lemma EmptyPrefix(events: seq<Event>, batch: seq<Event>)
    ensures events + batch[..0] == events
  {}

  lemma PrefixNext(events: seq<Event>, batch: seq<Event>, i: nat)
    requires i < |batch|
    ensures events + batch[..i] + [batch[i]] == events + batch[..i + 1]
  {}

  lemma WholePrefix(batch: seq<Event>)
    ensures batch[..|batch|] == batch
  {}

  // Everything up to batch n
  ghost function Upto(batches: seq<seq<Event>>, n: nat): seq<Event>
    requires n <= |batches|
  {
    Flatten(batches[..n])
  }

  lemma BatchesNext(batches: seq<seq<Event>>, n: nat)
    requires n < |batches|
    ensures Upto(batches, n + 1) == Upto(batches, n) + batches[n]
  {
    assert batches[..n + 1][..n] == batches[..n];
  }

  // The receiver stands behind these events, and is to end exactly if they told it to.
  ghost predicate Standing(fc: FrameController, events: seq<Event>, ins: seq<Input>)
    reads fc, fc.packetHeap, fc.packetHeap.tree, fc.packetBuffer
  {
    At(fc, events, ins) && (fc.endCapture <==> ToldToEnd(fc.cfg, events))
  }

  method TakeBatch(fc: FrameController, batch: seq<Event>, ghost events: seq<Event>, ghost ins: seq<Input>,
                   ghost events': seq<Event>)
    returns (ghost ins': seq<Input>)
    requires Standing(fc, events, ins) && events' == events + batch
    modifies fc, fc.packetBuffer, fc.packetHeap`count, fc.packetHeap.tree
    ensures Standing(fc, events', ins')
  {
    ins' := Dispatch(fc, batch, events, ins);
    EndsAsTold(fc.cfg, events', ins');
  }

  // The batches up to the first one after which the captures have told the receiver to end, or all of them
  method TakeBatches(fc: FrameController, batches: seq<seq<Event>>) returns (taken: nat, ghost ins: seq<Input>)
    requires fc.Valid() && fc.state == InitialControl()
    modifies fc, fc.packetBuffer, fc.packetHeap`count, fc.packetHeap.tree
    ensures taken <= |batches| && (taken > 0 ==> !ToldToEnd(fc.cfg, Upto(batches, taken - 1)))
    ensures taken < |batches| ==> ToldToEnd(fc.cfg, Upto(batches, taken))
    ensures At(fc, Upto(batches, taken), ins)
  {
    taken, ins := 0, [];
    while taken < |batches| && !fc.endCapture
      invariant taken <= |batches| && Standing(fc, Upto(batches, taken), ins)
      invariant taken > 0 ==> !ToldToEnd(fc.cfg, Upto(batches, taken - 1))
    {
      BatchesNext(batches, taken);
      ins := TakeBatch(fc, batches[taken], Upto(batches, taken), ins, Upto(batches, taken + 1));
      taken := taken + 1;
    }
  }

  /** receiver_activate_capture: batches of frames until the capture is to end or no more come, then the final flush */
  method ActivateCapture(fc: FrameController, batches: seq<seq<Event>>)
    returns (taken: nat, ghost ins: seq<Input>, ghost d: seq<Frame>)
    requires fc.Valid() && fc.state == InitialControl()
    modifies fc, fc.packetBuffer, fc.packetHeap`count, fc.packetHeap.tree
    ensures taken <= |batches| && (taken > 0 ==> !ToldToEnd(fc.cfg, Upto(batches, taken - 1)))
    ensures taken < |batches| ==> ToldToEnd(fc.cfg, Upto(batches, taken))
    ensures InputsFor(fc.cfg, Upto(batches, taken), ins)
    ensures Flushed(fc.cfg, ins, d) && fc.Valid() && fc.state == Dumped(fc.cfg, Run(fc.cfg, ins), d)
  {
    taken, ins := TakeBatches(fc, batches);
    d := fc.DumpPacketBuffer();
  }

  // ------------------------------------------------------------------ the transmitter

  // Frame k of a transmission: its number, and p bytes filled up with zeros
  ghost function ChunkAt(data: seq<bv8>, p: nat, k: nat): (b: seq<bv8>)
    ensures |b| == p
  {
    seq(p, i requires 0 <= i < p => var q := p * k + i; if q < |data| then data[q] else 0)
  }

  // The next size bytes of data, and zeros behind them
  method FillPayload(payload: array<bv8>, data: seq<bv8>, read: nat, size: nat)
    requires read + size <= |data| && size <= payload.Length && (size < payload.Length ==> read + size == |data|)
    modifies payload
    ensures forall i :: 0 <= i < payload.Length ==> payload[i] == if read + i < |data| then data[read + i] else 0
  {
    Memory.Copy(data[read..read + size], payload, 0);
    for i := size to payload.Length
      invariant payload[..size] == data[read..read + size]
      invariant forall j :: size <= j < i ==> payload[j] == 0
    {
      payload[i] := 0;
    }
    assert forall i :: 0 <= i < size ==> payload[..size][i] == data[read..read + size][i];
  }

  // attach_frame_number: the count goes into the last four bytes of the first address, the most significant byte first.
  method AttachFrameNumber(addr1: array<bv8>, count: Counter)
    requires addr1.Length == 6
    modifies addr1
    ensures addr1[0] == old(addr1[0]) && addr1[1] == old(addr1[1])
    ensures addr1[2] as int == count / 0x100_0000 && addr1[3] as int == count / 0x1_0000 % 0x100
    ensures addr1[4] as int == count / 0x100 % 0x100 && addr1[5] as int == count % 0x100
    ensures FrameNumber(addr1[..]) == AsInt32(count)
  {
    Memory.Copy(Be32(count), addr1, 2);
    LongRoundTrip(addr1[..], 2, count);
  }

  // The number of frame k: the sender counts in 32 bits, and the receiver reads them as a signed number.
  function NumberAt(k: nat): int { AsInt32(Wrap(k)) }

  // The frames of a transmission: chunks of p bytes, numbered from 0
  ghost predicate Transmission(data: seq<bv8>, p: nat, frames: seq<Frame>) {
    && (forall k :: 0 <= k < |frames| ==> frames[k] == Frame(NumberAt(k), ChunkAt(data, p, k)))
    && p * |frames| >= |data| && (frames != [] ==> p * (|frames| - 1) < |data|)
  }

  /** transmit_bytes, with the frame numbers attached before injection */
  method TransmitBytes(data: seq<bv8>, p: nat) returns (frames: seq<Frame>)
    requires p > 0
    ensures Transmission(data, p, frames)
  {
    frames := [];
    var payload, addr1 := new bv8[p](_ => 0), new bv8[6](_ => 0);
    var nbytes, read := |data|, 0;
    while nbytes > 0
      invariant nbytes + read == |data| && (nbytes > 0 ==> read == p * |frames|) && read <= p * |frames|
      invariant frames != [] ==> p * (|frames| - 1) < |data|
      invariant forall k :: 0 <= k < |frames| ==> frames[k] == Frame(NumberAt(k), ChunkAt(data, p, k))
      decreases nbytes
    {
      var size := if p < nbytes then p else nbytes;
      FillPayload(payload, data, read, size);
      assert payload[..] == ChunkAt(data, p, |frames|);
      assert p * (|frames| + 1) == p * |frames| + p;
      AttachFrameNumber(addr1, Wrap(|frames|));
      frames := frames + [Frame(FrameNumber(addr1[..]), payload[..])];
      read, nbytes := read + size, nbytes - size;
    }
  }

  // These are the first n bytes of the data, or the data and zeros.
  ghost predicate FilledUp(b: seq<bv8>, data: seq<bv8>, n: nat) {
    |b| == n && forall j :: 0 <= j < n ==> b[j] == if j < |data| then data[j] else 0
  }

  lemma NextChunk(b: seq<bv8>, data: seq<bv8>, p: nat, k: nat, n: nat)
    requires n == p * k && FilledUp(b, data, n)
    ensures FilledUp(b + ChunkAt(data, p, k), data, n + p)
  {
    var c := ChunkAt(data, p, k);
    forall j | n <= j < n + p ensures (b + c)[j] == if j < |data| then data[j] else 0 { assert (b + c)[j] == c[j - n]; }
  }

  lemma OneMore(p: nat, n: nat)
    requires n > 0
    ensures p * n == p * (n - 1) + p
  {}

  lemma {:induction false} ChunksJoin(data: seq<bv8>, p: nat, frames: seq<Frame>, n: nat, m: nat)
    requires n <= |frames| && forall k :: 0 <= k < |frames| ==> frames[k] == Frame(NumberAt(k), ChunkAt(data, p, k))
    requires m == p * n
    ensures FilledUp(Concat(frames[..n]), data, m)
  {
    if n > 0 {
      OneMore(p, n);
      ChunksJoin(data, p, frames, n - 1, m - p);
      assert frames[..n][..n - 1] == frames[..n - 1];
      NextChunk(Concat(frames[..n - 1]), data, p, n - 1, m - p);
    }
  }

  // The frames carry the data, and zeros up to the end of the last frame.
  lemma TransmissionCarriesData(data: seq<bv8>, p: nat, frames: seq<Frame>)
    requires Transmission(data, p, frames)
    ensures data <= Concat(frames) && |Concat(frames)| == p * |frames|
            && (frames != [] ==> |Concat(frames)| < |data| + p)
    ensures forall j :: |data| <= j < |Concat(frames)| ==> Concat(frames)[j] == 0
  {
    ChunksJoin(data, p, frames, |frames|, p * |frames|);
    assert frames[..|frames|] == frames;
    if frames != [] { assert p * |frames| == p * (|frames| - 1) + p; }
  }
}
