/** The receiver as a state machine: what one captured frame does. */
module CaptureSpec {
  import opened ByteOrder
  import opened Counters
  import opened FrameOrder

  datatype Stats = Stats(writelen: Counter, blocksLost: Counter, noiseAdded: Counter, processed: Counter,
                         payloadSize: Counter)

  function AsInt32(x: Counter): int { if x < 0x8000_0000 then x else x - 0x1_0000_0000 }

  // An address field of the IEEE 802.11 header
  type Address = a: seq<bv8> | |a| == 6 witness [0, 0, 0, 0, 0, 0]

  // The number packed into the last four bytes of the first address, kept in a signed variable
  function FrameNumber(addr1: Address): int { AsInt32(LongAt(addr1, 2)) }

  // The payload bytes of n frames
  ghost function PayloadBytes(cfg: Settings, n: nat): nat {
    if n == 0 then 0 else PayloadBytes(cfg, n - 1) + cfg.payload
  }

  lemma {:induction false} PayloadBytesAdd(cfg: Settings, m: nat, n: nat)
    ensures PayloadBytes(cfg, m + n) == PayloadBytes(cfg, m) + PayloadBytes(cfg, n)
  {
    if n > 0 { PayloadBytesAdd(cfg, m, n - 1); }
  }

  lemma {:induction false} PayloadBytesAre(cfg: Settings, n: nat)
    ensures PayloadBytes(cfg, n) == cfg.payload * n
  {
    if n > 0 { PayloadBytesAre(cfg, n - 1); }
  }

  datatype Control = Control(pending: seq<Frame>, index: nat, output: seq<bv8>, stats: Stats,
                             endCapture: bool, eotReached: bool, preambleReceived: bool)

  // A capture: from someone else, of unknown kind, a control frame, or data with its first address and with overhead
  // bytes around the payload
  datatype Event = Stranger | Unknown | Preamble | EndOfTransmission | Data(addr1: Address, payload: seq<bv8>,
      overhead: nat)

  function InitialControl(): Control { Control([], 0, [], Stats(0, 0, 0, 0, 0), false, false, false) }

  ghost predicate SortedVersion(d: seq<Frame>, w: seq<Frame>) { Sorted(d) && multiset(d) == multiset(w) }

  // Bytes written, and what that adds to the counters
  ghost predicate Effect(bytes: seq<bv8>, written: int, lost: int, noise: int, output: seq<bv8>, st: Stats,
                         output': seq<bv8>, st': Stats) {
    && output' == output + bytes
    && st'.writelen == Wrap(st.writelen + written) && st'.blocksLost == Wrap(st.blocksLost + lost)
    && st'.noiseAdded == Wrap(st.noiseAdded + noise)
    && st'.processed == st.processed && st'.payloadSize == st.payloadSize
  }

  lemma EffectTwice(b: seq<bv8>, w: int, l: int, n: int, b': seq<bv8>, w': int, l': int, n': int, output: seq<bv8>,
                    st: Stats, output': seq<bv8>, st': Stats, output'': seq<bv8>, st'': Stats)
    requires Effect(b, w, l, n, output, st, output', st') && Effect(b', w', l', n', output', st', output'', st'')
    ensures Effect(b + b', w + w', l + l', n + n', output, st, output'', st'')
  {
    WrapAdd(st.writelen + w, w'); WrapAdd(st.blocksLost + l, l'); WrapAdd(st.noiseAdded + n, n');
    assert output + b + b' == output + (b + b');
  }

  // The effect of writing the first n frames of d
  ghost predicate Drain(cfg: Settings, d: seq<Frame>, n: nat, output: seq<bv8>, st: Stats, output': seq<bv8>,
                        st': Stats)
    requires n <= |d|
  {
    Effect(Drained(cfg, d, n), PayloadBytes(cfg, n), Lost(cfg, d, n), Padding(cfg, d, n), output, st, output', st')
  }

  // The buffer written out; d is the pending frames in the order in which they leave the heap.
  ghost function Dumped(cfg: Settings, s: Control, d: seq<Frame>): Control {
    s.(pending := [], index := 0, output := s.output + Drained(cfg, d, |d|),
       stats := s.stats.(writelen := Wrap(s.stats.writelen + PayloadBytes(cfg, |d|)),
                         blocksLost := Wrap(s.stats.blocksLost + Lost(cfg, d, |d|)),
                         noiseAdded := Wrap(s.stats.noiseAdded + Padding(cfg, d, |d|))))
  }

  ghost predicate Full(cfg: Settings, s: Control) { s.index + cfg.payload >= cfg.bufferSize }

  // Without frame numbers, arrival counts.
  function NumberOf(cfg: Settings, s: Control, number: int): int {
    if cfg.ordered then number else AsInt32(s.stats.processed)
  }

  function CountFrame(st: Stats, size: nat): Stats {
    st.(payloadSize := Wrap(st.payloadSize + size), processed := Wrap(st.processed + 1))
  }

  function Queued(cfg: Settings, s: Control, number: int, payload: seq<bv8>, overhead: nat): Control {
    s.(pending := s.pending + [Frame(NumberOf(cfg, s, number), payload)], index := s.index + cfg.payload + overhead,
       stats := CountFrame(s.stats, cfg.payload))
  }

  ghost predicate Dumps(cfg: Settings, s: Control, e: Event) {
    e.Data? && |e.payload| == cfg.payload && Full(cfg, s)
  }

  // process_frame
  ghost function Step(cfg: Settings, s: Control, e: Event, d: seq<Frame>): Control {
    match e
    case Stranger => s
    case Unknown => s
    case Preamble => s.(endCapture := s.endCapture || s.stats.processed > 0, preambleReceived := true)
    case EndOfTransmission => s.(endCapture := s.endCapture || !s.eotReached, eotReached := true)
    case Data(addr1, payload, overhead) =>
      if |payload| != cfg.payload then s
      else Queued(cfg, if Full(cfg, s) then Dumped(cfg, s, d) else s, FrameNumber(addr1), payload, overhead)
  }
}
