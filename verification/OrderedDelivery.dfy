/** What a capture in ordered mode recovers of a transmission. */
module OrderedDelivery {
  import opened Sequences
  import opened FrameOrder
  import opened CaptureSpec
  import opened CaptureRuns
  import opened CaptureSession
  import opened CapturedFrames

  // ------------------------------------------------------------------ frames that stay in the buffer together

  // Bytes captured in data frames
  ghost function CapturedBytes(cfg: Settings, events: seq<Event>): nat {
    if events == [] then 0
    else
      var e := events[|events| - 1];
      CapturedBytes(cfg, events[..|events| - 1]) + (if Fitting(cfg, e) then cfg.payload + e.overhead else 0)
  }

  // Frames that fit into the buffer together stay in it until the flush.
  lemma {:induction false} NoDrainIfRoom(cfg: Settings, events: seq<Event>, ins: seq<Input>)
    requires InputsFor(cfg, events, ins) && CapturedBytes(cfg, events) < cfg.bufferSize
    ensures Windows(cfg, ins) == [] && DrainsOf(cfg, ins) == [] && Run(cfg, ins).index == CapturedBytes(cfg, events)
  {
    if ins != [] {
      var l := |ins| - 1;
      assert forall i :: 0 <= i < l ==> ins[..l][i].event == events[..l][i];
      NoDrainIfRoom(cfg, events[..l], ins[..l]);
    }
  }

  lemma AllPending(cfg: Settings, events: seq<Event>, ins: seq<Input>)
    requires cfg.Valid() && InputsFor(cfg, events, ins) && CapturedBytes(cfg, events) < cfg.bufferSize
    ensures Run(cfg, ins).pending == Arrived(cfg, ins) && Run(cfg, ins).output == []
    ensures |Arrived(cfg, ins)| <= BUFFER_MAX
  {
    EveryRun(cfg, ins);
    NoDrainIfRoom(cfg, events, ins);
    WindowsAreSmall(cfg, ins);
  }

  // ------------------------------------------------------------------ a window of a transmission

  // Frame i of these was sent as frame at[i], one of the frames a to b, and none twice.
  ghost predicate SentAs(got: seq<Frame>, frames: seq<Frame>, at: seq<nat>, a: nat, b: nat) {
    && |at| == |got| && (forall i :: 0 <= i < |got| ==> a <= at[i] <= b < |frames| && got[i] == frames[at[i]])
    && (forall i, j :: 0 <= i < j < |at| ==> at[i] != at[j])
  }

  // The count does not turn between frame a and frame b.
  ghost predicate OneCount(a: nat, b: nat)
    requires a <= b
  {
    !Straddles(a, b + 1 - a)
  }

  lemma NumbersCountOn(a: nat, b: nat, k: nat)
    requires a <= k <= b && OneCount(a, b)
    ensures NumberAt(k) == NumberAt(a) + (k - a)
  {
    ShorterDoesNot(a, k + 1 - a, b + 1 - a);
    CountsOn(a, k);
  }

  ghost predicate Numbered(frames: seq<Frame>) { forall k :: 0 <= k < |frames| ==> frames[k].number == NumberAt(k) }

  // Frames a to b have the numbers from lo on.
  ghost predicate CountFrom(frames: seq<Frame>, a: nat, b: nat, lo: int) {
    b < |frames| && forall k :: a <= k <= b ==> frames[k].number == lo + (k - a)
  }

  lemma OneCountIsFrom(frames: seq<Frame>, a: nat, b: nat)
    requires Numbered(frames) && a <= b < |frames| && OneCount(a, b)
    ensures CountFrom(frames, a, b, frames[a].number)
  {
    forall k | a <= k <= b ensures frames[k].number == frames[a].number + (k - a) { NumbersCountOn(a, b, k); }
  }

  // The numbers of those received tell which they are.
  lemma NumberTells(frames: seq<Frame>, got: seq<Frame>, at: seq<nat>, a: nat, b: nat, lo: int, k: nat)
    requires a <= k <= b && CountFrom(frames, a, b, lo) && SentAs(got, frames, at, a, b)
    ensures Has(got, lo + (k - a)) <==> k in at
    ensures k in at ==> DataOf(got, lo + (k - a)) == frames[k].data
  {
    if k in at {
      var i :| 0 <= i < |at| && at[i] == k;
      assert got[i].number == lo + (k - a);
    }
    if Has(got, lo + (k - a)) {
      var i :| 0 <= i < |got| && got[i].number == lo + (k - a) && DataOf(got, lo + (k - a)) == got[i].data;
      assert at[i] == k;
    }
  }

  // The n blocks from a on, with what stands in for those not received
  ghost function Reassembled(cfg: Settings, frames: seq<Frame>, at: seq<nat>, a: nat, n: nat): seq<bv8>
    requires a + n <= |frames|
  {
    if n == 0 then []
    else
      var m := a + n - 1;
      Reassembled(cfg, frames, at, a, n - 1) +
      (if m in at then frames[m].data else if cfg.addNoise then NoiseBlock(cfg) else [])
  }

  // With noise, each frame from the first to the last takes up one payload.
  lemma {:induction false} ReassembledSize(cfg: Settings, frames: seq<Frame>, at: seq<nat>, a: nat, n: nat)
    requires a + n <= |frames| && Sized(cfg, frames) && cfg.addNoise
    ensures |Reassembled(cfg, frames, at, a, n)| == n * cfg.payload
  {
    if n > 0 { ReassembledSize(cfg, frames, at, a, n - 1); }
  }

  // Its bytes are its own, or the noise value if it was lost.
  lemma {:induction false} ReassembledByte(cfg: Settings, frames: seq<Frame>, at: seq<nat>, a: nat, n: nat, m: nat,
                                           j: nat, k: nat)
    requires a + n <= |frames| && Sized(cfg, frames) && cfg.addNoise && m < n && j < cfg.payload
    requires k == m * cfg.payload + j
    ensures k < |Reassembled(cfg, frames, at, a, n)|
    ensures Reassembled(cfg, frames, at, a, n)[k] == if a + m in at then frames[a + m].data[j] else cfg.noise
  {
    ReassembledSize(cfg, frames, at, a, n - 1);
    if m < n - 1 { ReassembledByte(cfg, frames, at, a, n - 1, m, j, k); }
  }

  lemma {:induction false} FilledIsReassembled(cfg: Settings, frames: seq<Frame>, got: seq<Frame>, at: seq<nat>, a: nat,
                                               b: nat, lo: int, n: nat)
    requires a <= b && CountFrom(frames, a, b, lo) && SentAs(got, frames, at, a, b) && n <= b + 1 - a
    ensures Filled(cfg, got, lo, n) == Reassembled(cfg, frames, at, a, n)
  {
    if n > 0 {
      FilledIsReassembled(cfg, frames, got, at, a, b, lo, n - 1);
      NumberTells(frames, got, at, a, b, lo, a + n - 1);
    }
  }

  lemma WindowNumbers(frames: seq<Frame>, got: seq<Frame>, at: seq<nat>, a: nat, b: nat, lo: int)
    requires a <= b && CountFrom(frames, a, b, lo) && SentAs(got, frames, at, a, b) && a in at && b in at
    ensures Distinct(got) && Extremes(got, lo, lo + (b - a))
  {
    NumberTells(frames, got, at, a, b, lo, a); NumberTells(frames, got, at, a, b, lo, b);
  }

  // What a drain writes of frames received once each, in any order: the blocks sent from the first to the last of them
  // in order, each missing one replaced by noise if noise is to be added
  lemma OrderedDrain(cfg: Settings, frames: seq<Frame>, d: seq<Frame>, w: seq<Frame>, at: seq<nat>, a: nat, b: nat,
                     n: nat, r: seq<bv8>)
    requires cfg.ordered && Numbered(frames) && a <= b < |frames| && OneCount(a, b)
    requires SortedVersion(d, w) && SentAs(w, frames, at, a, b) && a in at && b in at
    requires n == b + 1 - a && r == Reassembled(cfg, frames, at, a, n)
    ensures Drained(cfg, d, |d|) == r
  {
    var lo := frames[a].number;
    OneCountIsFrom(frames, a, b);
    WindowNumbers(frames, w, at, a, b, lo);
    FilledIsReassembled(cfg, frames, w, at, a, b, lo, n);
    DrainFills(cfg, d, w, lo, lo + (b - a), n, r);
  }

  // ------------------------------------------------------------------ every window of a capture

  // Frames a to b of a transmission, of which those at these places were received
  datatype Span = Span(at: seq<nat>, a: nat, b: nat)

  // The frames of a window were sent once each, and the count does not turn between the first and the last of them.
  ghost predicate WindowSent(w: seq<Frame>, frames: seq<Frame>, s: Span) {
    s.a <= s.b < |frames| && OneCount(s.a, s.b) && SentAs(w, frames, s.at, s.a, s.b) && s.a in s.at && s.b in s.at
  }

  ghost predicate AllWindowsSent(ws: seq<seq<Frame>>, frames: seq<Frame>, spans: seq<Span>) {
    |spans| == |ws| && forall i :: 0 <= i < |ws| ==> ws[i] == [] || WindowSent(ws[i], frames, spans[i])
  }

  ghost function WindowReassembled(cfg: Settings, w: seq<Frame>, frames: seq<Frame>, s: Span): seq<bv8>
    requires w == [] || WindowSent(w, frames, s)
  {
    if w == [] then [] else Reassembled(cfg, frames, s.at, s.a, s.b + 1 - s.a)
  }

  // What stands for each of the windows
  ghost function WindowsReassembled(cfg: Settings, ws: seq<seq<Frame>>, frames: seq<Frame>,
                                    spans: seq<Span>): (parts: seq<seq<bv8>>)
    requires AllWindowsSent(ws, frames, spans)
    ensures |parts| == |ws|
    ensures forall i :: 0 <= i < |parts| ==> parts[i] == WindowReassembled(cfg, ws[i], frames, spans[i])
  {
    seq(|ws|, i requires 0 <= i < |ws| => WindowReassembled(cfg, ws[i], frames, spans[i]))
  }

  lemma SentWindowDrained(cfg: Settings, frames: seq<Frame>, d: seq<Frame>, w: seq<Frame>, s: Span, n: nat, r: seq<bv8>)
    requires cfg.ordered && Numbered(frames) && SortedVersion(d, w) && WindowSent(w, frames, s)
    requires n == s.b + 1 - s.a && r == Reassembled(cfg, frames, s.at, s.a, n)
    ensures Drained(cfg, d, |d|) == r
  {
    OrderedDrain(cfg, frames, d, w, s.at, s.a, s.b, n, r);
  }

  lemma WindowDrained(cfg: Settings, frames: seq<Frame>, d: seq<Frame>, w: seq<Frame>, s: Span, r: seq<bv8>)
    requires cfg.ordered && Numbered(frames) && SortedVersion(d, w) && (w == [] || WindowSent(w, frames, s))
    requires r == WindowReassembled(cfg, w, frames, s)
    ensures Drained(cfg, d, |d|) == r
  {
    if w == [] {
      SameSize(d, w);
      assert d == [];
    } else {
      SentWindowDrained(cfg, frames, d, w, s, s.b + 1 - s.a, r);
    }
  }

  lemma {:induction false} DrainedInParts(cfg: Settings, ds: seq<seq<Frame>>, parts: seq<seq<bv8>>)
    requires |parts| == |ds| && forall i :: 0 <= i < |ds| ==> Drained(cfg, ds[i], |ds[i]|) == parts[i]
    ensures DrainedAll(cfg, ds) == Flatten(parts)
  {
    if ds != [] { DrainedInParts(cfg, ds[..|ds| - 1], parts[..|ds| - 1]); }
  }

  lemma WindowsDrained(cfg: Settings, frames: seq<Frame>, ws: seq<seq<Frame>>, ds: seq<seq<Frame>>, spans: seq<Span>,
                       parts: seq<seq<bv8>>)
    requires cfg.ordered && Numbered(frames) && Drains(ws, ds) && AllWindowsSent(ws, frames, spans)
    requires parts == WindowsReassembled(cfg, ws, frames, spans)
    ensures DrainedAll(cfg, ds) == Flatten(parts)
  {
    forall i | 0 <= i < |ds| ensures Drained(cfg, ds[i], |ds[i]|) == parts[i] {
      WindowDrained(cfg, frames, ds[i], ws[i], spans[i], parts[i]);
    }
    DrainedInParts(cfg, ds, parts);
  }

  // Everything written, the final flush included
  lemma FlushedOutput(cfg: Settings, ins: seq<Input>, d: seq<Frame>)
    requires Flushed(cfg, ins, d)
    ensures Drains(AllWindows(cfg, ins), AllDrains(cfg, ins, d))
    ensures Dumped(cfg, Run(cfg, ins), d).output == DrainedAll(cfg, AllDrains(cfg, ins, d))
  {
    EveryRun(cfg, ins);
    DumpedBooks(cfg, Run(cfg, ins), Arrived(cfg, ins), Windows(cfg, ins), DrainsOf(cfg, ins), d);
  }

  // The groups in which the captured frames go through the buffer
  ghost function Groups(cfg: Settings, events: seq<Event>): seq<seq<Frame>> {
    FillingOf(cfg, events).groups + [FillingOf(cfg, events).open]
  }

  // End to end: if the frames that go through the buffer together were sent once each, and the count does not turn
  // among them, then for every such group the blocks sent, from its first to its last, are written in order, with noise
  // for those that are missing.
  lemma OrderedCapture(cfg: Settings, data: seq<bv8>, frames: seq<Frame>, events: seq<Event>, ins: seq<Input>,
                       d: seq<Frame>, spans: seq<Span>)
    requires cfg.ordered && Transmission(data, cfg.payload, frames) && InputsFor(cfg, events, ins)
             && Flushed(cfg, ins, d)
    requires AllWindowsSent(Groups(cfg, events), frames, spans)
    ensures Dumped(cfg, Run(cfg, ins), d).output ==
            Flatten(WindowsReassembled(cfg, Groups(cfg, events), frames, spans))
  {
    var ws, ds := AllWindows(cfg, ins), AllDrains(cfg, ins, d);
    WindowsAre(cfg, events, ins);
    FlushedOutput(cfg, ins, d);
    WindowsDrained(cfg, frames, ws, ds, spans, WindowsReassembled(cfg, ws, frames, spans));
  }

  // ------------------------------------------------------------------ exactly when the order is that of sending

  ghost predicate InSendingOrder(at: seq<nat>) { forall i, j :: 0 <= i < j < |at| ==> at[i] < at[j] }

  // Frames sorted by number are in the order of sending if and only if the count does not turn between the first and
  // the last of them.
  lemma SendingOrderIff(frames: seq<Frame>, d: seq<Frame>, at: seq<nat>, a: nat, b: nat)
    requires Numbered(frames) && Sorted(d) && a <= b < a + BUFFER_MAX && SentAs(d, frames, at, a, b) && a in at
             && b in at
    ensures InSendingOrder(at) <==> OneCount(a, b)
  {
    if OneCount(a, b) {
      forall i, j | 0 <= i < j < |at| ensures at[i] < at[j] {
        NumbersCountOn(a, b, at[i]); NumbersCountOn(a, b, at[j]);
      }
    } else {
      var k :| a < k < a + (b + 1 - a) && Turns(k);
      CountDrops(a, k, b);
      var i :| 0 <= i < |at| && at[i] == a;
      var j :| 0 <= j < |at| && at[j] == b;
      assert d[j].number < d[i].number;
    }
  }

  // An example: of the frames 2^31 - 1 and 2^31, the later one is written first.
  lemma TurnedFrames(frames: seq<Frame>, d: seq<Frame>, at: seq<nat>, k: nat)
    requires Numbered(frames) && k == 0x8000_0000 < |frames| && Sorted(d) && |d| == 2
    requires SentAs(d, frames, at, k - 1, k)
    ensures at == [k, k - 1]
  {
    CountDrops(k - 1, k, k);
    assert d[0].number <= d[1].number;
    assert at[0] != k - 1;
  }

  // ------------------------------------------------------------------ everything arrives

  lemma {:induction false} WholeReassembled(cfg: Settings, frames: seq<Frame>, at: seq<nat>, n: nat)
    requires n <= |frames| && forall m: nat :: m < |frames| ==> m in at
    ensures Reassembled(cfg, frames, at, 0, n) == Concat(frames[..n])
  {
    if n > 0 {
      WholeReassembled(cfg, frames, at, n - 1);
      assert frames[..n][..n - 1] == frames[..n - 1];
    }
  }

  lemma AllReassembled(cfg: Settings, frames: seq<Frame>, at: seq<nat>)
    requires forall m: nat :: m < |frames| ==> m in at
    ensures Reassembled(cfg, frames, at, 0, |frames|) == Concat(frames)
  {
    WholeReassembled(cfg, frames, at, |frames|);
    assert frames[..|frames|] == frames;
  }

  // Which frames of a short transmission those received are, all of them once
  lemma AllSent(got: seq<Frame>, frames: seq<Frame>) returns (at: seq<nat>)
    requires multiset(got) == multiset(frames) && Numbered(frames) && 0 < |frames| <= BUFFER_MAX
    ensures SentAs(got, frames, at, 0, |frames| - 1) && forall m: nat :: m < |frames| ==> m in at
  {
    forall i | 0 <= i < |got| ensures 0 <= got[i].number < |frames| && got[i] == frames[got[i].number] {
      assert got[i] in multiset(frames);
      var k :| 0 <= k < |frames| && frames[k] == got[i];
      EarlyNumber(k);
    }
    at := seq(|got|, i requires 0 <= i < |got| => got[i].number);
    forall m: nat | m < |frames| ensures m in at {
      assert frames[m] in multiset(got);
      var i :| 0 <= i < |got| && got[i] == frames[m];
      EarlyNumber(m);
      assert at[i] == m;
    }
    EarlyIncreasing(frames);
    EachOnce(got, frames);
  }

  lemma EarlyNumber(k: nat)
    requires k < BUFFER_MAX
    ensures NumberAt(k) == k
  {}

  lemma EarlyIncreasing(frames: seq<Frame>)
    requires Numbered(frames) && |frames| <= BUFFER_MAX
    ensures Increasing(frames)
  {
    forall k | 0 <= k < |frames| ensures frames[k].number == k { EarlyNumber(k); }
  }

  lemma EachOnce(got: seq<Frame>, frames: seq<Frame>)
    requires multiset(got) == multiset(frames) && Increasing(frames)
    ensures Distinct(got)
  {
    forall i, j | 0 <= i < j < |got| ensures got[i].number != got[j].number {
      if got[i].number == got[j].number { TwiceMeansRepeated(got, frames, i, j); }
    }
  }

  // A transmission of which every frame arrives once, in any order, is written as it was sent.
  lemma WholeCapture(cfg: Settings, data: seq<bv8>, frames: seq<Frame>, events: seq<Event>, ins: seq<Input>,
                     d: seq<Frame>)
    requires cfg.Valid() && cfg.ordered && Transmission(data, cfg.payload, frames) && frames != []
    requires InputsFor(cfg, events, ins) && Flushed(cfg, ins, d) && CapturedBytes(cfg, events) < cfg.bufferSize
    requires multiset(Carried(cfg, events)) == multiset(frames)
    ensures Dumped(cfg, Run(cfg, ins), d).output == Concat(frames)
  {
    ArrivedAre(cfg, events, ins);
    AllPending(cfg, events, ins);
    SameSize(Arrived(cfg, ins), frames);
    var at := AllSent(Arrived(cfg, ins), frames);
    NoEarlyTurn(0, |frames|);
    AllReassembled(cfg, frames, at);
    OrderedDrain(cfg, frames, d, Run(cfg, ins).pending, at, 0, |frames| - 1, |frames|, Concat(frames));
  }

  // ------------------------------------------------------------------ everything arrives in order

  ghost predicate Consecutive(fs: seq<Frame>) {
    forall i {:trigger fs[i]} :: 0 < i < |fs| ==> fs[i].number == fs[i - 1].number + 1
  }

  lemma {:induction false} ConsecutiveFrom(fs: seq<Frame>, i: nat, j: nat)
    requires Consecutive(fs) && i <= j < |fs|
    ensures fs[j].number == fs[i].number + (j - i)
  {
    if i < j { ConsecutiveFrom(fs, i, j - 1); }
  }

  lemma ConsecutiveIncreases(fs: seq<Frame>)
    requires Consecutive(fs)
    ensures Increasing(fs)
  {
    forall i, j | 0 <= i < j < |fs| ensures fs[i].number < fs[j].number { ConsecutiveFrom(fs, i, j); }
  }

  // Consecutive frames leave no gaps.
  lemma {:induction false} ConsecutiveDrain(cfg: Settings, fs: seq<Frame>, n: nat)
    requires Consecutive(fs) && n <= |fs|
    ensures Drained(cfg, fs, n) == Concat(fs[..n])
  {
    if n > 0 {
      ConsecutiveDrain(cfg, fs, n - 1);
      assert fs[..n][..n - 1] == fs[..n - 1] && Gap(cfg, fs, n - 1) == 0 && NoiseBlocks(cfg, 0) == [];
    }
  }

  lemma SortedConsecutive(cfg: Settings, d: seq<Frame>, w: seq<Frame>)
    requires SortedVersion(d, w) && Consecutive(w)
    ensures Drained(cfg, d, |d|) == Concat(w)
  {
    ConsecutiveIncreases(w);
    SortedDistinctIncreases(d, w);
    IncreasingUnique(d, w);
    ConsecutiveDrain(cfg, w, |w|);
    assert w[..|w|] == w;
  }

  lemma ConsecutiveParts(a: seq<Frame>, b: seq<Frame>)
    requires Consecutive(a + b)
    ensures Consecutive(a) && Consecutive(b)
  {
    forall i | 0 < i < |a| ensures a[i].number == a[i - 1].number + 1 { assert (a + b)[i] == a[i]; }
    forall i | 0 < i < |b| ensures b[i].number == b[i - 1].number + 1 { assert (a + b)[|a| + i] == b[i]; }
  }

  lemma {:induction false} ConsecutiveDrains(cfg: Settings, ws: seq<seq<Frame>>, ds: seq<seq<Frame>>)
    requires Drains(ws, ds) && Consecutive(Flatten(ws))
    ensures DrainedAll(cfg, ds) == Concat(Flatten(ws))
  {
    if ws != [] {
      var l := |ws| - 1;
      ConsecutiveParts(Flatten(ws[..l]), ws[l]);
      ConsecutiveDrains(cfg, ws[..l], ds[..l]);
      SortedConsecutive(cfg, ds[l], ws[l]);
      ConcatAppend(Flatten(ws[..l]), ws[l]);
    }
  }

  // Up to 2^31 frames that all arrive, in order, are written as they were sent, however often the buffer is full.
  lemma CaptureInOrder(cfg: Settings, data: seq<bv8>, frames: seq<Frame>, events: seq<Event>, ins: seq<Input>,
                       d: seq<Frame>)
    requires cfg.ordered && Transmission(data, cfg.payload, frames) && |frames| <= 0x8000_0000
    requires InputsFor(cfg, events, ins) && Flushed(cfg, ins, d) && Carried(cfg, events) == frames
    ensures Dumped(cfg, Run(cfg, ins), d).output == Concat(frames)
  {
    ArrivedAre(cfg, events, ins);
    EveryRun(cfg, ins);
    FlattenNext(Windows(cfg, ins), Run(cfg, ins).pending);
    FlushedOutput(cfg, ins, d);
    forall i | 0 < i < |frames| ensures frames[i].number == frames[i - 1].number + 1 { EarlyNumbers(i); }
    ConsecutiveDrains(cfg, AllWindows(cfg, ins), AllDrains(cfg, ins, d));
  }

  lemma EarlyNumbers(i: nat)
    requires 0 < i < 0x8000_0000
    ensures NumberAt(i) == NumberAt(i - 1) + 1
  {
    NextCount(i - 1);
  }
}
