/** What holds after every run of the receiver. */
module CaptureRuns {
  import opened Sequences
  import opened Counters
  import opened FrameOrder
  import opened CaptureSpec

  // One captured frame, and the order in which the buffer was drained if it was full
  datatype Input = Input(event: Event, drained: seq<Frame>)

  ghost function Run(cfg: Settings, ins: seq<Input>): Control {
    if ins == [] then InitialControl()
    else var last := ins[|ins| - 1]; Step(cfg, Run(cfg, ins[..|ins| - 1]), last.event, last.drained)
  }

  // Every drain takes the pending frames in order of their numbers.
  ghost predicate Possible(cfg: Settings, ins: seq<Input>) {
    ins == [] ||
    var init, last := ins[..|ins| - 1], ins[|ins| - 1];
    Possible(cfg, init) && (Dumps(cfg, Run(cfg, init), last.event) ==>
      SortedVersion(last.drained, Run(cfg, init).pending))
  }

  ghost predicate Queues(cfg: Settings, e: Event) { e.Data? && |e.payload| == cfg.payload }

  ghost function NextArrived(cfg: Settings, s: Control, e: Event, arrived: seq<Frame>): seq<Frame> {
    if Queues(cfg, e) then arrived + [Frame(NumberOf(cfg, s, FrameNumber(e.addr1)), e.payload)] else arrived
  }

  ghost function NextGroups(cfg: Settings, s: Control, e: Event, group: seq<Frame>,
                            groups: seq<seq<Frame>>): seq<seq<Frame>> {
    if Dumps(cfg, s, e) then groups + [group] else groups
  }

  // The frames queued, in order of arrival; the groups of them that were drained together; and these as drained
  ghost function Arrived(cfg: Settings, ins: seq<Input>): seq<Frame> {
    if ins == [] then []
    else
      var init, last := ins[..|ins| - 1], ins[|ins| - 1];
      NextArrived(cfg, Run(cfg, init), last.event, Arrived(cfg, init))
  }

  ghost function Windows(cfg: Settings, ins: seq<Input>): seq<seq<Frame>> {
    if ins == [] then []
    else
      var init, last := ins[..|ins| - 1], ins[|ins| - 1];
      NextGroups(cfg, Run(cfg, init), last.event, Run(cfg, init).pending, Windows(cfg, init))
  }

  ghost function DrainsOf(cfg: Settings, ins: seq<Input>): seq<seq<Frame>> {
    if ins == [] then []
    else
      var init, last := ins[..|ins| - 1], ins[|ins| - 1];
      NextGroups(cfg, Run(cfg, init), last.event, last.drained, DrainsOf(cfg, init))
  }

  // ------------------------------------------------------------------ the books of every run

  ghost predicate Counted(cfg: Settings, frames: nat, lost: int, padding: nat, st: Stats) {
    st.writelen == Wrap(PayloadBytes(cfg, frames)) && st.blocksLost == Wrap(lost) && st.noiseAdded == Wrap(padding)
  }

  lemma CountedNext(cfg: Settings, frames: nat, lost: int, padding: nat, st: Stats, n: nat, l: int, p: nat, st': Stats)
    requires Counted(cfg, frames, lost, padding, st) && st'.writelen == Wrap(st.writelen + PayloadBytes(cfg, n))
    requires st'.blocksLost == Wrap(st.blocksLost + l) && st'.noiseAdded == Wrap(st.noiseAdded + p)
    ensures Counted(cfg, frames + n, lost + l, padding + p, st')
  {
    PayloadBytesAdd(cfg, frames, n);
    CounterNext(st.writelen, PayloadBytes(cfg, frames), PayloadBytes(cfg, n), st'.writelen,
                PayloadBytes(cfg, frames + n));
    CounterNext(st.blocksLost, lost, l, st'.blocksLost, lost + l);
    CounterNext(st.noiseAdded, padding, p, st'.noiseAdded, padding + p);
  }

  ghost predicate Taken(cfg: Settings, arrived: seq<Frame>, st: Stats) {
    && st.processed == Wrap(|arrived|) && st.payloadSize == Wrap(PayloadBytes(cfg, |arrived|))
    && (!cfg.ordered ==> forall i :: 0 <= i < |arrived| ==> arrived[i].number == AsInt32(Wrap(i)))
  }

  lemma DrainsNext(cfg: Settings, ws: seq<seq<Frame>>, ds: seq<seq<Frame>>, w: seq<Frame>, d: seq<Frame>)
    ensures Flatten(ws + [w]) == Flatten(ws) + w
            && DrainedAll(cfg, ds + [d]) == DrainedAll(cfg, ds) + Drained(cfg, d, |d|)
    ensures LostAll(cfg, ds + [d]) == LostAll(cfg, ds) + Lost(cfg, d, |d|)
    ensures PaddingAll(cfg, ds + [d]) == PaddingAll(cfg, ds) + Padding(cfg, d, |d|)
  {
    FlattenNext(ws, w);
    assert (ds + [d])[..|ds|] == ds;
  }

  lemma DrainsWindow(ws: seq<seq<Frame>>, ds: seq<seq<Frame>>, w: seq<Frame>, d: seq<Frame>)
    requires Drains(ws, ds) && Sorted(d) && multiset(d) == multiset(w)
    ensures Drains(ws + [w], ds + [d])
  {}

  // Output and counters, apart from the frames drained
  ghost predicate Tallied(cfg: Settings, ws: seq<seq<Frame>>, ds: seq<seq<Frame>>, output: seq<bv8>, st: Stats) {
    output == DrainedAll(cfg, ds) && Counted(cfg, |Flatten(ws)|, LostAll(cfg, ds), PaddingAll(cfg, ds), st)
  }

  lemma TalliedNext(cfg: Settings, ws: seq<seq<Frame>>, ds: seq<seq<Frame>>, output: seq<bv8>, st: Stats, w: seq<Frame>,
                    d: seq<Frame>, output': seq<bv8>, st': Stats)
    requires Tallied(cfg, ws, ds, output, st) && |d| == |w| && Drain(cfg, d, |d|, output, st, output', st')
    ensures Tallied(cfg, ws + [w], ds + [d], output', st')
  {
    var f, l, p, f', l', p' := |Flatten(ws)|, LostAll(cfg, ds), PaddingAll(cfg, ds), |d|, Lost(cfg, d, |d|),
      Padding(cfg, d, |d|);
    CountedNext(cfg, f, l, p, st, f', l', p', st');
    DrainsNext(cfg, ws, ds, w, d);
  }

  lemma TakenNext(cfg: Settings, arrived: seq<Frame>, st: Stats, f: Frame, st': Stats)
    requires Taken(cfg, arrived, st) && (!cfg.ordered ==> f.number == AsInt32(st.processed))
    requires st'.processed == Wrap(st.processed + 1) && st'.payloadSize == Wrap(st.payloadSize + cfg.payload)
    ensures Taken(cfg, arrived + [f], st')
  {
    CounterNext(st.processed, |arrived|, 1, st'.processed, |arrived| + 1);
    CounterNext(st.payloadSize, PayloadBytes(cfg, |arrived|), cfg.payload, st'.payloadSize,
                PayloadBytes(cfg, |arrived| + 1));
  }

  // What was queued has been drained or is pending, and output and counters tell of just that.
  ghost predicate Books(cfg: Settings, s: Control, arrived: seq<Frame>, ws: seq<seq<Frame>>, ds: seq<seq<Frame>>) {
    && Drains(ws, ds) && Tallied(cfg, ws, ds, s.output, s.stats) && Taken(cfg, arrived, s.stats)
         && arrived == Flatten(ws) + s.pending
  }

  lemma DumpedBooks(cfg: Settings, s: Control, arrived: seq<Frame>, ws: seq<seq<Frame>>, ds: seq<seq<Frame>>,
                    d: seq<Frame>)
    requires Books(cfg, s, arrived, ws, ds) && SortedVersion(d, s.pending)
    ensures Books(cfg, Dumped(cfg, s, d), arrived, ws + [s.pending], ds + [d])
  {
    var t := Dumped(cfg, s, d);
    SameSize(d, s.pending);
    DrainsWindow(ws, ds, s.pending, d);
    TalliedNext(cfg, ws, ds, s.output, s.stats, s.pending, d, t.output, t.stats);
    DrainsNext(cfg, ws, ds, s.pending, d);
  }

  lemma QueuedBooks(cfg: Settings, s: Control, arrived: seq<Frame>, ws: seq<seq<Frame>>, ds: seq<seq<Frame>>,
                    number: int, payload: seq<bv8>, overhead: nat)
    requires Books(cfg, s, arrived, ws, ds)
    ensures Books(cfg, Queued(cfg, s, number, payload, overhead), arrived + [Frame(NumberOf(cfg, s, number), payload)],
                  ws, ds)
  {
    var t := Queued(cfg, s, number, payload, overhead);
    TakenNext(cfg, arrived, s.stats, Frame(NumberOf(cfg, s, number), payload), t.stats);
  }

  lemma StepBooks(cfg: Settings, s: Control, arrived: seq<Frame>, ws: seq<seq<Frame>>, ds: seq<seq<Frame>>, e: Event,
                  d: seq<Frame>)
    requires Books(cfg, s, arrived, ws, ds) && (Dumps(cfg, s, e) ==> SortedVersion(d, s.pending))
    ensures Books(cfg, Step(cfg, s, e, d), NextArrived(cfg, s, e, arrived), NextGroups(cfg, s, e, s.pending, ws),
                  NextGroups(cfg, s, e, d, ds))
  {
    if Queues(cfg, e) {
      if Full(cfg, s) {
        DumpedBooks(cfg, s, arrived, ws, ds, d);
        QueuedBooks(cfg, Dumped(cfg, s, d), arrived, ws + [s.pending], ds + [d], FrameNumber(e.addr1), e.payload,
                    e.overhead);
      } else {
        QueuedBooks(cfg, s, arrived, ws, ds, FrameNumber(e.addr1), e.payload, e.overhead);
      }
    }
  }

  lemma {:induction false} EveryRun(cfg: Settings, ins: seq<Input>)
    requires Possible(cfg, ins)
    ensures Books(cfg, Run(cfg, ins), Arrived(cfg, ins), Windows(cfg, ins), DrainsOf(cfg, ins))
  {
    if ins != [] {
      var init, last := ins[..|ins| - 1], ins[|ins| - 1];
      EveryRun(cfg, init);
      StepBooks(cfg, Run(cfg, init), Arrived(cfg, init), Windows(cfg, init), DrainsOf(cfg, init), last.event,
                last.drained);
    }
  }

  // ------------------------------------------------------------------ the end of a capture

  // What tells the receiver to end: the end of a transmission, or the start of another after some frames.
  ghost predicate TellsEnd(e: Event, frames: nat) { e.EndOfTransmission? || (e.Preamble? && Wrap(frames) > 0) }

  ghost predicate EndsAt(cfg: Settings, ins: seq<Input>, i: nat)
    requires i < |ins|
  {
    TellsEnd(ins[i].event, |Arrived(cfg, ins[..i])|)
  }

  ghost predicate Ended(cfg: Settings, ins: seq<Input>) { exists i :: 0 <= i < |ins| && EndsAt(cfg, ins, i) }

  lemma EndedNext(cfg: Settings, ins: seq<Input>, x: Input)
    ensures Ended(cfg, ins + [x]) <==> Ended(cfg, ins) || TellsEnd(x.event, |Arrived(cfg, ins)|)
  {
    var all := ins + [x];
    assert all[..|ins|] == ins;
    assert EndsAt(cfg, all, |ins|) <==> TellsEnd(x.event, |Arrived(cfg, ins)|);
    forall i | 0 <= i < |ins| ensures EndsAt(cfg, all, i) <==> EndsAt(cfg, ins, i) { assert all[..i] == ins[..i]; }
  }

  lemma StepEnds(cfg: Settings, s: Control, e: Event, d: seq<Frame>, frames: nat)
    requires (s.eotReached ==> s.endCapture) && s.stats.processed == Wrap(frames)
    ensures var t := Step(cfg, s, e, d);
            (t.eotReached ==> t.endCapture) && (t.endCapture <==> s.endCapture || TellsEnd(e, frames))
  {}

  // The receiver is to end if and only if some capture told it to.
  lemma {:induction false} EndsIff(cfg: Settings, ins: seq<Input>)
    requires Possible(cfg, ins)
    ensures Run(cfg, ins).eotReached ==> Run(cfg, ins).endCapture
    ensures Run(cfg, ins).endCapture <==> Ended(cfg, ins)
  {
    if ins != [] {
      var init, last := ins[..|ins| - 1], ins[|ins| - 1];
      assert ins == init + [last];
      EndsIff(cfg, init);
      EveryRun(cfg, init);
      StepEnds(cfg, Run(cfg, init), last.event, last.drained, |Arrived(cfg, init)|);
      EndedNext(cfg, init, last);
    }
  }

  // What the flags tell
  lemma {:induction false} FlagsTell(cfg: Settings, ins: seq<Input>)
    ensures Run(cfg, ins).eotReached <==> exists i :: 0 <= i < |ins| && ins[i].event.EndOfTransmission?
    ensures Run(cfg, ins).preambleReceived <==> exists i :: 0 <= i < |ins| && ins[i].event.Preamble?
  {
    if ins != [] {
      var init, last := ins[..|ins| - 1], ins[|ins| - 1];
      FlagsTell(cfg, init);
      assert forall i :: 0 <= i < |init| ==> init[i] == ins[i];
      assert ins == init + [last];
    }
  }

  // ------------------------------------------------------------------ the final flush

  // The run, and the buffer written out after it
  ghost predicate Flushed(cfg: Settings, ins: seq<Input>, d: seq<Frame>) {
    Possible(cfg, ins) && SortedVersion(d, Run(cfg, ins).pending)
  }

  // Every queued frame is written exactly once.
  lemma FlushWritesAll(cfg: Settings, ins: seq<Input>, d: seq<Frame>)
    requires Flushed(cfg, ins, d)
    ensures var n, st := |Arrived(cfg, ins)|, Dumped(cfg, Run(cfg, ins), d).stats;
            st.processed == Wrap(n) && st.writelen == Wrap(cfg.payload * n) && st.payloadSize == Wrap(cfg.payload * n)
    ensures multiset(Flatten(DrainsOf(cfg, ins)) + d) == multiset(Arrived(cfg, ins))
  {
    var s := Run(cfg, ins);
    EveryRun(cfg, ins);
    DumpedBooks(cfg, s, Arrived(cfg, ins), Windows(cfg, ins), DrainsOf(cfg, ins), d);
    DrainsNext(cfg, Windows(cfg, ins), DrainsOf(cfg, ins), s.pending, d);
    PayloadBytesAre(cfg, |Arrived(cfg, ins)|);
    DrainsPermute(Windows(cfg, ins), DrainsOf(cfg, ins));
  }

  lemma {:induction false} DrainsPermute(ws: seq<seq<Frame>>, ds: seq<seq<Frame>>)
    requires Drains(ws, ds)
    ensures multiset(Flatten(ws)) == multiset(Flatten(ds))
  {
    if ws != [] { DrainsPermute(ws[..|ws| - 1], ds[..|ds| - 1]); }
  }

  // ------------------------------------------------------------------ without frame numbers

  // Frames that count arrivals from number start on, in 32 signed bits
  ghost predicate Counting(w: seq<Frame>, start: nat) {
    forall j :: 0 <= j < |w| ==> w[j].number == AsInt32(Wrap(start + j))
  }

  // The count goes from the highest number to the lowest.
  ghost predicate Turns(k: nat) { Wrap(k) == 0x8000_0000 }

  // It does so between two of n frames.
  ghost predicate Straddles(start: nat, n: nat) { exists k :: start < k < start + n && Turns(k) }

  lemma NextCount(k: nat)
    ensures Wrap(k + 1) != 0x8000_0000 ==> AsInt32(Wrap(k + 1)) == AsInt32(Wrap(k)) + 1
    ensures Wrap(k + 1) == 0x8000_0000 ==> AsInt32(Wrap(k + 1)) < AsInt32(Wrap(k))
  {
    WrapNext(k);
  }

  lemma WrapNext(k: nat)
    ensures Wrap(k + 1) == if Wrap(k) == 0xFFFF_FFFF then 0 else Wrap(k) + 1
  {
    var m := 0x1_0000_0000;
    assert k + 1 == (k / m) * m + (Wrap(k) + 1);
  }

  lemma ShorterDoesNot(start: nat, m: nat, n: nat)
    requires m <= n && !Straddles(start, n)
    ensures !Straddles(start, m)
  {}

  lemma {:induction false} CountsOn(a: nat, k: nat)
    requires a <= k && !Straddles(a, k + 1 - a)
    ensures AsInt32(Wrap(k)) == AsInt32(Wrap(a)) + (k - a)
  {
    if a < k {
      assert !Turns(k);
      ShorterDoesNot(a, k - a, k + 1 - a);
      CountsOn(a, k - 1);
      NextCount(k - 1);
    }
  }

  // Across the turn the count drops.
  lemma CountDrops(a: nat, k: nat, b: nat)
    requires a < k <= b < a + 0x1_0000_0000 - 1 && Turns(k)
    ensures AsInt32(Wrap(b)) < AsInt32(Wrap(a))
  {
    forall i | a < i <= b && i != k ensures !Turns(i) {
      if i < k { DifferentCounts(i, k); } else { DifferentCounts(k, i); }
    }
    CountsOn(a, k - 1); CountsOn(k, b);
    WrapNext(k - 1);
  }

  lemma DifferentCounts(a: nat, b: nat)
    requires a < b < a + 0x1_0000_0000
    ensures AsInt32(Wrap(a)) != AsInt32(Wrap(b))
  {
    var m := 0x1_0000_0000;
    assert a == (a / m) * m + Wrap(a) && b == (b / m) * m + Wrap(b);
    if Wrap(a) == Wrap(b) { NoMultipleBetween(b / m - a / m, m); }
  }

  lemma NoMultipleBetween(d: int, m: int)
    requires m > 0
    ensures !(0 < d * m < m)
  {
    assert d >= 1 ==> d * m >= m;
    assert d <= 0 ==> d * m <= 0;
  }

  // Frames that count arrivals are in increasing order unless they straddle the highest number.
  lemma IncreasingIff(w: seq<Frame>, start: nat)
    requires Counting(w, start)
    ensures Increasing(w) <==> !Straddles(start, |w|)
  {
    if Straddles(start, |w|) {
      var k :| start < k < start + |w| && Turns(k);
      NextCount(k - 1);
      assert w[k - start].number < w[k - start - 1].number;
    } else {
      forall i | 0 <= i < |w| ensures w[i].number == AsInt32(Wrap(start)) + i {
        ShorterDoesNot(start, i + 1, |w|);
        CountsOn(start, start + i);
      }
    }
  }

  lemma CountsAreDistinct(w: seq<Frame>, start: nat)
    requires Counting(w, start) && |w| <= BUFFER_MAX
    ensures Distinct(w)
  {
    forall i, j | 0 <= i < j < |w| ensures w[i].number != w[j].number { DifferentCounts(start + i, start + j); }
  }

  // A window leaves the heap as it arrived exactly if it does not straddle.
  lemma KeptOrderIff(d: seq<Frame>, w: seq<Frame>, start: nat)
    requires SortedVersion(d, w) && Counting(w, start) && |w| <= BUFFER_MAX
    ensures d == w <==> !Straddles(start, |w|)
  {
    CountsAreDistinct(w, start);
    SortedDistinctIncreases(d, w);
    IncreasingIff(w, start);
    if Increasing(w) { IncreasingUnique(d, w); }
  }

  // How many frames arrived before window i
  ghost function StartOf(ws: seq<seq<Frame>>, i: nat): nat
    requires i <= |ws|
  {
    |Flatten(ws[..i])|
  }

  ghost predicate NoneStraddles(ws: seq<seq<Frame>>) {
    forall i :: 0 <= i < |ws| ==> !Straddles(StartOf(ws, i), |ws[i]|)
  }

  ghost predicate SmallWindows(ws: seq<seq<Frame>>) { forall i :: 0 <= i < |ws| ==> |ws[i]| <= BUFFER_MAX }

  lemma PartsCount(all: seq<Frame>, m: nat)
    requires Counting(all, 0) && m <= |all|
    ensures Counting(all[..m], 0) && Counting(all[m..], m)
  {}

  lemma NoneStraddlesNext(ws: seq<seq<Frame>>)
    requires ws != []
    ensures var l := |ws| - 1;
            NoneStraddles(ws) <==> NoneStraddles(ws[..l]) && !Straddles(StartOf(ws, l), |ws[l]|)
  {
    var l := |ws| - 1;
    forall i | 0 <= i < l
      ensures StartOf(ws, i) == StartOf(ws[..l], i) && ws[i] == ws[..l][i]
    {
      assert ws[..l][..i] == ws[..i];
    }
  }

  lemma {:induction false} DrainsKeepOrderIff(ws: seq<seq<Frame>>, ds: seq<seq<Frame>>)
    requires Drains(ws, ds) && SmallWindows(ws) && Counting(Flatten(ws), 0)
    ensures |Flatten(ds)| == |Flatten(ws)|
    ensures Flatten(ds) == Flatten(ws) <==> NoneStraddles(ws)
  {
    if ws != [] {
      var l := |ws| - 1;
      var all, m := Flatten(ws), StartOf(ws, l);
      assert all == Flatten(ws[..l]) + ws[l];
      assert all[..m] == Flatten(ws[..l]) && all[m..] == ws[l];
      PartsCount(all, m);
      DrainsKeepOrderIff(ws[..l], ds[..l]);
      KeptOrderIff(ds[l], ws[l], m);
      NoneStraddlesNext(ws);
      SameSize(ds[l], ws[l]);
      SameParts(Flatten(ds[..l]), ds[l], Flatten(ws[..l]), ws[l]);
    }
  }

  lemma {:induction false} UnorderedDrains(cfg: Settings, ds: seq<seq<Frame>>)
    requires !cfg.ordered
    ensures DrainedAll(cfg, ds) == Concat(Flatten(ds))
  {
    if ds != [] {
      var l := |ds| - 1;
      UnorderedDrains(cfg, ds[..l]);
      UnorderedDrain(cfg, ds[l], |ds[l]|);
      assert ds[l][..|ds[l]|] == ds[l];
      ConcatAppend(Flatten(ds[..l]), ds[l]);
    }
  }

  // The buffer never holds more frames than bytes.
  ghost predicate Few(cfg: Settings, s: Control) { |s.pending| <= s.index && |s.pending| <= cfg.bufferSize }

  lemma {:induction false} WindowsAreSmall(cfg: Settings, ins: seq<Input>)
    requires cfg.Valid() && Possible(cfg, ins)
    ensures Few(cfg, Run(cfg, ins)) && SmallWindows(Windows(cfg, ins))
  {
    if ins != [] { WindowsAreSmall(cfg, ins[..|ins| - 1]); }
  }

  // All windows of a run and the one flushed at its end, and these as drained
  ghost function AllWindows(cfg: Settings, ins: seq<Input>): seq<seq<Frame>> {
    Windows(cfg, ins) + [Run(cfg, ins).pending]
  }

  ghost function AllDrains(cfg: Settings, ins: seq<Input>, d: seq<Frame>): seq<seq<Frame>> { DrainsOf(cfg, ins) + [d] }

  // The frames are written in order of arrival, across all drains, exactly if no window straddles the highest number.
  lemma ArrivalOrder(cfg: Settings, ins: seq<Input>, d: seq<Frame>)
    requires cfg.Valid() && Flushed(cfg, ins, d) && !cfg.ordered
    ensures Dumped(cfg, Run(cfg, ins), d).output == Concat(Flatten(AllDrains(cfg, ins, d)))
    ensures Flatten(AllDrains(cfg, ins, d)) == Arrived(cfg, ins) <==> NoneStraddles(AllWindows(cfg, ins))
  {
    var s, ws, ds := Run(cfg, ins), Windows(cfg, ins), DrainsOf(cfg, ins);
    EveryRun(cfg, ins);
    DumpedBooks(cfg, s, Arrived(cfg, ins), ws, ds, d);
    DrainsNext(cfg, ws, ds, s.pending, d);
    WindowsAreSmall(cfg, ins);
    UnorderedDrains(cfg, AllDrains(cfg, ins, d));
    DrainsKeepOrderIff(AllWindows(cfg, ins), AllDrains(cfg, ins, d));
  }

  // Up to 2^31 frames no window does.
  lemma ShortRunsKeepOrder(cfg: Settings, ins: seq<Input>)
    requires Possible(cfg, ins) && |Arrived(cfg, ins)| <= 0x8000_0000
    ensures NoneStraddles(AllWindows(cfg, ins))
  {
    EveryRun(cfg, ins);
    FlattenNext(Windows(cfg, ins), Run(cfg, ins).pending);
    EarlyWindows(AllWindows(cfg, ins));
  }

  lemma EarlyWindows(ws: seq<seq<Frame>>)
    requires |Flatten(ws)| <= 0x8000_0000
    ensures NoneStraddles(ws)
  {
    forall i | 0 <= i < |ws| ensures !Straddles(StartOf(ws, i), |ws[i]|) {
      PrefixIsShorter(ws, i);
      NoEarlyTurn(StartOf(ws, i), |ws[i]|);
    }
  }

  lemma NoEarlyTurn(start: nat, n: nat)
    requires start + n <= 0x8000_0000
    ensures !Straddles(start, n)
  {}

  lemma {:induction false} PrefixIsShorter(ws: seq<seq<Frame>>, i: nat)
    requires i < |ws|
    ensures StartOf(ws, i) + |ws[i]| <= |Flatten(ws)|
    decreases |ws|
  {
    var l := |ws| - 1;
    if i < l {
      assert ws[..l][..i] == ws[..i];
      PrefixIsShorter(ws[..l], i);
    }
  }

  // ------------------------------------------------------------------ with frame numbers

  ghost predicate Extremes(fs: seq<Frame>, lo: int, hi: int) {
    Has(fs, lo) && Has(fs, hi) && forall i :: 0 <= i < |fs| ==> lo <= fs[i].number <= hi
  }

  lemma FirstAndLast(d: seq<Frame>, w: seq<Frame>, lo: int, hi: int)
    requires SortedVersion(d, w) && Extremes(w, lo, hi)
    ensures |d| == |w| > 0 && d[0].number == lo && d[|d| - 1].number == hi
  {
    SameSize(d, w);
    assert d[0] in multiset(w) && d[|d| - 1] in multiset(w);
    var i :| 0 <= i < |w| && w[i].number == lo;
    var j :| 0 <= j < |w| && w[j].number == hi;
    assert w[i] in multiset(d) && w[j] in multiset(d);
    var k :| 0 <= k < |d| && d[k] == w[i];
    var l :| 0 <= l < |d| && d[l] == w[j];
    assert d[0].number <= d[k].number && d[l].number <= d[|d| - 1].number;
  }

  // A drain counts as lost what is missing between the lowest and the highest number, less the repeated frames.
  lemma DumpCountsLoss(cfg: Settings, s: Control, d: seq<Frame>, lo: int, hi: int)
    requires cfg.ordered && SortedVersion(d, s.pending) && Extremes(s.pending, lo, hi)
    ensures Dumped(cfg, s, d).stats.blocksLost == Wrap(s.stats.blocksLost + (hi - lo + 1 - |s.pending|))
  {
    FirstAndLast(d, s.pending, lo, hi);
    LossTelescopes(cfg, d, |d|);
  }

  // Without repeated frames, noise is added for just those lost.
  lemma DumpCountsNoise(cfg: Settings, s: Control, d: seq<Frame>, lo: int, hi: int)
    requires cfg.ordered && SortedVersion(d, s.pending) && Distinct(s.pending) && Extremes(s.pending, lo, hi)
    ensures Dumped(cfg, s, d).stats.noiseAdded ==
            Wrap(s.stats.noiseAdded + if cfg.addNoise then (hi - lo + 1 - |s.pending|) * cfg.payload else 0)
  {
    LowestIsFirst(d, s.pending, lo, hi);
    LossTelescopes(cfg, d, |d|);
    PaddingIsLost(cfg, d, |d|);
  }

  lemma SameData(d: seq<Frame>, w: seq<Frame>, m: int)
    requires multiset(d) == multiset(w) && Distinct(w)
    ensures Has(d, m) <==> Has(w, m)
    ensures Has(d, m) && Has(w, m) ==> DataOf(d, m) == DataOf(w, m)
  {
    if Has(d, m) {
      var i :| 0 <= i < |d| && d[i].number == m && DataOf(d, m) == d[i].data;
      assert d[i] in multiset(w);
      var k :| 0 <= k < |w| && w[k] == d[i];
      var j :| 0 <= j < |w| && w[j].number == m && DataOf(w, m) == w[j].data;
      assert j == k;
    }
    if Has(w, m) {
      var i :| 0 <= i < |w| && w[i].number == m;
      assert w[i] in multiset(d);
    }
  }

  lemma {:induction false} FilledPermutes(cfg: Settings, d: seq<Frame>, w: seq<Frame>, from: int, n: nat)
    requires multiset(d) == multiset(w) && Distinct(w)
    ensures Filled(cfg, d, from, n) == Filled(cfg, w, from, n)
  {
    if n > 0 { FilledPermutes(cfg, d, w, from, n - 1); SameData(d, w, from + n - 1); }
  }

  lemma LowestIsFirst(d: seq<Frame>, w: seq<Frame>, lo: int, hi: int)
    requires SortedVersion(d, w) && Distinct(w) && Extremes(w, lo, hi)
    ensures Increasing(d) && |d| == |w| > 0 && d[0].number == lo && d[|d| - 1].number == hi && lo <= hi
  {
    FirstAndLast(d, w, lo, hi);
    SortedDistinctIncreases(d, w);
  }

  lemma DrainFills(cfg: Settings, d: seq<Frame>, w: seq<Frame>, lo: int, hi: int, n: nat, r: seq<bv8>)
    requires cfg.ordered && SortedVersion(d, w) && Distinct(w) && Extremes(w, lo, hi)
    requires n == hi + 1 - lo && r == Filled(cfg, w, lo, n)
    ensures Drained(cfg, d, |d|) == r
  {
    LowestIsFirst(d, w, lo, hi);
    FilledPermutes(cfg, d, w, lo, n);
    DrainedIsFilled(cfg, d, lo, n, r);
  }

  // A drain without repeated numbers writes one block for each number from the lowest to the highest: the payload
  // that arrived with it, or a block of noise if add_noise is set and nothing otherwise.
  lemma DumpFillsGaps(cfg: Settings, s: Control, d: seq<Frame>, lo: int, hi: int)
    requires cfg.ordered && SortedVersion(d, s.pending) && Distinct(s.pending) && Extremes(s.pending, lo, hi)
    ensures lo <= hi && Dumped(cfg, s, d).output == s.output + Filled(cfg, s.pending, lo, hi + 1 - lo)
  {
    LowestIsFirst(d, s.pending, lo, hi);
    DrainFills(cfg, d, s.pending, lo, hi, hi + 1 - lo, Filled(cfg, s.pending, lo, hi + 1 - lo));
  }
}
