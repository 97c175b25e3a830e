/** Which frames a capture queues and how the buffer groups them, told from what is captured. */
module CapturedFrames {
  import opened Counters
  import opened FrameOrder
  import opened CaptureSpec
  import opened CaptureRuns

  // Inputs for these events, with the drains they lead to
  ghost predicate InputsFor(cfg: Settings, events: seq<Event>, ins: seq<Input>) {
    Possible(cfg, ins) && |ins| == |events| && forall i :: 0 <= i < |ins| ==> ins[i].event == events[i]
  }

  lemma RunNext(cfg: Settings, events: seq<Event>, ins: seq<Input>, e: Event, d: seq<Frame>)
    requires InputsFor(cfg, events, ins) && (Dumps(cfg, Run(cfg, ins), e) ==> SortedVersion(d, Run(cfg, ins).pending))
    ensures InputsFor(cfg, events + [e], ins + [Input(e, d)])
    ensures Run(cfg, ins + [Input(e, d)]) == Step(cfg, Run(cfg, ins), e, d)
  {
    assert (ins + [Input(e, d)])[..|ins|] == ins;
  }

  // Data with a payload of the expected size
  ghost predicate Fitting(cfg: Settings, e: Event) { e.Data? && |e.payload| == cfg.payload }

  ghost function FrameOf(cfg: Settings, e: Event): Frame
    requires Fitting(cfg, e)
  {
    Frame(FrameNumber(e.addr1), e.payload)
  }

  // The frames that were captured, each with the number in its header
  ghost function Carried(cfg: Settings, events: seq<Event>): seq<Frame> {
    if events == [] then []
    else
      var init, e := events[..|events| - 1], events[|events| - 1];
      Carried(cfg, init) + if Fitting(cfg, e) then [FrameOf(cfg, e)] else []
  }

  // Queued as captured, or with the count of arrivals for its number
  ghost function QueuedAs(cfg: Settings, f: Frame, i: nat): Frame {
    if cfg.ordered then f else Frame(AsInt32(Wrap(i)), f.data)
  }

  ghost predicate AllQueuedAs(cfg: Settings, got: seq<Frame>, carried: seq<Frame>) {
    |got| == |carried| && forall i :: 0 <= i < |got| ==> got[i] == QueuedAs(cfg, carried[i], i)
  }

  lemma Initial(cfg: Settings, events: seq<Event>, ins: seq<Input>)
    requires InputsFor(cfg, events, ins) && ins != []
    ensures var l := |ins| - 1; InputsFor(cfg, events[..l], ins[..l]) && ins[l].event == events[l]
  {
    var l := |ins| - 1;
    assert forall i :: 0 <= i < l ==> ins[..l][i].event == events[..l][i];
  }

  lemma NextQueued(cfg: Settings, s: Control, e: Event, got: seq<Frame>, carried: seq<Frame>)
    requires AllQueuedAs(cfg, got, carried) && s.stats.processed == Wrap(|got|)
    ensures AllQueuedAs(cfg, NextArrived(cfg, s, e, got),
                        carried + if Fitting(cfg, e) then [FrameOf(cfg, e)] else [])
  {}

  // The frames queued are the frames captured.
  lemma {:induction false} ArrivedAre(cfg: Settings, events: seq<Event>, ins: seq<Input>)
    requires InputsFor(cfg, events, ins)
    ensures AllQueuedAs(cfg, Arrived(cfg, ins), Carried(cfg, events))
    ensures cfg.ordered ==> Arrived(cfg, ins) == Carried(cfg, events)
  {
    if ins != [] {
      var l := |ins| - 1;
      Initial(cfg, events, ins);
      ArrivedAre(cfg, events[..l], ins[..l]);
      EveryRun(cfg, ins[..l]);
      NextQueued(cfg, Run(cfg, ins[..l]), events[l], Arrived(cfg, ins[..l]), Carried(cfg, events[..l]));
    }
  }

  // ------------------------------------------------------------------ when the capture is to end

  // The end of a transmission was captured, or the start of one after some frames.
  ghost predicate EndsWith(cfg: Settings, events: seq<Event>, i: nat)
    requires i < |events|
  {
    events[i].EndOfTransmission? || (events[i].Preamble? && Wrap(|Carried(cfg, events[..i])|) > 0)
  }

  ghost predicate ToldToEnd(cfg: Settings, events: seq<Event>) {
    exists i :: 0 <= i < |events| && EndsWith(cfg, events, i)
  }

  // What told the receiver once is not taken back.
  lemma ToldStays(cfg: Settings, a: seq<Event>, b: seq<Event>)
    requires ToldToEnd(cfg, a)
    ensures ToldToEnd(cfg, a + b)
  {
    var i :| 0 <= i < |a| && EndsWith(cfg, a, i);
    assert (a + b)[..i] == a[..i] && (a + b)[i] == a[i];
    assert EndsWith(cfg, a + b, i);
  }

  lemma InputsPrefix(cfg: Settings, events: seq<Event>, ins: seq<Input>, n: nat)
    requires InputsFor(cfg, events, ins) && n <= |ins|
    ensures InputsFor(cfg, events[..n], ins[..n])
    decreases |ins|
  {
    if n < |ins| {
      var l := |ins| - 1;
      Initial(cfg, events, ins);
      InputsPrefix(cfg, events[..l], ins[..l], n);
      assert events[..l][..n] == events[..n] && ins[..l][..n] == ins[..n];
    } else {
      assert events[..n] == events && ins[..n] == ins;
    }
  }

  // The receiver is to end exactly when some capture told it to.
  lemma EndsAsTold(cfg: Settings, events: seq<Event>, ins: seq<Input>)
    requires InputsFor(cfg, events, ins)
    ensures Run(cfg, ins).endCapture <==> ToldToEnd(cfg, events)
  {
    EndsIff(cfg, ins);
    forall i | 0 <= i < |ins| ensures EndsAt(cfg, ins, i) <==> EndsWith(cfg, events, i) {
      InputsPrefix(cfg, events, ins, i);
      ArrivedAre(cfg, events[..i], ins[..i]);
    }
  }

  // ------------------------------------------------------------------ how the buffer groups them

  // The groups written out, the frames in the buffer, and the bytes they take up there
  datatype Filling = Filling(groups: seq<seq<Frame>>, open: seq<Frame>, bytes: nat)

  // A frame for which there may be no room begins a new group.
  ghost function NextFilling(cfg: Settings, f: Filling, e: Event): Filling
    requires Fitting(cfg, e)
  {
    var g := if f.bytes + cfg.payload >= cfg.bufferSize then Filling(f.groups + [f.open], [], 0) else f;
    Filling(g.groups, g.open + [FrameOf(cfg, e)], g.bytes + cfg.payload + e.overhead)
  }

  ghost function FillingOf(cfg: Settings, events: seq<Event>): Filling {
    if events == [] then Filling([], [], 0)
    else
      var init, e := events[..|events| - 1], events[|events| - 1];
      if Fitting(cfg, e) then NextFilling(cfg, FillingOf(cfg, init), e) else FillingOf(cfg, init)
  }

  ghost predicate SameSizes(ws: seq<seq<Frame>>, gs: seq<seq<Frame>>) {
    |ws| == |gs| && forall i :: 0 <= i < |ws| ==> |ws[i]| == |gs[i]|
  }

  // The windows have the sizes of the groups, and if frames keep their numbers they are the groups.
  ghost predicate GroupedAs(cfg: Settings, s: Control, ws: seq<seq<Frame>>, f: Filling) {
    && s.index == f.bytes && |s.pending| == |f.open| && SameSizes(ws, f.groups)
    && (cfg.ordered ==> s.pending == f.open && ws == f.groups)
  }

  lemma NextGrouped(cfg: Settings, s: Control, e: Event, d: seq<Frame>, ws: seq<seq<Frame>>, f: Filling)
    requires GroupedAs(cfg, s, ws, f)
    ensures GroupedAs(cfg, Step(cfg, s, e, d), NextGroups(cfg, s, e, s.pending, ws),
                      if Fitting(cfg, e) then NextFilling(cfg, f, e) else f)
  {}

  // The buffer is written out exactly when the next frame might not fit.
  lemma {:induction false} WindowsAre(cfg: Settings, events: seq<Event>, ins: seq<Input>)
    requires InputsFor(cfg, events, ins)
    ensures GroupedAs(cfg, Run(cfg, ins), Windows(cfg, ins), FillingOf(cfg, events))
  {
    if ins != [] {
      var l := |ins| - 1;
      Initial(cfg, events, ins);
      WindowsAre(cfg, events[..l], ins[..l]);
      NextGrouped(cfg, Run(cfg, ins[..l]), events[l], ins[l].drained, Windows(cfg, ins[..l]),
                  FillingOf(cfg, events[..l]));
    }
  }

  // ------------------------------------------------------------------ a capture without frame numbers

  lemma {:induction false} SameBytes(cfg: Settings, got: seq<Frame>, carried: seq<Frame>)
    requires AllQueuedAs(cfg, got, carried)
    ensures Concat(got) == Concat(carried)
  {
    if got != [] { SameBytes(cfg, got[..|got| - 1], carried[..|got| - 1]); }
  }

  // Up to 2^31 frames are written in the order in which they were captured.
  lemma UnorderedCapture(cfg: Settings, events: seq<Event>, ins: seq<Input>, d: seq<Frame>)
    requires cfg.Valid() && !cfg.ordered && InputsFor(cfg, events, ins) && Flushed(cfg, ins, d)
    requires |Carried(cfg, events)| <= 0x8000_0000
    ensures Dumped(cfg, Run(cfg, ins), d).output == Concat(Carried(cfg, events))
  {
    ArrivedAre(cfg, events, ins);
    ShortRunsKeepOrder(cfg, ins);
    ArrivalOrder(cfg, ins, d);
    SameBytes(cfg, Arrived(cfg, ins), Carried(cfg, events));
  }
}
