/** A capture without frame numbers that is not written in order of arrival. */
module StraddlingCapture {
  import opened Sequences
  import opened Counters
  import opened FrameOrder
  import opened CaptureSpec
  import opened CaptureRuns

  const TURN := 0x8000_0000

  // One byte of payload, and room for one frame with a byte of overhead or for two without
  const CFG := Settings(false, false, 0, 1, 3)

  const NONE: Address := [0, 0, 0, 0, 0, 0]

  // Frame i: 2^31 - 1 frames with overhead and then two without, the last of which has another payload
  function EventAt(i: nat): Event { Data(NONE, if i < TURN then [0] else [1], if i < TURN - 1 then 1 else 0) }

  ghost function Captures(n: nat): (ins: seq<Input>)
    ensures |ins| == n
  {
    if n == 0 then [] else Captures(n - 1) + [Input(EventAt(n - 1), Run(CFG, Captures(n - 1)).pending)]
  }

  lemma NextCapture(n: nat)
    ensures Captures(n + 1)[..n] == Captures(n)
    ensures Run(CFG, Captures(n + 1)) == Step(CFG, Run(CFG, Captures(n)), EventAt(n), Run(CFG, Captures(n)).pending)
    ensures Possible(CFG, Captures(n)) && |Run(CFG, Captures(n)).pending| <= 1 ==> Possible(CFG, Captures(n + 1))
  {}

  // A frame that goes into an empty buffer, into a full one, and beside another
  lemma StepAlone(s: Control, payload: seq<bv8>, overhead: nat, d: seq<Frame>)
    requires |payload| == 1 && (s.index >= 2 || (s.index == 0 && s.pending == []))
    ensures var t := Step(CFG, s, Data(NONE, payload, overhead), d);
            && t.pending == [Frame(AsInt32(s.stats.processed), payload)] && t.index == 1 + overhead
            && t.stats.processed == Wrap(s.stats.processed + 1)
  {}

  lemma StepBeside(s: Control, payload: seq<bv8>, d: seq<Frame>)
    requires |payload| == 1 && s.index == 1
    ensures var t := Step(CFG, s, Data(NONE, payload, 0), d);
            t.pending == s.pending + [Frame(AsInt32(s.stats.processed), payload)]
  {}

  // The buffer holds frame n - 1 alone, and counts n frames.
  ghost predicate OnlyLast(s: Control, n: nat, index: nat) {
    && n > 0 && s.stats.processed == Wrap(n) && s.index == index
    && s.pending == [Frame(AsInt32(Wrap(n - 1)), [0])]
  }

  lemma AloneNext(s: Control, m: nat)
    requires m < TURN && if m == 0 then s == InitialControl() else OnlyLast(s, m, 2)
    ensures OnlyLast(Step(CFG, s, EventAt(m), s.pending), m + 1, if m < TURN - 1 then 2 else 1)
  {
    StepAlone(s, [0], if m < TURN - 1 then 1 else 0, s.pending);
    WrapNext(m);
  }

  // After n captures the state is s.
  ghost predicate After(n: nat, s: Control) { Possible(CFG, Captures(n)) && s == Run(CFG, Captures(n)) }

  lemma NextAfter(n: nat, s: Control)
    requires After(n, s) && |s.pending| <= 1
    ensures After(n + 1, Step(CFG, s, EventAt(n), s.pending))
  {
    NextCapture(n);
  }

  lemma {:induction false} EachFrameFills(n: nat) returns (s: Control)
    requires n <= TURN
    ensures After(n, s)
    ensures if n == 0 then s == InitialControl() else OnlyLast(s, n, if n < TURN then 2 else 1)
  {
    s := InitialControl();
    if n > 0 {
      s := EachFrameFills(n - 1);
      NextAfter(n - 1, s);
      AloneNext(s, n - 1);
      s := Step(CFG, s, EventAt(n - 1), s.pending);
    }
  }

  lemma BesideNext(s: Control, n: nat)
    requires n == TURN && OnlyLast(s, n, 1)
    ensures Step(CFG, s, EventAt(n), s.pending).pending == [Frame(TURN - 1, [0]), Frame(-TURN, [1])]
  {
    StepBeside(s, [1], s.pending);
  }

  // The last two frames share the buffer, and the second of them has the lower number.
  lemma TwoFramesTurn(n: nat) returns (s: Control)
    requires n == TURN
    ensures After(n + 1, s) && s.pending == [Frame(TURN - 1, [0]), Frame(-TURN, [1])]
  {
    s := EachFrameFills(n);
    NextAfter(n, s);
    BesideNext(s, n);
    s := Step(CFG, s, EventAt(n), s.pending);
  }

  // A run that leaves frames p and q in the buffer, of which q is written first
  ghost predicate Exchanges(ins: seq<Input>, p: Frame, q: Frame) {
    Flushed(CFG, ins, [q, p]) && Run(CFG, ins).pending == [p, q] && |p.data| == 1 && |q.data| == 1
    && p.data[0] != q.data[0]
  }

  lemma LastBytesDiffer(ins: seq<Input>, p: Frame, q: Frame)
    requires Exchanges(ins, p, q)
    ensures Dumped(CFG, Run(CFG, ins), [q, p]).output != Concat(Arrived(CFG, ins))
  {
    var ds, ws := DrainsOf(CFG, ins), Windows(CFG, ins);
    EveryRun(CFG, ins);
    ArrivalOrder(CFG, ins, [q, p]);
    FlattenNext(ds, [q, p]);
    LastByte(Flatten(ds), q, p); LastByte(Flatten(ws), p, q);
  }

  lemma Reordered(p: Frame, q: Frame)
    requires q.number <= p.number
    ensures SortedVersion([q, p], [p, q])
  {
    assert [q, p] == [q] + [p] && [p, q] == [p] + [q];
  }

  lemma LeftInBuffer(n: nat, s: Control, p: Frame, q: Frame)
    requires After(n, s) && s.pending == [p, q] && q.number <= p.number
    requires |p.data| == 1 && |q.data| == 1 && p.data[0] != q.data[0]
    ensures Exchanges(Captures(n), p, q)
  {
    Reordered(p, q);
  }

  lemma TurnedWindow(n: nat) returns (p: Frame, q: Frame)
    requires n == TURN
    ensures p == Frame(TURN - 1, [0]) && q == Frame(-TURN, [1]) && Exchanges(Captures(n + 1), p, q)
  {
    p, q := Frame(TURN - 1, [0]), Frame(-TURN, [1]);
    var s := TwoFramesTurn(n);
    LeftInBuffer(n + 1, s, p, q);
  }

  // The last two bytes are written the wrong way round.
  lemma OutOfOrder(n: nat, d: seq<Frame>)
    requires n == TURN + 1 && d == [Frame(-TURN, [1]), Frame(TURN - 1, [0])]
    ensures Flushed(CFG, Captures(n), d) && !NoneStraddles(AllWindows(CFG, Captures(n)))
    ensures Dumped(CFG, Run(CFG, Captures(n)), d).output != Concat(Arrived(CFG, Captures(n)))
  {
    var p, q := TurnedWindow(n - 1);
    LastBytesDiffer(Captures(n), p, q);
    ArrivalOrder(CFG, Captures(n), d);
  }

  lemma LastByte(fs: seq<Frame>, a: Frame, b: Frame)
    requires |b.data| == 1
    ensures var out := Concat(fs + [a, b]); out != [] && out[|out| - 1] == b.data[0]
  {
    assert fs + [a, b] == (fs + [a]) + [b];
    ConcatNext(fs + [a], b);
  }
}
