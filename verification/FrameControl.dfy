/** The receiver: captured frames are copied into a buffer and leave it through a heap. */
module FrameControl {
  import Memory
  import opened Sequences
  import opened Counters
  import opened FrameOrder
  import opened HeapOrder
  import opened BinaryHeap
  import opened CaptureSpec

  // A queued frame: its number, and where its payload starts in the packet buffer
  datatype Node = Node(number: int, slot: nat)

  function ByNumber(lhs: Node, rhs: Node): bool { lhs.number < rhs.number }

  lemma ByNumberIsWeak()
    ensures StrictWeakOrder(ByNumber) && PushSafe(ByNumber)
  {
    WeakIsSafe(ByNumber);
  }

  // ------------------------------------------------------------------ slots of the packet buffer

  // Disjoint slots, in ascending order, all inside the buffer and below index
  ghost predicate Slots(cfg: Settings, ns: seq<Node>, index: nat) {
    && (forall i, j :: 0 <= i < j < |ns| ==> ns[i].slot + cfg.payload <= ns[j].slot)
    && (forall i :: 0 <= i < |ns| ==> ns[i].slot + cfg.payload <= index && ns[i].slot + cfg.payload <= cfg.bufferSize)
  }

  lemma {:induction false} SlotsNeedRoom(cfg: Settings, ns: seq<Node>, index: nat, n: nat)
    requires Slots(cfg, ns, index) && n <= |ns|
    ensures PayloadBytes(cfg, n) <= (if n < |ns| then ns[n].slot else index)
  {
    if n > 0 {
      SlotsNeedRoom(cfg, ns, index, n - 1);
    }
  }

  function HeapCapacity(cfg: Settings): (n: nat)
    requires cfg.payload > 0
  {
    Quotient(BUFFER_MAX, cfg.payload) + 1
  }

  function Quotient(a: nat, b: nat): nat
    requires b > 0
  {
    assert a / b >= 0; a / b
  }

  lemma QuotientBounds(a: nat, b: nat, n: nat)
    requires b > 0 && b * n <= a
    ensures n <= Quotient(a, b)
  {
    var q := a / b;
    assert a == b * q + a % b;
    assert b * (q + 1) == b * q + b;
    assert n >= q + 1 ==> b * n >= b * (q + 1);
  }

  // The heap never fills up: the buffer runs out of room first.
  lemma RoomInHeap(cfg: Settings, ns: seq<Node>, index: nat)
    requires cfg.Valid() && Slots(cfg, ns, index) && index + cfg.payload <= cfg.bufferSize
    ensures |ns| + 1 < HeapCapacity(cfg)
  {
    SlotsNeedRoom(cfg, ns, index, |ns|);
    PayloadBytesAre(cfg, |ns| + 1);
    QuotientBounds(BUFFER_MAX, cfg.payload, |ns| + 1);
  }

  // ------------------------------------------------------------------ nodes and the frames they stand for

  ghost predicate InBuffer(cfg: Settings, buf: seq<bv8>, ns: seq<Node>) {
    forall i :: 0 <= i < |ns| ==> ns[i].slot + cfg.payload <= |buf|
  }

  ghost function FrameAt(cfg: Settings, buf: seq<bv8>, n: Node): Frame
    requires n.slot + cfg.payload <= |buf|
  {
    Frame(n.number, buf[n.slot..n.slot + cfg.payload])
  }

  ghost function FramesAt(cfg: Settings, buf: seq<bv8>, ns: seq<Node>): (fs: seq<Frame>)
    requires InBuffer(cfg, buf, ns)
    ensures |fs| == |ns| && forall i :: 0 <= i < |fs| ==> fs[i] == FrameAt(cfg, buf, ns[i])
  {
    seq(|ns|, i requires 0 <= i < |ns| => FrameAt(cfg, buf, ns[i]))
  }

  lemma FramesAtNext(cfg: Settings, buf: seq<bv8>, ns: seq<Node>, n: Node)
    requires InBuffer(cfg, buf, ns) && n.slot + cfg.payload <= |buf|
    ensures FramesAt(cfg, buf, ns + [n]) == FramesAt(cfg, buf, ns) + [FrameAt(cfg, buf, n)]
  {}

  lemma FramesTakeOut(cfg: Settings, buf: seq<bv8>, ns: seq<Node>, k: nat)
    requires InBuffer(cfg, buf, ns) && k < |ns|
    ensures InBuffer(cfg, buf, ns[..k] + ns[k + 1..])
    ensures multiset(FramesAt(cfg, buf, ns)) ==
            multiset(FramesAt(cfg, buf, ns[..k] + ns[k + 1..])) + multiset{FrameAt(cfg, buf, ns[k])}
  {
    var fs := FramesAt(cfg, buf, ns);
    TakeOut(fs, k);
    assert FramesAt(cfg, buf, ns[..k] + ns[k + 1..]) == fs[..k] + fs[k + 1..];
  }

  lemma FramesHead(cfg: Settings, buf: seq<bv8>, ns: seq<Node>)
    requires InBuffer(cfg, buf, ns) && ns != []
    ensures multiset(FramesAt(cfg, buf, ns)) ==
            multiset(FramesAt(cfg, buf, ns[1..])) + multiset{FrameAt(cfg, buf, ns[0])}
  {
    assert ns[..0] + ns[0 + 1..] == ns[1..];
    FramesTakeOut(cfg, buf, ns, 0);
  }

  lemma RestSame(ns: seq<Node>, ms: seq<Node>, k: nat)
    requires ns != [] && k < |ms| && ms[k] == ns[0] && multiset(ns) == multiset(ms)
    ensures multiset(ns[1..]) == multiset(ms[..k] + ms[k + 1..])
  {
    TakeOut(ms, k);
    assert ns == [ns[0]] + ns[1..];
    assert multiset(ns[1..]) == multiset(ns) - multiset{ns[0]};
  }

  lemma HeadSomewhere(ns: seq<Node>, ms: seq<Node>) returns (k: nat)
    requires ns != [] && multiset(ns) == multiset(ms)
    ensures k < |ms| && ms[k] == ns[0]
  {
    assert ns[0] in multiset(ms);
    k :| 0 <= k < |ms| && ms[k] == ns[0];
  }

  // The same nodes in another order stand for the same frames in another order.
  lemma {:induction false} FramesPermute(cfg: Settings, buf: seq<bv8>, ns: seq<Node>, ms: seq<Node>)
    requires InBuffer(cfg, buf, ns) && InBuffer(cfg, buf, ms) && multiset(ns) == multiset(ms)
    ensures multiset(FramesAt(cfg, buf, ns)) == multiset(FramesAt(cfg, buf, ms))
    decreases |ns|
  {
    if ns == [] {
      SameSize(ns, ms);
      assert ms == [];
    } else {
      var k := HeadSomewhere(ns, ms);
      RestSame(ns, ms, k);
      FramesHead(cfg, buf, ns); FramesTakeOut(cfg, buf, ms, k);
      FramesPermute(cfg, buf, ns[1..], ms[..k] + ms[k + 1..]);
    }
  }

  // ------------------------------------------------------------------ draining the heap

  // One frame more
  lemma DrainStep(cfg: Settings, fs: seq<Frame>, f: Frame, expected: int, gap: int, output: seq<bv8>, st: Stats,
                  output': seq<bv8>, st': Stats, output'': seq<bv8>, st'': Stats)
    requires Drain(cfg, fs, |fs|, output, st, output', st')
    requires expected == if fs == [] then f.number else fs[|fs| - 1].number + 1
    requires gap == if cfg.ordered then f.number - expected else 0
    requires Effect(Noise(cfg, gap) + f.data, cfg.payload, gap, |Noise(cfg, gap)|, output', st', output'', st'')
    ensures Drain(cfg, fs + [f], |fs| + 1, output, st, output'', st'')
  {
    EffectTwice(Drained(cfg, fs, |fs|), PayloadBytes(cfg, |fs|), Lost(cfg, fs, |fs|), Padding(cfg, fs, |fs|),
                Noise(cfg, gap) + f.data, cfg.payload, gap, |Noise(cfg, gap)|, output, st, output', st', output'',
                  st'');
    DrainedNext(cfg, fs, f, expected, gap);
  }

  // The nodes ns of buffer buf have been written.
  ghost predicate Emptied(cfg: Settings, buf: seq<bv8>, ns: seq<Node>, output0: seq<bv8>, stats0: Stats,
                          output: seq<bv8>, stats: Stats) {
    InBuffer(cfg, buf, ns) && Drain(cfg, FramesAt(cfg, buf, ns), |ns|, output0, stats0, output, stats)
  }

  // Numbers missing before a node
  ghost function MissingBefore(cfg: Settings, node: Node, expected: int): int {
    if cfg.ordered then node.number - expected else 0
  }

  // Noise for the missing numbers and the payload of a node have been written.
  ghost predicate NodeWritten(cfg: Settings, buf: seq<bv8>, node: Node, gap: int, output: seq<bv8>, st: Stats,
                              output': seq<bv8>, st': Stats)
    requires node.slot + cfg.payload <= |buf|
  {
    Effect(Noise(cfg, gap) + buf[node.slot..node.slot + cfg.payload], cfg.payload, gap, |Noise(cfg, gap)|, output, st,
           output', st')
  }

  lemma OneMoreEmptied(cfg: Settings, buf: seq<bv8>, ns: seq<Node>, node: Node, expected: int, gap: int,
                       output0: seq<bv8>, stats0: Stats, output: seq<bv8>, st: Stats, output': seq<bv8>, st': Stats)
    requires Emptied(cfg, buf, ns, output0, stats0, output, st) && gap == MissingBefore(cfg, node, expected)
    requires node.slot + cfg.payload <= |buf| && expected == if ns == [] then node.number else ns[|ns| - 1].number + 1
    requires NodeWritten(cfg, buf, node, gap, output, st, output', st')
    ensures Emptied(cfg, buf, ns + [node], output0, stats0, output', st')
  {
    FramesAtNext(cfg, buf, ns, node);
    DrainStep(cfg, FramesAt(cfg, buf, ns), FrameAt(cfg, buf, node), expected, gap, output0, stats0, output, st,
              output', st');
  }

  lemma DrainIsDumped(cfg: Settings, s: Control, d: seq<Frame>, n: nat, output: seq<bv8>, st: Stats)
    requires n == |d| && Drain(cfg, d, n, s.output, s.stats, output, st)
    ensures Dumped(cfg, s, d).output == output && Dumped(cfg, s, d).stats == st
  {}

  ghost predicate SortedNodes(ns: seq<Node>) { forall i, j :: 0 <= i < j < |ns| ==> ns[i].number <= ns[j].number }

  ghost predicate AllBefore(ns: seq<Node>, rest: multiset<Node>) {
    forall i, x :: 0 <= i < |ns| && x in rest ==> ns[i].number <= x.number
  }

  // The nodes taken out so far are in order, and those left come after them.
  ghost predicate PartlyDrained(ns: seq<Node>, rest: multiset<Node>, all: seq<Node>) {
    SortedNodes(ns) && AllBefore(ns, rest) && multiset(ns) + rest == multiset(all)
  }

  lemma TakeNext(ns: seq<Node>, rest: multiset<Node>, all: seq<Node>, x: Node, rest': multiset<Node>)
    requires PartlyDrained(ns, rest, all) && x in rest && rest' == rest - multiset{x}
             && forall y :: y in rest ==> !ByNumber(y, x)
    ensures PartlyDrained(ns + [x], rest', all) && x in all
  {
    assert rest == rest' + multiset{x};
    assert multiset(ns + [x]) == multiset(ns) + multiset{x};
    assert x in multiset(all);
  }

  // What has left the heap is the frames that were in the buffer, sorted.
  lemma DrainedNodes(cfg: Settings, buf: seq<bv8>, ns: seq<Node>, all: seq<Node>)
    requires PartlyDrained(ns, multiset{}, all) && InBuffer(cfg, buf, all)
    ensures InBuffer(cfg, buf, ns) && SortedVersion(FramesAt(cfg, buf, ns), FramesAt(cfg, buf, all))
  {
    forall i | 0 <= i < |ns| ensures ns[i].slot + cfg.payload <= |buf| { assert ns[i] in multiset(all); }
    FramesPermute(cfg, buf, ns, all);
  }

  lemma SameSizeBag<T>(s: seq<T>, m: multiset<T>)
    requires multiset(s) == m
    ensures |s| == |m|
  {
    assert |s| == |multiset(s)|;
  }

  // A payload copied in behind the slots in use leaves them as they are.
  lemma CopyKeepsFrames(cfg: Settings, buf: seq<bv8>, buf': seq<bv8>, ns: seq<Node>, index: nat, payload: seq<bv8>,
                        number: int)
    requires Slots(cfg, ns, index) && |buf| == cfg.bufferSize && |payload| == cfg.payload
             && index + cfg.payload <= cfg.bufferSize
    requires buf' == buf[..index] + payload + buf[index + |payload|..]
    ensures Slots(cfg, ns + [Node(number, index)], index + cfg.payload)
    ensures FramesAt(cfg, buf', ns + [Node(number, index)]) == FramesAt(cfg, buf, ns) + [Frame(number, payload)]
  {
    forall i | 0 <= i < |ns| ensures FrameAt(cfg, buf', ns[i]) == FrameAt(cfg, buf, ns[i]) {
      assert buf'[ns[i].slot..ns[i].slot + cfg.payload] == buf[ns[i].slot..ns[i].slot + cfg.payload];
    }
    assert buf'[index..index + cfg.payload] == payload;
  }

  // ------------------------------------------------------------------ the frame controller

  class FrameController {
    const cfg: Settings
    const packetHeap: Heap<Node>
    const packetBuffer: array<bv8>
    var index: nat
    var stats: Stats
    var output: seq<bv8>
    var endCapture: bool
    var eotReached: bool
    var preambleReceived: bool
    ghost var nodes: seq<Node>
    ghost var state: Control

    ghost predicate Shape() {
      && cfg.Valid() && packetBuffer.Length == cfg.bufferSize && packetHeap.capacity == HeapCapacity(cfg)
      && packetHeap.compare == ByNumber && packetBuffer as object != packetHeap.tree
    }

    // The queued nodes point at disjoint slots inside the buffer, and the heap holds just these nodes.
    ghost predicate QueueValid()
      reads this`index, this`nodes, packetHeap, packetHeap.tree
    {
      && Shape() && packetHeap.Valid() && Slots(cfg, nodes, index) && packetHeap.Elements() == multiset(nodes)
    }

    // The frames received since the last drain, as their slots still hold them
    ghost function Pending(): (fs: seq<Frame>)
      requires Shape() && Slots(cfg, nodes, index)
      reads this`index, this`nodes, packetBuffer
      ensures |fs| == |nodes|
    {
      FramesAt(cfg, packetBuffer[..], nodes)
    }

    // The fields hold exactly the abstract state.
    ghost predicate Valid()
      reads this, packetHeap, packetHeap.tree, packetBuffer
    {
      && QueueValid() && state == Control(Pending(), index, output, stats, endCapture, eotReached, preambleReceived)
    }

    constructor (settings: Settings)
      requires settings.Valid()
      ensures Valid() && cfg == settings && state == InitialControl()
      ensures fresh(packetHeap) && fresh(packetHeap.tree) && fresh(packetBuffer)
    {
      cfg, index, stats, output := settings, 0, Stats(0, 0, 0, 0, 0), [];
      endCapture, eotReached, preambleReceived := false, false, false;
      packetBuffer := new bv8[settings.bufferSize](_ => 0);
      packetHeap := new Heap<Node>(HeapCapacity(settings), ByNumber);
      nodes, state := [], InitialControl();
    }

    // Noise for the numbers missing before the node, then its payload
    method WriteNode(node: Node, expected: int, ghost gap: int, ghost buf: seq<bv8>)
      requires Shape() && node.slot + cfg.payload <= cfg.bufferSize && buf == packetBuffer[..]
      requires gap == MissingBefore(cfg, node, expected)
      modifies this`output, this`stats
      ensures NodeWritten(cfg, buf, node, gap, old(output), old(stats), output, stats)
    {
      ghost var before, counted := output, stats;
      WriteGap(node, expected, gap);
      ghost var between, counted' := output, stats;
      WritePayload(node.slot, buf);
      EffectTwice(Noise(cfg, gap), 0, gap, |Noise(cfg, gap)|,
                  buf[node.slot..node.slot + cfg.payload], cfg.payload, 0, 0,
                  before, counted, between, counted', output, stats);
    }

    method WriteGap(node: Node, expected: int, ghost gap: int)
      requires cfg.Valid() && gap == MissingBefore(cfg, node, expected)
      modifies this`output, this`stats
      ensures Effect(Noise(cfg, gap), 0, gap, |Noise(cfg, gap)|, old(output), old(stats), output, stats)
    {
      if cfg.ordered && expected != node.number {
        WriteMissing(node.number - expected);
      } else {
        assert NoiseBlocks(cfg, 0) == [];
      }
    }

    method WritePayload(slot: nat, ghost buf: seq<bv8>)
      requires Shape() && slot + cfg.payload <= cfg.bufferSize && buf == packetBuffer[..]
      modifies this`output, this`stats
      ensures Effect(buf[slot..slot + cfg.payload], cfg.payload, 0, 0, old(output), old(stats), output, stats)
    {
      assert buf[slot..slot + cfg.payload] == packetBuffer[slot..slot + cfg.payload];
      output := output + packetBuffer[slot..slot + cfg.payload];
      stats := stats.(writelen := Wrap(stats.writelen + cfg.payload));
    }

    method WriteMissing(missing: int)
      requires cfg.Valid()
      modifies this`output, this`stats
      ensures output == old(output) + Noise(cfg, missing)
      ensures stats == old(stats).(noiseAdded := Wrap(old(stats.noiseAdded) + |Noise(cfg, missing)|),
                                   blocksLost := Wrap(old(stats.blocksLost) + missing))
    {
      if cfg.addNoise {
        WriteNoise(missing);
      }
      stats := stats.(blocksLost := Wrap(stats.blocksLost + missing));
    }

    method WriteNoise(missing: int)
      requires cfg.Valid()
      modifies this`output, this`stats
      ensures output == old(output) + NoiseBlocks(cfg, missing)
      ensures stats == old(stats).(noiseAdded := Wrap(old(stats.noiseAdded) + |NoiseBlocks(cfg, missing)|))
    {
      var i := 0;
      while i < missing
        invariant 0 <= i && (i <= missing || i == 0)
        invariant output == old(output) + NoiseBlocks(cfg, i)
        invariant stats == old(stats).(noiseAdded := Wrap(old(stats.noiseAdded) + |NoiseBlocks(cfg, i)|))
      {
        WrapAdd(old(stats.noiseAdded) + |NoiseBlocks(cfg, i)|, cfg.payload);
        output := output + NoiseBlock(cfg);
        stats := stats.(noiseAdded := Wrap(stats.noiseAdded + cfg.payload));
        i := i + 1;
      }
    }

    // Between two rounds of the drain loop
    ghost predicate Emptying(ns: seq<Node>)
      reads this`index, this`nodes, packetHeap, packetHeap.tree
    {
      && Shape() && packetHeap.Valid() && Slots(cfg, nodes, index) && PartlyDrained(ns, packetHeap.Elements(), nodes)
      && forall i :: 0 <= i < |ns| ==> ns[i].slot + cfg.payload <= cfg.bufferSize
    }

    method PopNext(ghost ns: seq<Node>, ghost expected: int) returns (node: Node)
      requires Emptying(ns) && packetHeap.count > 0 && expected == NextExpected(ns)
      modifies packetHeap`count, packetHeap.tree
      ensures Emptying(ns + [node]) && packetHeap.count == old(packetHeap.count) - 1
      ensures expected == if ns == [] then node.number else ns[|ns| - 1].number + 1
      ensures node.slot + cfg.payload <= cfg.bufferSize
    {
      node := PopNode(ns);
      InLast(ns, node);
    }

    // The node with the lowest number leaves the heap.
    method PopNode(ghost ns: seq<Node>) returns (node: Node)
      requires Shape() && packetHeap.Valid() && PartlyDrained(ns, packetHeap.Elements(), nodes) && packetHeap.count > 0
      modifies packetHeap`count, packetHeap.tree
      ensures packetHeap.Valid() && PartlyDrained(ns + [node], packetHeap.Elements(), nodes) && node in nodes
      ensures packetHeap.count == old(packetHeap.count) - 1 && node == old(packetHeap.tree[0])
    {
      ByNumberIsWeak();
      ghost var rest := packetHeap.Elements();
      var popped := packetHeap.Pop();
      node := popped.value;
      TakeNext(ns, rest, nodes, node, packetHeap.Elements());
    }

    lemma InLast(ns: seq<Node>, node: Node)
      ensures forall i :: 0 <= i < |ns + [node]| ==> (ns + [node])[i] == if i < |ns| then ns[i] else node
    {}

    method WriteNext(node: Node, expected: int, ghost ns: seq<Node>, ghost buf: seq<bv8>, ghost output0: seq<bv8>,
                     ghost stats0: Stats)
      requires Emptying(ns + [node]) && buf == packetBuffer[..] && Emptied(cfg, buf, ns, output0, stats0, output, stats)
      requires node.slot + cfg.payload <= cfg.bufferSize
      requires expected == if ns == [] then node.number else ns[|ns| - 1].number + 1
      modifies this`output, this`stats
      ensures Emptying(ns + [node]) && Emptied(cfg, buf, ns + [node], output0, stats0, output, stats)
    {
      ghost var before, st := output, stats;
      ghost var gap := MissingBefore(cfg, node, expected);
      WriteNode(node, expected, gap, buf);
      OneMoreEmptied(cfg, buf, ns, node, expected, gap, output0, stats0, before, st, output, stats);
    }

    method DrainOne(expected: int, ghost ns: seq<Node>, ghost buf: seq<bv8>, ghost output0: seq<bv8>,
                    ghost stats0: Stats)
      returns (expected': int, ghost ns': seq<Node>)
      requires Emptying(ns) && packetHeap.count > 0 && buf == packetBuffer[..]
               && Emptied(cfg, buf, ns, output0, stats0, output, stats)
      requires expected == NextExpected(ns)
      modifies this`output, this`stats, packetHeap`count, packetHeap.tree
      ensures Emptying(ns') && buf == packetBuffer[..] && Emptied(cfg, buf, ns', output0, stats0, output, stats)
      ensures expected' == NextExpected(ns') && packetHeap.count == old(packetHeap.count) - 1
    {
      var node := PopNext(ns, expected);
      ns' := ns + [node];
      WriteNext(node, expected, ns, buf, output0, stats0);
      expected' := node.number + 1;
    }

    // The number expected after the nodes ns; before the first node, its own number
    ghost function NextExpected(ns: seq<Node>): int
      requires packetHeap.tree.Length > 0
      reads packetHeap, packetHeap.tree
    {
      if ns == [] then packetHeap.tree[0].number else ns[|ns| - 1].number + 1
    }

    // Writes the queued frames in order of their numbers; a frame is missing where a number is skipped.
    method DrainHeap() returns (ghost ns: seq<Node>)
      requires QueueValid()
      modifies this`output, this`stats, packetHeap`count, packetHeap.tree
      ensures packetHeap.Valid() && packetHeap.Elements() == multiset{} && PartlyDrained(ns, multiset{}, nodes)
      ensures Emptied(cfg, packetBuffer[..], ns, old(output), old(stats), output, stats)
    {
      ns := [];
      ghost var buf := packetBuffer[..];
      var expected := packetHeap.tree[0].number;
      while packetHeap.count > 0
        invariant Emptying(ns) && buf == packetBuffer[..]
                  && Emptied(cfg, buf, ns, old(output), old(stats), output, stats)
        invariant expected == NextExpected(ns)
        decreases packetHeap.count
      {
        expected, ns := DrainOne(expected, ns, buf, old(output), old(stats));
      }
      assert packetHeap.Elements() == multiset{};
    }

    method DrainWindow() returns (ghost d: seq<Frame>)
      requires Valid()
      modifies this`output, this`stats, packetHeap`count, packetHeap.tree
      ensures packetHeap.Valid() && packetHeap.Elements() == multiset{}
      ensures SortedVersion(d, state.pending) && output == Dumped(cfg, state, d).output
              && stats == Dumped(cfg, state, d).stats
    {
      ghost var buf := packetBuffer[..];
      ghost var ns := DrainHeap();
      DrainedNodes(cfg, buf, ns, nodes);
      d := FramesAt(cfg, buf, ns);
      DrainIsDumped(cfg, state, d, |ns|, output, stats);
    }

    /** Writes the buffer out and starts again at its beginning. */
    method DumpPacketBuffer() returns (ghost d: seq<Frame>)
      requires Valid()
      modifies this`index, this`stats, this`output, this`nodes, this`state, packetHeap`count, packetHeap.tree
      ensures Valid() && SortedVersion(d, old(state).pending) && state == Dumped(cfg, old(state), d)
    {
      d := DrainWindow();
      nodes, index := [], 0;
      state := Dumped(cfg, state, d);
    }

    // Copies the payload into the next slot.
    method CopyPayload(number: int, payload: seq<bv8>)
      requires Shape() && Slots(cfg, nodes, index) && |payload| == cfg.payload && index + cfg.payload <= cfg.bufferSize
      modifies packetBuffer
      ensures Slots(cfg, nodes + [Node(number, index)], index + cfg.payload)
      ensures FramesAt(cfg, packetBuffer[..], nodes + [Node(number, index)]) ==
              old(Pending()) + [Frame(number, payload)]
    {
      ghost var buf := packetBuffer[..];
      Memory.Copy(payload, packetBuffer, index);
      CopyKeepsFrames(cfg, buf, packetBuffer[..], nodes, index, payload, number);
    }

    method PushNode(number: int)
      requires QueueValid() && index + cfg.payload <= cfg.bufferSize
      modifies packetHeap`count, packetHeap.tree
      ensures packetHeap.Valid() && packetHeap.Elements() == multiset(nodes + [Node(number, index)])
    {
      ByNumberIsWeak();
      RoomInHeap(cfg, nodes, index);
      SameSizeBag(nodes, packetHeap.Elements());
      packetHeap.Push(Node(number, index));
    }

    // The node pushed counts as queued.
    method AddNode(number: int)
      requires Shape() && packetHeap.Valid() && packetHeap.Elements() == multiset(nodes + [Node(number, index)])
      requires Slots(cfg, nodes + [Node(number, index)], index + cfg.payload)
      modifies this`index, this`nodes
      ensures QueueValid() && nodes == old(nodes) + [Node(number, old(index))] && index == old(index) + cfg.payload
    {
      nodes := nodes + [Node(number, index)];
      index := index + cfg.payload;
    }

    // Copies the payload into the next slot and queues a node that points at it.
    method Enqueue(number: int, payload: seq<bv8>)
      requires QueueValid() && |payload| == cfg.payload && index + cfg.payload <= cfg.bufferSize
      modifies this`index, this`nodes, packetBuffer, packetHeap`count, packetHeap.tree
      ensures QueueValid() && Pending() == old(Pending()) + [Frame(number, payload)]
              && index == old(index) + cfg.payload
      ensures nodes == old(nodes) + [Node(number, old(index))]
    {
      PushNode(number);
      CopyPayload(number, payload);
      AddNode(number);
    }

    method EnqueueWhole(number: int, payload: seq<bv8>, overhead: nat)
      requires QueueValid() && |payload| == cfg.payload && index + cfg.payload <= cfg.bufferSize
      modifies this`index, this`nodes, packetBuffer, packetHeap`count, packetHeap.tree
      ensures QueueValid() && Pending() == old(Pending()) + [Frame(number, payload)]
      ensures index == old(index) + cfg.payload + overhead
    {
      Enqueue(number, payload);
      SkipOverhead(overhead);
    }

    // Queues a data frame and counts it.
    method Accept(frameNumber: int, payload: seq<bv8>, overhead: nat)
      requires Valid() && |payload| == cfg.payload && index + cfg.payload <= cfg.bufferSize
      modifies this`index, this`nodes, this`stats, this`state, packetBuffer, packetHeap`count, packetHeap.tree
      ensures Valid() && state == Queued(cfg, old(state), frameNumber, payload, overhead)
    {
      EnqueueWhole(if cfg.ordered then frameNumber else AsInt32(stats.processed), payload, overhead);
      Count(Queued(cfg, state, frameNumber, payload, overhead));
    }

    method Count(ghost queued: Control)
      requires QueueValid()
      requires queued == Control(Pending(), index, output, CountFrame(stats, cfg.payload), endCapture, eotReached,
                                 preambleReceived)
      modifies this`stats, this`state
      ensures Valid() && state == queued
    {
      stats := CountFrame(stats, cfg.payload);
      state := queued;
    }

    // The next slot begins behind the whole captured frame.
    method SkipOverhead(overhead: nat)
      requires QueueValid()
      modifies this`index
      ensures QueueValid() && Pending() == old(Pending()) && index == old(index) + overhead
    {
      index := index + overhead;
    }

    method HandleControl(e: Event)
      requires Valid() && !e.Data?
      modifies this`endCapture, this`eotReached, this`preambleReceived, this`state
      ensures Valid() && state == Step(cfg, old(state), e, [])
    {
      if e.Preamble? {
        if stats.processed > 0 {
          endCapture := true;
        }
        preambleReceived := true;
      } else if e.EndOfTransmission? {
        if !eotReached {
          endCapture := true;
        }
        eotReached := true;
      }
      state := Step(cfg, state, e, []);
    }

    // Writes the buffer out if it may have no room for another payload.
    method MakeRoom() returns (ghost d: seq<Frame>)
      requires Valid()
      modifies this`index, this`stats, this`output, this`nodes, this`state, packetHeap`count, packetHeap.tree
      ensures Valid() && index + cfg.payload <= cfg.bufferSize
      ensures if Full(cfg, old(state)) then SortedVersion(d, old(state).pending) && state == Dumped(cfg, old(state), d)
              else state == old(state)
    {
      d := [];
      if index + cfg.payload >= cfg.bufferSize {
        d := DumpPacketBuffer();
      }
    }

    method ProcessData(number: int, payload: seq<bv8>, overhead: nat) returns (ghost d: seq<Frame>)
      requires Valid() && |payload| == cfg.payload
      modifies this`index, this`stats, this`output, this`nodes, this`state, packetBuffer, packetHeap`count,
               packetHeap.tree
      ensures Valid() && (Full(cfg, old(state)) ==> SortedVersion(d, old(state).pending))
      ensures var s := if Full(cfg, old(state)) then Dumped(cfg, old(state), d) else old(state);
              state == Queued(cfg, s, number, payload, overhead)
    {
      d := MakeRoom();
      Accept(number, payload, overhead);
    }

    /** process_frame: control frames, and data frames with a payload of the expected size */
    method ProcessFrame(e: Event) returns (ghost d: seq<Frame>)
      requires Valid()
      modifies this, packetBuffer, packetHeap`count, packetHeap.tree
      ensures Valid() && state == Step(cfg, old(state), e, d)
      ensures Dumps(cfg, old(state), e) ==> SortedVersion(d, old(state).pending)
    {
      d := [];
      if !e.Data? {
        HandleControl(e);
      } else if |e.payload| == cfg.payload {
        d := ProcessData(FrameNumber(e.addr1), e.payload, e.overhead);
      }
    }
  }
}
