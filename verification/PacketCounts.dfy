/** The counters of received and lost packets, for sequence numbers of 32 bits. */
module PacketCounts {
  import opened Counters
  import opened Interleaving
  import opened BlockProtocol
  import opened BlockRuns
  import opened Arrivals
  import opened Deliveries

  const SEQUENCE_NUMBERS := 0x1_0000_0000

  // Sequence numbers are 32 bits wide.
  ghost predicate Numbered(ins: seq<Input>) { forall i :: 0 <= i < |ins| ==> ins[i].seqNr < SEQUENCE_NUMBERS }

  lemma PacketsBelowNumber(c: Config, seqNr: nat)
    requires c.Valid()
    ensures PacketsOf(c, BlockNumber(c, seqNr)) <= seqNr
  {
    PacketsOfAre(c, BlockNumber(c, seqNr));
    QuotientTimes(seqNr, c.Packets());
  }

  lemma QuotientTimes(a: nat, n: nat)
    requires n > 0
    ensures n * (a / n) <= a
  {}

  lemma {:induction false} PacketsOfGrow(c: Config, m: nat, n: nat)
    requires m <= n
    ensures PacketsOf(c, m) <= PacketsOf(c, n)
  {
    if m < n { PacketsOfGrow(c, m, n - 1); }
  }

  // All blocks up to the highest have fewer packets than there are sequence numbers.
  lemma {:induction false} HighestFits(c: Config, ins: seq<Input>)
    requires c.Valid() && Numbered(ins)
    ensures Highest(c, ins) >= 0 ==> PacketsOf(c, Highest(c, ins)) < SEQUENCE_NUMBERS
  {
    if ins != [] {
      HighestFits(c, ins[..|ins| - 1]);
      PacketsBelowNumber(c, ins[|ins| - 1].seqNr);
    }
  }

  // So do the blocks decoded since the last restart.
  lemma FinishedFit(c: Config, ins: seq<Input>)
    requires c.Valid() && Numbered(ins)
    ensures PacketsOf(c, Finished(c, ins)) < SEQUENCE_NUMBERS
  {
    var l := Leaders(c, ins);
    if l != [] {
      AscendingAtLeast(l, |l| - 1);
      HighestFits(c, ins);
      PacketsOfGrow(c, Finished(c, ins), Highest(c, ins));
    }
  }

  lemma {:induction false} NoFewerPackets(c: Config, n: nat)
    requires c.Valid()
    ensures n <= PacketsOf(c, n)
  {
    if n > 0 { NoFewerPackets(c, n - 1); }
  }

  // ------------------------------------------------------------------ what the counters tell

  // The packets that arrived of the decoded blocks
  ghost function HeldPackets(es: seq<Eviction>): nat {
    if es == [] then 0 else HeldPackets(es[..|es| - 1]) + |PresentSlots(es[|es| - 1].packets)|
  }

  lemma {:induction false} LostAreNotHeld(c: Config, es: seq<Eviction>)
    requires Complete(c, es)
    ensures LostPackets(c, es) + HeldPackets(es) == PacketsOf(c, |es|)
  {
    if es != [] {
      LostAreNotHeld(c, es[..|es| - 1]);
      PresentCount(c, es[|es| - 1].packets);
    }
  }

  // The decoded blocks with fewer packets than there are data packets in a block
  ghost function Short(c: Config, es: seq<Eviction>): set<nat> {
    set i | 0 <= i < |es| && |PresentSlots(es[i].packets)| < c.data
  }

  lemma ShortNext(c: Config, es: seq<Eviction>)
    requires es != []
    ensures var l := |es| - 1;
            Short(c, es) == Short(c, es[..l]) + if |PresentSlots(es[l].packets)| < c.data then {l} else {}
  {
    assert forall i :: 0 <= i < |es| - 1 ==> es[..|es| - 1][i] == es[i];
  }

  lemma {:induction false} DamagedAreShort(c: Config, es: seq<Eviction>)
    requires Complete(c, es)
    ensures DamagedBlocks(c, es) == |Short(c, es)| <= |es|
  {
    if es != [] {
      var l := |es| - 1;
      DamagedAreShort(c, es[..l]);
      RecoverableIffEnough(c, es[l].packets);
      ShortNext(c, es);
    }
  }

  // After every run the counters are the true counts since the last restart, and received and lost packets add up to
  // the packets of the decoded blocks.
  lemma PacketsAddUp(c: Config, ins: seq<Input>)
    requires Inputs(c, ins) && Numbered(ins)
    ensures var s, es := Run(c, ins), Journal(Run(c, ins));
            && s.status.receivedBlocks == |es| && s.status.damagedBlocks == |Short(c, es)|
            && s.status.receivedPackets == HeldPackets(es)
            && s.status.receivedPackets + s.status.lostPackets == c.Packets() * s.status.receivedBlocks
  {
    var es, now := Journal(Run(c, ins)), Since(c, ins);
    EveryRun(c, ins);
    EveryArrival(c, ins);
    FinishedFit(c, now);
    NoFewerPackets(c, |es|); PacketsOfAre(c, |es|);
    LostAreNotHeld(c, es); DamagedAreShort(c, es);
    WrapAtMost(|es|); WrapAtMost(|Short(c, es)|);
    WrapAtMost(LostPackets(c, es)); WrapAtMost(PacketsOf(c, |es|) - LostPackets(c, es));
  }

  // ------------------------------------------------------------------ restarts

  // Packet i is so far below the highest block since the last restart that it is taken for another.
  ghost predicate RestartsAt(c: Config, ins: seq<Input>, i: nat)
    requires c.Valid() && i < |ins|
  {
    TooLate(c, Since(c, ins[..i]), ins[i])
  }

  ghost function RestartsIn(c: Config, ins: seq<Input>): set<nat>
    requires c.Valid()
  {
    set i | 0 <= i < |ins| && RestartsAt(c, ins, i)
  }

  lemma RestartsNext(c: Config, ins: seq<Input>, x: Input)
    requires c.Valid()
    ensures RestartsIn(c, ins + [x]) == RestartsIn(c, ins) + if TooLate(c, Since(c, ins), x) then {|ins|} else {}
  {
    var all := ins + [x];
    Prefixes(ins, x);
    assert RestartsAt(c, all, |ins|) <==> TooLate(c, Since(c, ins), x);
    forall i | 0 <= i < |ins| ensures RestartsAt(c, all, i) <==> RestartsAt(c, ins, i) { assert all[i] == ins[i]; }
  }

  lemma StepRestarts(c: Config, s: RxState, x: Input)
    requires c.Valid() && ShapedState(c, s) && |x.left.slot| == c.size && Tails(c, x.left.tails)
    ensures Step(c, s, x.seqNr, x.payload, x.left).status.txRestarts ==
            if Restarts(c, s, Number(c, x)) then Wrap(s.status.txRestarts + 1) else s.status.txRestarts
  {}

  lemma CountRestart(c: Config, now: seq<Input>, s: RxState, x: Input, at: set<nat>, k: nat, at': set<nat>)
    requires c.Valid() && ShapedState(c, s) && |x.left.slot| == c.size && Tails(c, x.left.tails)
    requires s.maxBlockNum == Highest(c, now) && s.status.txRestarts == Wrap(|at|) && k !in at
    requires at' == at + if TooLate(c, now, x) then {k} else {}
    ensures Step(c, s, x.seqNr, x.payload, x.left).status.txRestarts == Wrap(|at'|)
  {
    StepRestarts(c, s, x);
    WrapAdd(|at|, 1);
  }

  lemma MaximumIsHighest(c: Config, ins: seq<Input>)
    requires Inputs(c, ins)
    ensures Run(c, ins).maxBlockNum == Highest(c, Since(c, ins))
  {
    EveryArrival(c, ins);
    HighestIsLast(c, Since(c, ins), Run(c, ins));
  }

  // Every such packet counts as a restart of the transmitter.
  lemma {:induction false} RestartsAreCounted(c: Config, ins: seq<Input>)
    requires Inputs(c, ins)
    ensures Run(c, ins).status.txRestarts == Wrap(|RestartsIn(c, ins)|)
  {
    if ins != [] {
      var init, x := ins[..|ins| - 1], ins[|ins| - 1];
      assert ins == init + [x];
      RestartsAreCounted(c, init);
      RestartsNext(c, init, x);
      MaximumIsHighest(c, init);
      CountRestart(c, Since(c, init), Run(c, init), x, RestartsIn(c, init), |init|, RestartsIn(c, ins));
    }
  }

  lemma RestartStands(c: Config, s: RxState, x: Input, t: RxState, n: nat)
    requires c.Valid() && ShapedState(c, s) && |x.left.slot| == c.size && Tails(c, x.left.tails)
    requires Restarts(c, s, Number(c, x)) && t == Step(c, s, x.seqNr, x.payload, x.left)
    ensures t.maxBlockNum == Number(c, x) && (n in Numbers(t.blocks) <==> n == Number(c, x)) && Decoded(t) == []
  {
    var l := [Number(c, x)];
    RestartAdmits(c, s, Number(c, x), x.left.tails);
    var r := Admitted(c, s, Number(c, x), x.left.tails);
    StoreNumbers(c, r, Number(c, x), Position(c, x.seqNr), x.payload, x.left.slot);
    SeatedAreInWindow(c, l, Numbers(r.blocks), n);
    assert l[Past(c, |l|)..] == l;
  }

  lemma RunsOn(c: Config, ins: seq<Input>, x: Input)
    requires Inputs(c, ins) && |x.left.slot| == c.size && Tails(c, x.left.tails)
    ensures Inputs(c, ins + [x]) && Run(c, ins + [x]) == Step(c, Run(c, ins), x.seqNr, x.payload, x.left)
  {
    Prefixes(ins, x);
  }

  // After a packet that far below, the receiver starts anew: the block of that packet is the only one.
  lemma FarBelowRestarts(c: Config, ins: seq<Input>, x: Input, n: nat, s: RxState, t: RxState)
    requires Inputs(c, ins) && |x.left.slot| == c.size && Tails(c, x.left.tails) && Inputs(c, ins + [x])
    requires s == Run(c, ins) && t == Run(c, ins + [x])
    requires Number(c, x) + 128 * c.buffers < Highest(c, Since(c, ins))
    ensures t.status.txRestarts == Wrap(s.status.txRestarts + 1) && t.maxBlockNum == Number(c, x)
    ensures (n in Numbers(t.blocks) <==> n == Number(c, x)) && Decoded(t) == []
  {
    MaximumIsHighest(c, ins);
    RunsOn(c, ins, x);
    StepRestarts(c, s, x);
    RestartStands(c, s, x, t, n);
  }
}
