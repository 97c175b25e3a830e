/** What the receiver delivers, told from the packets that arrive. */
module Deliveries {
  import opened Sequences
  import opened ErasureCodeSpec
  import opened Interleaving
  import opened BlockProtocol
  import opened BlockRuns
  import opened Arrivals

  // ------------------------------------------------------------------ any data-many packets of a block suffice

  ghost function KeptSlots(c: Config, ins: seq<Input>, n: nat): set<nat>
    requires c.Valid()
  {
    set k | 0 <= k < c.Packets() && KeptAt(c, ins, n, k)
  }

  ghost function PresentSlots(packets: seq<PacketView>): set<nat> {
    set k | 0 <= k < |packets| && packets[k].Present?
  }

  ghost function SlotsWhere(c: Config, flags: seq<bool>, n: nat, fec: bool): (s: set<nat>)
    requires n <= |flags| && |flags| == if fec then c.fec else c.data
  {
    set i | 0 <= i < n && flags[i] :: SlotOf(c, if fec then Fec(i) else Data(i))
  }

  lemma {:induction false} SlotsWhereCount(c: Config, flags: seq<bool>, n: nat, fec: bool)
    requires n <= |flags| && |flags| == if fec then c.fec else c.data
    ensures |SlotsWhere(c, flags, n, fec)| == |Select(flags, n)|
  {
    if n > 0 {
      SlotsWhereCount(c, flags, n - 1, fec);
      var all, init, last := SlotsWhere(c, flags, n, fec), SlotsWhere(c, flags, n - 1, fec),
        SlotOf(c, if fec then Fec(n - 1) else Data(n - 1));
      if flags[n - 1] {
        assert all == init + {last};
        assert last !in init;
      } else {
        assert all == init;
      }
    }
  }

  ghost function Flipped(flags: seq<bool>): (r: seq<bool>)
    ensures |r| == |flags| && forall i :: 0 <= i < |r| ==> r[i] == !flags[i]
  {
    seq(|flags|, i requires 0 <= i < |flags| => !flags[i])
  }

  lemma {:induction false} FlippedCount(flags: seq<bool>, n: nat)
    requires n <= |flags|
    ensures |Select(flags, n)| + |Select(Flipped(flags), n)| == n
  {
    if n > 0 { FlippedCount(flags, n - 1); }
  }

  // The present packets are the data packets and the FEC packets that are present.
  lemma PresentAreDataOrFec(c: Config, packets: seq<PacketView>, here: seq<bool>, good: seq<bool>)
    requires |packets| == c.Packets() && here == Flipped(MissingFlags(c, packets)) && good == GoodFlags(c, packets)
    ensures PresentSlots(packets) == SlotsWhere(c, here, c.data, false) + SlotsWhere(c, good, c.fec, true)
  {
    var a, b := SlotsWhere(c, here, c.data, false), SlotsWhere(c, good, c.fec, true);
    forall k | k in PresentSlots(packets) ensures k in a + b {
      SlotsAreBijective(c, k, RoleOf(c, k));
    }
    forall k | k in a ensures k in PresentSlots(packets) {
      var i :| 0 <= i < c.data && here[i] && k == SlotOf(c, Data(i));
      SlotFits(c, Data(i));
    }
    forall k | k in b ensures k in PresentSlots(packets) {
      var j :| 0 <= j < c.fec && good[j] && k == SlotOf(c, Fec(j));
      SlotFits(c, Fec(j));
    }
  }

  lemma DataAndFecApart(c: Config, here: seq<bool>, good: seq<bool>)
    requires |here| == c.data && |good| == c.fec
    ensures SlotsWhere(c, here, c.data, false) !! SlotsWhere(c, good, c.fec, true)
  {
    forall i, j | 0 <= i < c.data && 0 <= j < c.fec ensures SlotOf(c, Data(i)) != SlotOf(c, Fec(j)) {
      SlotsAreBijective(c, 0, Data(i)); SlotsAreBijective(c, 0, Fec(j));
    }
  }

  lemma PresentCount(c: Config, packets: seq<PacketView>)
    requires |packets| == c.Packets()
    ensures |PresentSlots(packets)| == c.data - |Missing(c, packets)| + |Good(c, packets)|
  {
    var here, good := Flipped(MissingFlags(c, packets)), GoodFlags(c, packets);
    SlotsWhereCount(c, here, c.data, false); SlotsWhereCount(c, good, c.fec, true);
    FlippedCount(MissingFlags(c, packets), c.data);
    PresentAreDataOrFec(c, packets, here, good);
    DataAndFecApart(c, here, good);
  }

  // A block can be recovered if and only if at least as many of its packets are present as it has data packets.
  lemma RecoverableIffEnough(c: Config, packets: seq<PacketView>)
    requires |packets| == c.Packets()
    ensures Recoverable(c, packets) <==> |PresentSlots(packets)| >= c.data
  {
    PresentCount(c, packets);
  }

  // ------------------------------------------------------------------ what is delivered

  // The payloads of the data packets at these positions
  ghost function PayloadsAt(c: Config, x: seq<Block>, slots: set<nat>, n: nat): seq<bv8>
    requires c.Valid() && SentBlock(c, x) && n <= c.data
  {
    if n == 0 then []
    else PayloadsAt(c, x, slots, n - 1) + (if DataSlot(c, n - 1) in slots then SentPayload(c, x[n - 1]) else [])
  }

  // What a block of data x gives if these positions of it were kept: all its payloads if there are enough of them,
  // otherwise those of the data packets kept
  ghost function FromSlots(c: Config, x: seq<Block>, slots: set<nat>): seq<bv8>
    requires c.Valid() && SentBlock(c, x)
  {
    if |slots| >= c.data then BlockPayloads(c, x, c.data) else PayloadsAt(c, x, slots, c.data)
  }

  // What the first m of the blocks l give, and the whole payloads of those blocks
  ghost function FromBlocks(c: Config, sent: Stream, l: seq<nat>, kept: seq<set<nat>>, m: nat): (r: seq<seq<bv8>>)
    requires c.Valid() && IsStream(c, sent) && m <= |l| == |kept|
    ensures |r| == m
  {
    seq(m, p requires 0 <= p < m => FromSlots(c, sent(l[p]), kept[p]))
  }

  ghost function WholeBlocks(c: Config, sent: Stream, l: seq<nat>, m: nat): (r: seq<seq<bv8>>)
    requires c.Valid() && IsStream(c, sent) && m <= |l|
    ensures |r| == m
  {
    seq(m, p requires 0 <= p < m => BlockPayloads(c, sent(l[p]), c.data))
  }

  // The positions kept of each of the blocks l
  ghost function AllKept(c: Config, ins: seq<Input>, l: seq<nat>): (r: seq<set<nat>>)
    requires c.Valid()
    ensures |r| == |l| && forall p :: 0 <= p < |r| ==> r[p] == KeptSlots(c, ins, l[p])
  {
    seq(|l|, p requires 0 <= p < |l| => KeptSlots(c, ins, l[p]))
  }

  // What is written for packets among which there is no restart: what the leaders give that left the window
  ghost function FromLeaders(c: Config, sent: Stream, ins: seq<Input>): seq<bv8>
    requires c.Valid() && IsStream(c, sent)
  {
    var l := Leaders(c, ins);
    Flatten(FromBlocks(c, sent, l, AllKept(c, ins, l), Past(c, |l|)))
  }

  // What was written up to the last restart: what the leaders gave each time that had left the window
  ghost function BeforeRestart(c: Config, sent: Stream, ins: seq<Input>): seq<bv8>
    requires c.Valid() && IsStream(c, sent)
  {
    if ins == [] then []
    else
      var init, x := ins[..|ins| - 1], ins[|ins| - 1];
      BeforeRestart(c, sent, init) +
        (if TooLate(c, Since(c, init), x) then FromLeaders(c, sent, Since(c, init)) else [])
  }

  // What is written for all packets
  ghost function Delivery(c: Config, sent: Stream, ins: seq<Input>): seq<bv8>
    requires c.Valid() && IsStream(c, sent)
  {
    BeforeRestart(c, sent, ins) + FromLeaders(c, sent, Since(c, ins))
  }

  lemma {:induction false} DeliveredAtSlots(c: Config, x: seq<Block>, packets: seq<PacketView>, slots: set<nat>, n: nat)
    requires c.Valid() && SentBlock(c, x) && |packets| == c.Packets() && n <= c.data && slots == PresentSlots(packets)
    requires !Recoverable(c, packets)
    ensures Delivered(c, x, packets, n) == PayloadsAt(c, x, slots, n)
  {
    if n > 0 {
      DeliveredAtSlots(c, x, packets, slots, n - 1);
      SlotFits(c, Data(n - 1));
    }
  }

  lemma DeliveredFromSlots(c: Config, x: seq<Block>, packets: seq<PacketView>, slots: set<nat>)
    requires c.Valid() && SentBlock(c, x) && |packets| == c.Packets() && slots == PresentSlots(packets)
    ensures Delivered(c, x, packets, c.data) == FromSlots(c, x, slots)
  {
    RecoverableIffEnough(c, packets);
    if Recoverable(c, packets) {
      RecoverableDeliversAll(c, x, packets, c.data);
    } else {
      DeliveredAtSlots(c, x, packets, slots, c.data);
    }
  }

  // The journal's blocks are the first of l, with the packets kept.
  ghost predicate JournalOf(es: seq<Eviction>, l: seq<nat>, kept: seq<set<nat>>) {
    && |es| <= |l| == |kept|
    && forall i :: 0 <= i < |es| ==> es[i].num == l[i] && PresentSlots(es[i].packets) == kept[i]
  }

  lemma {:induction false} JournalDelivers(c: Config, sent: Stream, es: seq<Eviction>, l: seq<nat>, kept: seq<set<nat>>)
    requires c.Valid() && IsStream(c, sent) && Complete(c, es) && GenuineJournal(c, sent, es) && JournalOf(es, l, kept)
    ensures DeliveredAll(c, sent, es) == Flatten(FromBlocks(c, sent, l, kept, |es|))
  {
    if es != [] {
      var e := es[|es| - 1];
      JournalDelivers(c, sent, es[..|es| - 1], l, kept);
      assert FromBlocks(c, sent, l, kept, |es|)[..|es| - 1] == FromBlocks(c, sent, l, kept, |es| - 1);
      DeliveredFromSlots(c, sent(e.num), e.packets, kept[|es| - 1]);
    }
  }

  lemma JournalKeeps(c: Config, ins: seq<Input>, l: seq<nat>, es: seq<Eviction>)
    requires c.Valid() && JournalHolds(c, ins, l, es)
    ensures JournalOf(es, l, AllKept(c, ins, l))
  {
    forall i | 0 <= i < |es| ensures PresentSlots(es[i].packets) == AllKept(c, ins, l)[i] {
      assert Holds(c, ins, l[i], es[i].packets);
    }
  }

  lemma GenuineJoin(c: Config, sent: Stream, es: seq<Eviction>, fs: seq<Eviction>)
    requires IsStream(c, sent) && Complete(c, es) && GenuineJournal(c, sent, es)
    requires Complete(c, fs) && GenuineJournal(c, sent, fs)
    ensures Complete(c, es + fs) && GenuineJournal(c, sent, es + fs)
  {}

  lemma {:induction false} DeliveredInParts(c: Config, sent: Stream, es: seq<Eviction>, fs: seq<Eviction>)
    requires c.Valid() && IsStream(c, sent) && Complete(c, es) && GenuineJournal(c, sent, es)
    requires Complete(c, fs) && GenuineJournal(c, sent, fs)
    ensures Complete(c, es + fs) && GenuineJournal(c, sent, es + fs)
    ensures DeliveredAll(c, sent, es + fs) == DeliveredAll(c, sent, es) + DeliveredAll(c, sent, fs)
  {
    GenuineJoin(c, sent, es, fs);
    if fs == [] {
      assert es + fs == es;
    } else {
      var init, e := fs[..|fs| - 1], fs[|fs| - 1];
      DeliveredInParts(c, sent, es, init);
      SplitLast(es, fs);
      DeliveredNext(c, sent, es + init, e);
      DeliveredNext(c, sent, init, e);
      Regroup(DeliveredAll(c, sent, es), DeliveredAll(c, sent, init), Delivered(c, sent(e.num), e.packets, c.data));
    }
  }

  // What was decoded before the last restart
  ghost function Earlier(s: RxState): seq<Eviction>
    requires s.since <= |s.journal|
  {
    s.journal[..s.since]
  }

  lemma StepKeepsEarlier(c: Config, s: RxState, x: Input)
    requires c.Valid() && ShapedState(c, s) && |x.left.slot| == c.size && Tails(c, x.left.tails)
    ensures Earlier(Step(c, s, x.seqNr, x.payload, x.left)) == if Restarts(c, s, Number(c, x)) then s.journal
            else Earlier(s)
  {}

  lemma JournalInParts(c: Config, sent: Stream, s: RxState)
    requires c.Valid() && ShapedState(c, s) && IsStream(c, sent) && GenuineState(c, sent, s)
    requires Complete(c, Earlier(s)) && Complete(c, Journal(s))
    ensures GenuineJournal(c, sent, Earlier(s)) && GenuineJournal(c, sent, Journal(s))
    ensures s.output == DeliveredAll(c, sent, Earlier(s)) + DeliveredAll(c, sent, Journal(s))
  {
    assert s.journal == Earlier(s) + Journal(s);
    DeliveredInParts(c, sent, Earlier(s), Journal(s));
  }

  lemma SinceDelivers(c: Config, sent: Stream, ins: seq<Input>, s: RxState)
    requires c.Valid() && ShapedState(c, s) && IsStream(c, sent) && Tracked(c, ins, Leaders(c, ins), s)
    requires Complete(c, Journal(s)) && GenuineJournal(c, sent, Journal(s))
    ensures DeliveredAll(c, sent, Journal(s)) == FromLeaders(c, sent, ins)
  {
    var l := Leaders(c, ins);
    JournalKeeps(c, ins, l, Journal(s));
    JournalDelivers(c, sent, Journal(s), l, AllKept(c, ins, l));
  }

  lemma OutputSince(c: Config, sent: Stream, now: seq<Input>, s: RxState)
    requires c.Valid() && ShapedState(c, s) && IsStream(c, sent) && GenuineState(c, sent, s)
    requires Tracked(c, now, Leaders(c, now), s)
    ensures Complete(c, Earlier(s)) && GenuineJournal(c, sent, Earlier(s))
    ensures s.output == DeliveredAll(c, sent, Earlier(s)) + FromLeaders(c, sent, now)
  {
    JournalInParts(c, sent, s);
    SinceDelivers(c, sent, now, s);
  }

  lemma EarlierNext(c: Config, sent: Stream, now: seq<Input>, s: RxState, x: Input, s': RxState)
    requires c.Valid() && ShapedState(c, s) && ShapedState(c, s') && IsStream(c, sent) && GenuineState(c, sent, s)
    requires |x.left.slot| == c.size && Tails(c, x.left.tails) && s' == Step(c, s, x.seqNr, x.payload, x.left)
    requires Tracked(c, now, Leaders(c, now), s) && Complete(c, Earlier(s)) && GenuineJournal(c, sent, Earlier(s))
    ensures Complete(c, Earlier(s')) && GenuineJournal(c, sent, Earlier(s'))
    ensures DeliveredAll(c, sent, Earlier(s')) ==
            DeliveredAll(c, sent, Earlier(s)) + (if TooLate(c, now, x) then FromLeaders(c, sent, now) else [])
  {
    HighestIsLast(c, now, s);
    StepKeepsEarlier(c, s, x);
    OutputSince(c, sent, now, s);
  }

  lemma {:induction false} EarlierDelivers(c: Config, sent: Stream, ins: seq<Input>)
    requires Inputs(c, ins) && IsStream(c, sent) && GenuineInputs(c, sent, ins)
    ensures Complete(c, Earlier(Run(c, ins))) && GenuineJournal(c, sent, Earlier(Run(c, ins)))
    ensures DeliveredAll(c, sent, Earlier(Run(c, ins))) == BeforeRestart(c, sent, ins)
  {
    if ins != [] {
      var init, x := ins[..|ins| - 1], ins[|ins| - 1];
      EarlierDelivers(c, sent, init);
      EveryGenuineRun(c, sent, init);
      EveryArrival(c, init);
      EarlierNext(c, sent, Since(c, init), Run(c, init), x, Run(c, ins));
    }
  }

  // Every run of genuine packets, lost, repeated, reordered or taken for a restart in any way: the output is told from
  // which packets arrived when.
  lemma EveryDelivery(c: Config, sent: Stream, ins: seq<Input>)
    requires Inputs(c, ins) && IsStream(c, sent) && GenuineInputs(c, sent, ins)
    ensures Run(c, ins).output == Delivery(c, sent, ins)
  {
    EveryGenuineRun(c, sent, ins);
    EveryArrival(c, ins);
    EarlierDelivers(c, sent, ins);
    OutputSince(c, sent, Since(c, ins), Run(c, ins));
  }

  // ------------------------------------------------------------------ when everything is delivered

  // Enough packets of the first m blocks were kept.
  ghost predicate Enough(c: Config, kept: seq<set<nat>>, m: nat)
    requires m <= |kept|
  {
    forall p :: 0 <= p < m ==> |kept[p]| >= c.data
  }

  lemma EnoughGiveAll(c: Config, x: seq<Block>, slots: set<nat>)
    requires c.Valid() && SentBlock(c, x) && |slots| >= c.data
    ensures FromSlots(c, x, slots) == BlockPayloads(c, x, c.data)
  {}

  lemma EnoughGiveBlocks(c: Config, sent: Stream, l: seq<nat>, kept: seq<set<nat>>, m: nat)
    requires c.Valid() && IsStream(c, sent) && m <= |l| == |kept| && Enough(c, kept, m)
    ensures FromBlocks(c, sent, l, kept, m) == WholeBlocks(c, sent, l, m)
  {
    forall p | 0 <= p < m ensures FromSlots(c, sent(l[p]), kept[p]) == BlockPayloads(c, sent(l[p]), c.data) {
      EnoughGiveAll(c, sent(l[p]), kept[p]);
    }
  }

  // How many blocks have left the window
  ghost function Finished(c: Config, ins: seq<Input>): (n: nat)
    requires c.Valid()
    ensures n <= |Leaders(c, ins)|
  {
    Past(c, |Leaders(c, ins)|)
  }

  // Enough packets were kept of every block that has left the window.
  ghost predicate EnoughKept(c: Config, ins: seq<Input>)
    requires c.Valid()
  {
    Enough(c, AllKept(c, ins, Leaders(c, ins)), Finished(c, ins))
  }

  // No packet arrived so late that it was taken for a restart.
  ghost predicate NoneTooLate(c: Config, ins: seq<Input>)
    requires c.Valid()
  {
    forall i :: 0 <= i < |ins| ==> !TooLate(c, ins[..i], ins[i])
  }

  lemma NoneTooLateNext(c: Config, ins: seq<Input>, x: Input)
    requires c.Valid()
    ensures NoneTooLate(c, ins + [x]) <==> NoneTooLate(c, ins) && !TooLate(c, ins, x)
  {
    var all := ins + [x];
    Prefixes(ins, x);
    if NoneTooLate(c, all) {
      forall i | 0 <= i < |ins|
        ensures !TooLate(c, ins[..i], ins[i])
      {
        assert all[i] == ins[i] && all[..i] == ins[..i];
      }
      assert all[|ins|] == x && all[..|ins|] == ins;
    }
  }

  // Then there was no restart.
  lemma {:induction false} NoneTooLateNoRestart(c: Config, sent: Stream, ins: seq<Input>)
    requires c.Valid() && IsStream(c, sent) && NoneTooLate(c, ins)
    ensures Since(c, ins) == ins && BeforeRestart(c, sent, ins) == []
  {
    if ins != [] {
      var init, x := ins[..|ins| - 1], ins[|ins| - 1];
      assert ins == init + [x];
      NoneTooLateNext(c, init, x);
      NoneTooLateNoRestart(c, sent, init);
      SinceNext(c, init, x);
    }
  }

  // Without a restart, and if enough was kept, the output is the payloads of all blocks that left the window, in order;
  // only blocks that never led are missing.
  lemma LeadersDelivered(c: Config, sent: Stream, ins: seq<Input>)
    requires Inputs(c, ins) && IsStream(c, sent) && GenuineInputs(c, sent, ins) && NoneTooLate(c, ins)
             && EnoughKept(c, ins)
    ensures Run(c, ins).output == Flatten(WholeBlocks(c, sent, Leaders(c, ins), Finished(c, ins)))
  {
    var l := Leaders(c, ins);
    NoneTooLateNoRestart(c, sent, ins);
    EveryDelivery(c, sent, ins);
    EnoughGiveBlocks(c, sent, l, AllKept(c, ins, l), Finished(c, ins));
  }

  // No block up to the highest was overtaken before its first packet.
  ghost predicate NoneOvertaken(c: Config, ins: seq<Input>)
    requires c.Valid()
  {
    forall n: nat :: n <= Highest(c, ins) ==> Leads(c, ins, n)
  }

  lemma {:induction false} AscendingAtLeast(l: seq<nat>, p: nat)
    requires Ascending(l) && p < |l|
    ensures p <= l[p]
  {
    if p > 0 { AscendingAtLeast(l, p - 1); }
  }

  lemma {:induction false} AllOfThem(l: seq<nat>, p: nat)
    requires Ascending(l) && p < |l| && forall n: nat :: n <= l[|l| - 1] ==> n in l
    ensures l[p] == p
  {
    AscendingAtLeast(l, p);
    if p > 0 { AllOfThem(l, p - 1); }
    assert p in l;
    var q :| 0 <= q < |l| && l[q] == p;
    if q < p { AllOfThem(l, q); }
  }

  // Then every block leads in turn.
  lemma LeadersAreAll(c: Config, ins: seq<Input>, p: nat)
    requires c.Valid() && NoneOvertaken(c, ins) && p < |Leaders(c, ins)|
    ensures Leaders(c, ins)[p] == p
  {
    var l := Leaders(c, ins);
    forall n: nat | n <= l[|l| - 1] ensures n in l { LeadersLead(c, ins, n); }
    AllOfThem(l, p);
  }

  lemma {:induction false} WholeStream(c: Config, sent: Stream, l: seq<nat>, m: nat)
    requires c.Valid() && IsStream(c, sent) && m <= |l| && forall p :: 0 <= p < m ==> l[p] == p
    ensures Flatten(WholeBlocks(c, sent, l, m)) == StreamPayloads(c, sent, m)
  {
    if m > 0 {
      WholeStream(c, sent, l, m - 1);
      assert WholeBlocks(c, sent, l, m)[..m - 1] == WholeBlocks(c, sent, l, m - 1);
      assert l[m - 1] == m - 1;
    }
  }

  // If moreover no block was overtaken, every block up to the last one finished comes out whole.
  lemma StreamDelivered(c: Config, sent: Stream, ins: seq<Input>)
    requires Inputs(c, ins) && IsStream(c, sent) && GenuineInputs(c, sent, ins) && NoneTooLate(c, ins)
    requires NoneOvertaken(c, ins) && EnoughKept(c, ins)
    ensures Run(c, ins).output == StreamPayloads(c, sent, Finished(c, ins))
  {
    LeadersDelivered(c, sent, ins);
    forall p | 0 <= p < Finished(c, ins) ensures Leaders(c, ins)[p] == p { LeadersAreAll(c, ins, p); }
    WholeStream(c, sent, Leaders(c, ins), Finished(c, ins));
  }
}
