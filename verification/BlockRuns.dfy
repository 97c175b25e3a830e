/** What holds after every run of the receiver. */
module BlockRuns {
  import opened ErasureCodeSpec
  import opened Interleaving
  import opened Counters
  import opened BlockProtocol

  // ------------------------------------------------------------------ the window of buffered blocks

  ghost function Numbers(blocks: seq<BlockView>): (r: seq<int>)
    ensures |r| == |blocks| && forall b :: 0 <= b < |r| ==> r[b] == blocks[b].num
  {
    seq(|blocks|, b requires 0 <= b < |blocks| => blocks[b].num)
  }

  // The numbers of the blocks decoded since the last restart, in the order of decoding
  ghost function Decoded(s: RxState): (r: seq<int>)
    requires s.since <= |s.journal|
    ensures |r| == |s.journal| - s.since && forall i :: 0 <= i < |r| ==> r[i] == s.journal[s.since + i].num
  {
    seq(|s.journal| - s.since, i requires 0 <= i < |s.journal| - s.since => s.journal[s.since + i].num)
  }

  // -1 marks an unused buffer.
  ghost predicate DistinctNumbers(nums: seq<int>) {
    forall a, b :: 0 <= a < b < |nums| && nums[a] != -1 ==> nums[a] != nums[b]
  }

  ghost predicate IsMaximum(nums: seq<int>, max: int) {
    (forall b :: 0 <= b < |nums| ==> nums[b] <= max) && (max != -1 ==> max in nums)
  }

  // Decoded in increasing order, all below the numbers still buffered
  ghost predicate DecodedInOrder(done: seq<int>, nums: seq<int>) {
    && (forall i, j :: 0 <= i < j < |done| ==> done[i] < done[j])
    && (forall i, b :: 0 <= i < |done| && 0 <= b < |nums| && nums[b] != -1 ==> done[i] < nums[b])
  }

  ghost predicate BelowMaximum(done: seq<int>, max: int) { forall i :: 0 <= i < |done| ==> done[i] < max }

  ghost predicate UnusedAreEmpty(c: Config, blocks: seq<BlockView>) {
    forall b :: 0 <= b < |blocks| && blocks[b].num == -1 ==> blocks[b] == EmptyBlock(c, -1)
  }

  ghost predicate Window(c: Config, s: RxState) {
    && ShapedState(c, s)
    && DistinctNumbers(Numbers(s.blocks)) && IsMaximum(Numbers(s.blocks), s.maxBlockNum)
    && DecodedInOrder(Decoded(s), Numbers(s.blocks)) && BelowMaximum(Decoded(s), s.maxBlockNum)
    && UnusedAreEmpty(c, s.blocks)
  }

  // Block b, the least, makes room for a number above all others.
  lemma ReplaceLeast(nums: seq<int>, done: seq<int>, max: int, b: nat, num: nat)
    requires b < |nums| && max < num && (forall a :: 0 <= a < |nums| ==> -1 <= nums[b] <= nums[a] <= max)
    requires DistinctNumbers(nums) && DecodedInOrder(done, nums) && BelowMaximum(done, max)
    ensures DistinctNumbers(nums[b := num]) && IsMaximum(nums[b := num], num)
    ensures DecodedInOrder(if nums[b] != -1 then done + [nums[b]] else done, nums[b := num])
    ensures BelowMaximum(if nums[b] != -1 then done + [nums[b]] else done, num)
  {
    assert nums[b := num][b] == num;
  }

  lemma AdmitNumbers(c: Config, s: RxState, num: nat, tails: seq<seq<bv8>>, b: nat)
    requires c.Valid() && ShapedState(c, s) && Tails(c, tails) && b == Oldest(s.blocks, c.buffers)
    ensures var r := Admit(c, s, num, tails); var nums := Numbers(s.blocks);
            && Numbers(r.blocks) == nums[b := num] && r.maxBlockNum == num
            && Decoded(r) == (if nums[b] != -1 then Decoded(s) + [nums[b]] else Decoded(s))
            && (UnusedAreEmpty(c, s.blocks) ==> UnusedAreEmpty(c, r.blocks))
  {}

  lemma AdmitWindow(c: Config, s: RxState, num: nat, tails: seq<seq<bv8>>)
    requires c.Valid() && Window(c, s) && Tails(c, tails) && s.maxBlockNum < num
    ensures Window(c, Admit(c, s, num, tails))
  {
    var b := Oldest(s.blocks, c.buffers);
    OldestIsLeast(s.blocks, c.buffers);
    AdmitNumbers(c, s, num, tails, b);
    ReplaceLeast(Numbers(s.blocks), Decoded(s), s.maxBlockNum, b, num);
  }

  lemma RestartedWindow(c: Config, s: RxState)
    requires c.Valid() && ShapedState(c, s)
    ensures Window(c, Restarted(c, s).(maxBlockNum := -1))
  {}

  lemma StoreNumbers(c: Config, s: RxState, num: nat, slot: nat, payload: seq<bv8>, left: seq<bv8>)
    requires c.Valid() && ShapedState(c, s) && slot < c.Packets() && |left| == c.size
    ensures var r := Store(c, s, num, slot, payload, left);
            && Numbers(r.blocks) == Numbers(s.blocks) && r.maxBlockNum == s.maxBlockNum && Decoded(r) == Decoded(s)
            && (UnusedAreEmpty(c, s.blocks) ==> UnusedAreEmpty(c, r.blocks))
  {}

  // Admitting does not look at the largest number.
  lemma AdmitIgnoresMaximum(c: Config, s: RxState, num: nat, tails: seq<seq<bv8>>)
    requires c.Valid() && ShapedState(c, s) && Tails(c, tails)
    ensures Admit(c, s.(maxBlockNum := -1), num, tails) == Admit(c, s, num, tails)
  {}

  lemma AdmittedWindow(c: Config, s: RxState, num: nat, tails: seq<seq<bv8>>)
    requires c.Valid() && Window(c, s) && Tails(c, tails)
    ensures Window(c, Admitted(c, s, num, tails))
  {
    if Restarts(c, s, num) {
      RestartedWindow(c, s);
      AdmitIgnoresMaximum(c, Restarted(c, s), num, tails);
      AdmitWindow(c, Restarted(c, s).(maxBlockNum := -1), num, tails);
    } else if num > s.maxBlockNum {
      AdmitWindow(c, s, num, tails);
    }
  }

  lemma StepWindow(c: Config, s: RxState, seqNr: nat, payload: seq<bv8>, left: Leftover)
    requires c.Valid() && Window(c, s) && |left.slot| == c.size && Tails(c, left.tails)
    ensures Window(c, Step(c, s, seqNr, payload, left))
  {
    var num := BlockNumber(c, seqNr);
    AdmittedWindow(c, s, num, left.tails);
    StoreNumbers(c, Admitted(c, s, num, left.tails), num, Position(c, seqNr), payload, left.slot);
  }

  // ------------------------------------------------------------------ the first packet stays

  lemma AdmitKeepsPackets(c: Config, s: RxState, num: nat, tails: seq<seq<bv8>>, b: nat)
    requires c.Valid() && Window(c, s) && Tails(c, tails) && s.maxBlockNum < num && b < c.buffers
    ensures var r := Admit(c, s, num, tails);
            r.blocks[b].num == s.blocks[b].num ==> r.blocks[b].packets == s.blocks[b].packets
  {
    assert Numbers(s.blocks)[b] == s.blocks[b].num;
  }

  // As long as a block stays in its buffer, a packet of it that is present stays as it is, also if it comes again.
  lemma FirstStays(c: Config, s: RxState, seqNr: nat, payload: seq<bv8>, left: Leftover, b: nat, k: nat)
    requires c.Valid() && Window(c, s) && |left.slot| == c.size && Tails(c, left.tails)
    requires b < c.buffers && k < c.Packets() && !Restarts(c, s, BlockNumber(c, seqNr))
    ensures var r := Step(c, s, seqNr, payload, left);
            r.blocks[b].num == s.blocks[b].num && s.blocks[b].packets[k].Present?
            ==> r.blocks[b].packets[k] == s.blocks[b].packets[k]
  {
    var num := BlockNumber(c, seqNr);
    if num > s.maxBlockNum { AdmitKeepsPackets(c, s, num, left.tails, b); }
  }

  // A packet of a buffered block that is not present yet is put in its place, with what the buffer held behind it.
  lemma NewIsStored(c: Config, s: RxState, seqNr: nat, payload: seq<bv8>, left: Leftover, b: nat)
    requires c.Valid() && Window(c, s) && |left.slot| == c.size && Tails(c, left.tails)
    requires b < c.buffers && s.blocks[b].num == BlockNumber(c, seqNr)
             && s.blocks[b].packets[Position(c, seqNr)].Absent?
    requires !Restarts(c, s, BlockNumber(c, seqNr))
    ensures var p := Step(c, s, seqNr, payload, left).blocks[b].packets[Position(c, seqNr)];
            p.Present? && |p.data| == c.size
            && forall i :: 0 <= i < c.size ==> p.data[i] == if i < |payload| then payload[i] else left.slot[i]
  {
    assert Numbers(s.blocks)[b] == s.blocks[b].num <= s.maxBlockNum;
    forall a | 0 <= a < b ensures s.blocks[a].num != BlockNumber(c, seqNr) {
      assert Numbers(s.blocks)[a] != Numbers(s.blocks)[b];
    }
  }

  // ------------------------------------------------------------------ the counters

  ghost function LostIn(c: Config, e: Eviction): (n: nat)
    requires |e.packets| == c.Packets()
    ensures n <= c.Packets()
  {
    |Missing(c, e.packets)| + (c.fec - |Good(c, e.packets)|)
  }

  ghost predicate Complete(c: Config, es: seq<Eviction>) {
    forall i :: 0 <= i < |es| ==> |es[i].packets| == c.Packets()
  }

  // The packets of n blocks
  ghost function PacketsOf(c: Config, n: nat): nat { if n == 0 then 0 else PacketsOf(c, n - 1) + c.Packets() }

  lemma {:induction false} PacketsOfAre(c: Config, n: nat)
    ensures PacketsOf(c, n) == c.Packets() * n
  {
    if n > 0 { PacketsOfAre(c, n - 1); }
  }

  ghost function LostPackets(c: Config, es: seq<Eviction>): (n: nat)
    requires Complete(c, es)
    ensures n <= PacketsOf(c, |es|)
  {
    if es == [] then 0
    else
      LostPackets(c, es[..|es| - 1]) + LostIn(c, es[|es| - 1])
  }

  ghost function DamagedBlocks(c: Config, es: seq<Eviction>): nat
    requires Complete(c, es)
  {
    if es == [] then 0
    else DamagedBlocks(c, es[..|es| - 1]) + (if Recoverable(c, es[|es| - 1].packets) then 0 else 1)
  }

  // Each counter is the true count since the last restart, modulo 2^32; in every decoded block each packet
  // counts as received or as lost.
  ghost predicate StatusOf(c: Config, st: Status, es: seq<Eviction>)
    requires Complete(c, es)
  {
    && st.receivedBlocks == Wrap(|es|)
    && st.damagedBlocks == Wrap(DamagedBlocks(c, es))
    && st.lostPackets == Wrap(LostPackets(c, es))
    && st.receivedPackets == Wrap(PacketsOf(c, |es|) - LostPackets(c, es))
  }

  ghost predicate Counted(c: Config, s: RxState)
    requires ShapedState(c, s)
  {
    StatusOf(c, s.status, s.journal[s.since..])
  }

  lemma OneMoreCounted(c: Config, es: seq<Eviction>, e: Eviction)
    requires Complete(c, es) && |e.packets| == c.Packets()
    ensures DamagedBlocks(c, es + [e]) == DamagedBlocks(c, es) + (if Recoverable(c, e.packets) then 0 else 1)
    ensures LostPackets(c, es + [e]) == LostPackets(c, es) + LostIn(c, e)
    ensures PacketsOf(c, |es + [e]|) == PacketsOf(c, |es|) + c.Packets()
  {
    assert (es + [e])[..|es|] == es;
  }

  // The same counts, in numbers
  lemma CountsAdd(c: Config, st: Status, packets: seq<PacketView>, blocks: nat, damaged: nat, lost: nat, received: int,
                  more: nat)
    requires |packets| == c.Packets() && more == LostIn(c, Eviction(0, packets))
    requires st.receivedBlocks == Wrap(blocks) && st.damagedBlocks == Wrap(damaged) && st.lostPackets == Wrap(lost)
             && st.receivedPackets == Wrap(received)
    ensures var st' := CountBlock(c, st, packets);
            && st'.receivedBlocks == Wrap(blocks + 1) && st'.lostPackets == Wrap(lost + more)
            && st'.damagedBlocks == Wrap(damaged + if Recoverable(c, packets) then 0 else 1)
            && st'.receivedPackets == Wrap(received + (c.Packets() - more))
  {
    WrapAdd(blocks, 1); WrapAdd(damaged, 1); WrapAdd(lost, more); WrapAdd(received, c.Packets() - more);
  }

  lemma CountBlockIsExact(c: Config, st: Status, es: seq<Eviction>, e: Eviction)
    requires c.Valid() && Complete(c, es) && |e.packets| == c.Packets() && StatusOf(c, st, es)
    ensures StatusOf(c, CountBlock(c, st, e.packets), es + [e])
  {
    OneMoreCounted(c, es, e);
    CountsAdd(c, st, e.packets, |es|, DamagedBlocks(c, es), LostPackets(c, es),
              PacketsOf(c, |es|) - LostPackets(c, es), LostIn(c, e));
  }

  lemma EvictCounted(c: Config, s: RxState, b: nat, tails: seq<seq<bv8>>)
    requires c.Valid() && ShapedState(c, s) && b < c.buffers && Tails(c, tails) && Counted(c, s)
    ensures Counted(c, Evict(c, s, b, tails))
  {
    var e := Eviction(s.blocks[b].num, s.blocks[b].packets);
    CountBlockIsExact(c, s.status, s.journal[s.since..], e);
    assert (s.journal + [e])[s.since..] == s.journal[s.since..] + [e];
  }

  lemma AdmitCounted(c: Config, s: RxState, num: nat, tails: seq<seq<bv8>>)
    requires c.Valid() && ShapedState(c, s) && Tails(c, tails) && Counted(c, s)
    ensures Counted(c, Admit(c, s, num, tails))
  {
    EvictCounted(c, s, Oldest(s.blocks, c.buffers), tails);
  }

  lemma AdmittedCounted(c: Config, s: RxState, num: nat, tails: seq<seq<bv8>>)
    requires c.Valid() && ShapedState(c, s) && Tails(c, tails) && Counted(c, s)
    ensures Counted(c, Admitted(c, s, num, tails))
  {
    if Restarts(c, s, num) {
      assert Restarted(c, s).journal[|s.journal|..] == [];
      AdmitCounted(c, Restarted(c, s), num, tails);
    } else if num > s.maxBlockNum {
      AdmitCounted(c, s, num, tails);
    }
  }

  lemma StoreCounted(c: Config, s: RxState, num: nat, slot: nat, payload: seq<bv8>, left: seq<bv8>)
    requires c.Valid() && ShapedState(c, s) && slot < c.Packets() && |left| == c.size && Counted(c, s)
    ensures Counted(c, Store(c, s, num, slot, payload, left))
  {
    var r := Store(c, s, num, slot, payload, left);
    assert r.status == s.status && r.journal == s.journal && r.since == s.since;
  }

  lemma StepCounted(c: Config, s: RxState, seqNr: nat, payload: seq<bv8>, left: Leftover)
    requires c.Valid() && ShapedState(c, s) && |left.slot| == c.size && Tails(c, left.tails) && Counted(c, s)
    ensures Counted(c, Step(c, s, seqNr, payload, left))
  {
    var num := BlockNumber(c, seqNr);
    AdmittedCounted(c, s, num, left.tails);
    StoreCounted(c, Admitted(c, s, num, left.tails), num, Position(c, seqNr), payload, left.slot);
  }

  // ------------------------------------------------------------------ what genuine packets deliver

  // Block b of the sender's stream; every header gives a length that fits behind it.
  type Stream = nat -> seq<Block>

  ghost predicate SentBlock(c: Config, x: seq<Block>) {
    |x| == c.data && Sized(x, c.size)
      && forall i :: 0 <= i < c.data ==> c.size >= PAYLOAD_HEADER && HeaderLength(x[i]) <= c.size - PAYLOAD_HEADER
  }

  ghost predicate IsStream(c: Config, sent: Stream) { forall b: nat :: SentBlock(c, sent(b)) }

  ghost predicate GenuinePackets(c: Config, x: seq<Block>, packets: seq<PacketView>)
    requires SentBlock(c, x) && |packets| == c.Packets()
  {
    forall k :: 0 <= k < |packets| && packets[k].Present? ==> packets[k].data == PacketContent(c, x, k)
  }

  // Everything buffered or decoded so far is what was sent.
  ghost predicate GenuineBlocks(c: Config, sent: Stream, blocks: seq<BlockView>)
    requires IsStream(c, sent) && forall b :: 0 <= b < |blocks| ==> |blocks[b].packets| == c.Packets()
  {
    forall b :: 0 <= b < |blocks| && blocks[b].num >= 0 ==> GenuinePackets(c, sent(blocks[b].num), blocks[b].packets)
  }

  ghost predicate GenuineJournal(c: Config, sent: Stream, es: seq<Eviction>)
    requires IsStream(c, sent) && Complete(c, es)
  {
    forall i :: 0 <= i < |es| ==> es[i].num >= 0 && GenuinePackets(c, sent(es[i].num), es[i].packets)
  }

  // ... and the output is what the decoded blocks had to deliver.
  ghost predicate GenuineState(c: Config, sent: Stream, s: RxState)
    requires c.Valid() && ShapedState(c, s) && IsStream(c, sent)
  {
    && GenuineBlocks(c, sent, s.blocks) && GenuineJournal(c, sent, s.journal)
    && s.output == DeliveredAll(c, sent, s.journal)
  }

  lemma GenuineIsRecovery(c: Config, x: seq<Block>, packets: seq<PacketView>)
    requires c.Valid() && SentBlock(c, x) && Shaped(c, packets) && GenuinePackets(c, x, packets)
             && Recoverable(c, packets)
    ensures Recovery(c, packets) == x
  {
    SelectIsOrdered(GoodFlags(c, packets), c.fec);
    forall i | 0 <= i < c.data && !MissingFlags(c, packets)[i] ensures x[i] == packets[DataSlot(c, i)].data {
      SlotsAreBijective(c, 0, Data(i)); SlotFits(c, Data(i));
    }
    forall k | 0 <= k < |Missing(c, packets)| ensures FecUsed(c, packets, x, Good(c, packets)[k]) {
      var j := Good(c, packets)[k];
      assert GoodFlags(c, packets)[j];
      SlotsAreBijective(c, 0, Fec(j)); SlotFits(c, Fec(j));
    }
    assert IsRecovery(c, packets, x);
    RecoveryUnique(c, packets, x);
  }

  // The payload of a data block as its sender put it in
  ghost function SentPayload(c: Config, b: Block): seq<bv8>
    requires PAYLOAD_HEADER <= |b| == c.size && HeaderLength(b) <= c.size - PAYLOAD_HEADER
  {
    HeaderLengthNonnegative(b);
    b[PAYLOAD_HEADER..PAYLOAD_HEADER + HeaderLength(b)]
  }

  // The payloads of a block that come out: all of them, or of an unrecoverable block those that arrived
  ghost function Delivered(c: Config, x: seq<Block>, packets: seq<PacketView>, n: nat): seq<bv8>
    requires c.Valid() && SentBlock(c, x) && |packets| == c.Packets() && n <= c.data
  {
    if n == 0 then []
    else
      SlotFits(c, Data(n - 1));
      Delivered(c, x, packets, n - 1) +
      (if Recoverable(c, packets) || packets[DataSlot(c, n - 1)].Present? then SentPayload(c, x[n - 1]) else [])
  }

  lemma WrittenForIsPayload(c: Config, x: seq<Block>, packets: seq<PacketView>, tails: seq<seq<bv8>>, i: nat)
    requires c.Valid() && SentBlock(c, x) && Shaped(c, packets) && GenuinePackets(c, x, packets) && Tails(c, tails)
             && i < c.data
    ensures SlotOf(c, Data(i)) < c.Packets()
    ensures WrittenFor(c, packets, tails, i) ==
            if Recoverable(c, packets) || packets[DataSlot(c, i)].Present? then SentPayload(c, x[i]) else []
  {
    SlotFits(c, Data(i)); SlotsAreBijective(c, 0, Data(i));
    HeaderLengthNonnegative(x[i]);
    assert Payload(c, x[i], tails[i]) == SentPayload(c, x[i]);
    if Recoverable(c, packets) { GenuineIsRecovery(c, x, packets); }
  }

  lemma NextWritten(c: Config, x: seq<Block>, packets: seq<PacketView>, tails: seq<seq<bv8>>, n: nat, b: seq<bv8>)
    requires c.Valid() && SentBlock(c, x) && Shaped(c, packets) && GenuinePackets(c, x, packets) && Tails(c, tails)
             && n < c.data
    requires b == Written(c, packets, tails, n) == Delivered(c, x, packets, n)
    ensures Written(c, packets, tails, n + 1) == Delivered(c, x, packets, n + 1)
  {
    WrittenForIsPayload(c, x, packets, tails, n);
  }

  lemma {:induction false} WrittenIsDelivered(c: Config, x: seq<Block>, packets: seq<PacketView>, tails: seq<seq<bv8>>,
                                              n: nat)
    requires c.Valid() && SentBlock(c, x) && Shaped(c, packets) && GenuinePackets(c, x, packets) && Tails(c, tails)
             && n <= c.data
    ensures Written(c, packets, tails, n) == Delivered(c, x, packets, n)
  {
    if n > 0 {
      WrittenIsDelivered(c, x, packets, tails, n - 1);
      NextWritten(c, x, packets, tails, n - 1, Written(c, packets, tails, n - 1));
    }
  }

  ghost function DeliveredAll(c: Config, sent: Stream, es: seq<Eviction>): seq<bv8>
    requires c.Valid() && IsStream(c, sent) && Complete(c, es) && GenuineJournal(c, sent, es)
  {
    if es == [] then []
    else
      var e := es[|es| - 1];
      DeliveredAll(c, sent, es[..|es| - 1]) + Delivered(c, sent(e.num), e.packets, c.data)
  }

  // A packet of the stream, possibly followed by bytes the link added
  ghost predicate GenuineInput(c: Config, sent: Stream, seqNr: nat, payload: seq<bv8>)
    requires c.Valid() && IsStream(c, sent)
  {
    c.size <= |payload| && payload[..c.size] == PacketContent(c, sent(BlockNumber(c, seqNr)), Position(c, seqNr))
  }

  lemma DeliveredNext(c: Config, sent: Stream, es: seq<Eviction>, e: Eviction)
    requires c.Valid() && IsStream(c, sent) && Complete(c, es) && GenuineJournal(c, sent, es)
    requires e.num >= 0 && |e.packets| == c.Packets() && GenuinePackets(c, sent(e.num), e.packets)
    ensures DeliveredAll(c, sent, es + [e]) == DeliveredAll(c, sent, es) + Delivered(c, sent(e.num), e.packets, c.data)
  {
    assert (es + [e])[..|es|] == es;
  }

  lemma EvictGenuine(c: Config, sent: Stream, s: RxState, b: nat, tails: seq<seq<bv8>>)
    requires c.Valid() && ShapedState(c, s) && IsStream(c, sent) && b < c.buffers && Tails(c, tails)
             && s.blocks[b].num >= 0
    requires GenuineState(c, sent, s)
    ensures GenuineState(c, sent, Evict(c, s, b, tails))
  {
    var block := s.blocks[b];
    WrittenIsDelivered(c, sent(block.num), block.packets, tails, c.data);
    DeliveredNext(c, sent, s.journal, Eviction(block.num, block.packets));
  }

  lemma RenumberGenuine(c: Config, sent: Stream, blocks: seq<BlockView>, b: nat, num: nat)
    requires IsStream(c, sent) && (forall a :: 0 <= a < |blocks| ==> |blocks[a].packets| == c.Packets()) && b < |blocks|
    requires GenuineBlocks(c, sent, blocks) && forall k :: 0 <= k < c.Packets() ==> blocks[b].packets[k] == Absent
    ensures GenuineBlocks(c, sent, blocks[b := blocks[b].(num := num)])
  {}

  lemma AdmitGenuine(c: Config, sent: Stream, s: RxState, num: nat, tails: seq<seq<bv8>>)
    requires c.Valid() && ShapedState(c, s) && IsStream(c, sent) && Tails(c, tails) && UnusedAreEmpty(c, s.blocks)
    requires GenuineState(c, sent, s)
    ensures GenuineState(c, sent, Admit(c, s, num, tails))
  {
    var b := Oldest(s.blocks, c.buffers);
    if s.blocks[b].num != -1 {
      EvictGenuine(c, sent, s, b, tails);
      RenumberGenuine(c, sent, Evict(c, s, b, tails).blocks, b, num);
    } else {
      RenumberGenuine(c, sent, s.blocks, b, num);
    }
  }

  lemma StoreGenuine(c: Config, sent: Stream, s: RxState, num: nat, slot: nat, payload: seq<bv8>, left: seq<bv8>)
    requires c.Valid() && ShapedState(c, s) && IsStream(c, sent) && slot < c.Packets() && |left| == c.size
    requires GenuineState(c, sent, s)
    requires c.size <= |payload| && payload[..c.size] == PacketContent(c, sent(num), slot)
    ensures GenuineState(c, sent, Store(c, s, num, slot, payload, left))
  {}

  lemma StepGenuine(c: Config, sent: Stream, s: RxState, seqNr: nat, payload: seq<bv8>, left: Leftover)
    requires c.Valid() && ShapedState(c, s) && IsStream(c, sent) && |left.slot| == c.size && Tails(c, left.tails)
    requires UnusedAreEmpty(c, s.blocks) && GenuineState(c, sent, s) && GenuineInput(c, sent, seqNr, payload)
    ensures GenuineState(c, sent, Step(c, s, seqNr, payload, left))
  {
    var num := BlockNumber(c, seqNr);
    AdmittedGenuine(c, sent, s, num, left.tails);
    StoreGenuine(c, sent, Admitted(c, s, num, left.tails), num, Position(c, seqNr), payload, left.slot);
  }

  lemma AdmittedGenuine(c: Config, sent: Stream, s: RxState, num: nat, tails: seq<seq<bv8>>)
    requires c.Valid() && ShapedState(c, s) && IsStream(c, sent) && Tails(c, tails)
    requires UnusedAreEmpty(c, s.blocks) && GenuineState(c, sent, s)
    ensures GenuineState(c, sent, Admitted(c, s, num, tails))
  {
    if Restarts(c, s, num) {
      AdmitGenuine(c, sent, Restarted(c, s), num, tails);
    } else if num > s.maxBlockNum {
      AdmitGenuine(c, sent, s, num, tails);
    }
  }

  // ------------------------------------------------------------------ whole runs

  datatype Input = Input(seqNr: nat, payload: seq<bv8>, left: Leftover)

  ghost predicate Inputs(c: Config, ins: seq<Input>) {
    c.Valid() && forall i :: 0 <= i < |ins| ==> |ins[i].left.slot| == c.size && Tails(c, ins[i].left.tails)
  }

  ghost function Run(c: Config, ins: seq<Input>): (s: RxState)
    requires Inputs(c, ins)
    ensures ShapedState(c, s)
  {
    if ins == [] then InitialState(c)
    else
      var last := ins[|ins| - 1];
      Step(c, Run(c, ins[..|ins| - 1]), last.seqNr, last.payload, last.left)
  }

  // Every run, of any packets whatever: the window, the order of decoding and the counters
  lemma {:induction false} EveryRun(c: Config, ins: seq<Input>)
    requires Inputs(c, ins)
    ensures Window(c, Run(c, ins)) && Counted(c, Run(c, ins))
  {
    if ins != [] {
      var last := ins[|ins| - 1];
      EveryRun(c, ins[..|ins| - 1]);
      StepWindow(c, Run(c, ins[..|ins| - 1]), last.seqNr, last.payload, last.left);
      StepCounted(c, Run(c, ins[..|ins| - 1]), last.seqNr, last.payload, last.left);
    }
  }

  ghost predicate GenuineInputs(c: Config, sent: Stream, ins: seq<Input>)
    requires Inputs(c, ins) && IsStream(c, sent)
  {
    forall i :: 0 <= i < |ins| ==> GenuineInput(c, sent, ins[i].seqNr, ins[i].payload)
  }

  // Every run of genuine packets, lost, repeated or reordered in any way: what comes out is, block by block,
  // what was sent.
  lemma {:induction false} EveryGenuineRun(c: Config, sent: Stream, ins: seq<Input>)
    requires Inputs(c, ins) && IsStream(c, sent) && GenuineInputs(c, sent, ins)
    ensures GenuineState(c, sent, Run(c, ins))
  {
    if ins != [] {
      var last := ins[|ins| - 1];
      EveryGenuineRun(c, sent, ins[..|ins| - 1]);
      EveryRun(c, ins[..|ins| - 1]);
      StepGenuine(c, sent, Run(c, ins[..|ins| - 1]), last.seqNr, last.payload, last.left);
    }
  }

  // The payloads of the first n data packets of a block, and of the blocks below m
  ghost function BlockPayloads(c: Config, x: seq<Block>, n: nat): seq<bv8>
    requires c.Valid() && SentBlock(c, x) && n <= c.data
  {
    if n == 0 then [] else BlockPayloads(c, x, n - 1) + SentPayload(c, x[n - 1])
  }

  ghost function StreamPayloads(c: Config, sent: Stream, m: nat): seq<bv8>
    requires c.Valid() && IsStream(c, sent)
  {
    if m == 0 then [] else StreamPayloads(c, sent, m - 1) + BlockPayloads(c, sent(m - 1), c.data)
  }

  lemma {:induction false} RecoverableDeliversAll(c: Config, x: seq<Block>, packets: seq<PacketView>, n: nat)
    requires c.Valid() && SentBlock(c, x) && |packets| == c.Packets() && n <= c.data && Recoverable(c, packets)
    ensures Delivered(c, x, packets, n) == BlockPayloads(c, x, n)
  {
    if n > 0 { RecoverableDeliversAll(c, x, packets, n - 1); }
  }

  // Decoded blocks 0, 1, 2, ... without a gap, each with enough packets
  ghost predicate NothingLost(c: Config, es: seq<Eviction>)
    requires Complete(c, es)
  {
    forall i :: 0 <= i < |es| ==> es[i].num == i && Recoverable(c, es[i].packets)
  }

  lemma {:induction false} NothingLostDeliversStream(c: Config, sent: Stream, es: seq<Eviction>)
    requires c.Valid() && IsStream(c, sent) && Complete(c, es) && GenuineJournal(c, sent, es) && NothingLost(c, es)
    ensures DeliveredAll(c, sent, es) == StreamPayloads(c, sent, |es|)
  {
    if es != [] {
      NothingLostDeliversStream(c, sent, es[..|es| - 1]);
      RecoverableDeliversAll(c, sent(|es| - 1), es[|es| - 1].packets, c.data);
    }
  }
}
