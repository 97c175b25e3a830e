/** Which blocks the receiver holds, and which of their packets, told from the packets that arrive. */
module Arrivals {
  import opened Interleaving
  import opened BlockProtocol
  import opened BlockRuns

  ghost function Number(c: Config, x: Input): (n: nat)
    requires c.Valid()
  {
    BlockNumber(c, x.seqNr)
  }

  // ------------------------------------------------------------------ the blocks that get a buffer

  ghost function Highest(c: Config, ins: seq<Input>): (h: int)
    requires c.Valid()
    ensures h >= -1 && (forall i :: 0 <= i < |ins| ==> Number(c, ins[i]) <= h)
  {
    if ins == [] then -1
    else
      var h, n := Highest(c, ins[..|ins| - 1]), Number(c, ins[|ins| - 1]);
      assert forall i :: 0 <= i < |ins| - 1 ==> ins[i] == ins[..|ins| - 1][i];
      if h < n then n else h
  }

  lemma {:induction false} HighestBelow(c: Config, ins: seq<Input>, n: nat)
    requires c.Valid() && forall i :: 0 <= i < |ins| ==> Number(c, ins[i]) < n
    ensures Highest(c, ins) < n
  {
    if ins != [] {
      assert forall i :: 0 <= i < |ins| - 1 ==> ins[..|ins| - 1][i] == ins[i];
      HighestBelow(c, ins[..|ins| - 1], n);
    }
  }

  // A packet of block n arrived before any packet of a later block.
  ghost predicate Leads(c: Config, ins: seq<Input>, n: nat)
    requires c.Valid()
  {
    exists i :: 0 <= i < |ins| && Number(c, ins[i]) == n && Highest(c, ins[..i]) < n
  }

  // The blocks that lead, in the order of their first packets
  ghost function Leaders(c: Config, ins: seq<Input>): (r: seq<nat>)
    requires c.Valid()
    ensures forall p, q :: 0 <= p < q < |r| ==> r[p] < r[q]
    ensures Highest(c, ins) == if r == [] then -1 else r[|r| - 1]
  {
    if ins == [] then []
    else
      var r, n := Leaders(c, ins[..|ins| - 1]), Number(c, ins[|ins| - 1]);
      if Highest(c, ins[..|ins| - 1]) < n then r + [n] else r
  }

  lemma Prefixes(ins: seq<Input>, x: Input)
    ensures (ins + [x])[..|ins|] == ins
    ensures forall i :: 0 <= i <= |ins| ==> (ins + [x])[..i] == ins[..i]
  {}

  lemma LeadsNext(c: Config, ins: seq<Input>, x: Input, n: nat)
    requires c.Valid()
    ensures Leads(c, ins + [x], n) <==> Leads(c, ins, n) || (Number(c, x) == n && Highest(c, ins) < n)
  {
    var all := ins + [x];
    Prefixes(ins, x);
    if Leads(c, ins, n) {
      var i :| 0 <= i < |ins| && Number(c, ins[i]) == n && Highest(c, ins[..i]) < n;
      assert all[i] == ins[i];
    }
    if Number(c, x) == n && Highest(c, ins) < n { assert all[|ins|] == x; }
  }

  lemma {:induction false} LeadersLead(c: Config, ins: seq<Input>, n: nat)
    requires c.Valid()
    ensures n in Leaders(c, ins) <==> Leads(c, ins, n)
  {
    if ins != [] {
      var init, x := ins[..|ins| - 1], ins[|ins| - 1];
      assert ins == init + [x];
      LeadersLead(c, init, n);
      LeadsNext(c, init, x, n);
    }
  }

  // How many of n leaders have left the window, which the last of them fill
  ghost function Past(c: Config, n: nat): (m: nat)
    ensures m <= n
  {
    if n <= c.buffers then 0 else n - c.buffers
  }

  ghost function InWindow(c: Config, ins: seq<Input>): seq<nat>
    requires c.Valid()
  {
    Leaders(c, ins)[Past(c, |Leaders(c, ins)|)..]
  }

  // The packet at position k of block n arrived while the block was in the window.
  ghost predicate KeptAt(c: Config, ins: seq<Input>, n: nat, k: nat)
    requires c.Valid()
  {
    exists i :: 0 <= i < |ins| && Number(c, ins[i]) == n && Position(c, ins[i].seqNr) == k
      && n in InWindow(c, ins[..i + 1])
  }

  lemma KeptNext(c: Config, ins: seq<Input>, x: Input, n: nat, k: nat)
    requires c.Valid()
    ensures KeptAt(c, ins + [x], n, k) <==>
              KeptAt(c, ins, n, k) || (Number(c, x) == n && Position(c, x.seqNr) == k && n in InWindow(c, ins + [x]))
  {
    var all := ins + [x];
    Prefixes(ins, x);
    assert all[..|ins| + 1] == all;
    if KeptAt(c, ins, n, k) {
      var i :| 0 <= i < |ins| && Number(c, ins[i]) == n && Position(c, ins[i].seqNr) == k
        && n in InWindow(c, ins[..i + 1]);
      assert all[i] == ins[i] && all[..i + 1] == ins[..i + 1];
    }
    if KeptAt(c, all, n, k) {
      var i :| 0 <= i < |all| && Number(c, all[i]) == n && Position(c, all[i].seqNr) == k
        && n in InWindow(c, all[..i + 1]);
      if i < |ins| { assert all[i] == ins[i] && all[..i + 1] == ins[..i + 1]; }
    }
    if Number(c, x) == n && Position(c, x.seqNr) == k && n in InWindow(c, all) { assert all[|ins|] == x; }
  }

  // ------------------------------------------------------------------ taking turns

  // Blocks take the buffers in turn.
  ghost function Turn(c: Config, n: nat): (b: nat)
    requires c.Valid()
    ensures b < c.buffers
  {
    if n < c.buffers then n else Turn(c, n - c.buffers)
  }

  lemma {:induction false} TurnsDiffer(c: Config, a: nat, b: nat)
    requires c.Valid() && a < b < a + c.buffers
    ensures Turn(c, a) != Turn(c, b)
  {
    if a >= c.buffers { TurnsDiffer(c, a - c.buffers, b - c.buffers); }
  }

  // With entries 0 to max made, seat b holds the last of them whose turn it is, and -1 before the first.
  ghost predicate InTurn(c: Config, nums: seq<int>, max: int)
    requires c.Valid()
  {
    && |nums| == c.buffers && -1 <= max
    && (forall b :: 0 <= b < |nums| ==>
         if max < b then nums[b] == -1 else 0 <= nums[b] && max - c.buffers < nums[b] <= max && Turn(c, nums[b]) == b)
    && (forall n: nat :: max - c.buffers < n <= max ==> nums[Turn(c, n)] == n)
  }

  lemma {:induction false} OldestIsFirst(blocks: seq<BlockView>, n: nat)
    requires 0 < n <= |blocks|
    ensures forall b :: 0 <= b < Oldest(blocks, n) ==> blocks[Oldest(blocks, n)].num < blocks[b].num
  {
    OldestIsLeast(blocks, n);
    if n > 1 { OldestIsFirst(blocks, n - 1); OldestIsLeast(blocks, n - 1); }
  }

  lemma TakeTurn(c: Config, nums: seq<int>, max: int)
    requires c.Valid() && InTurn(c, nums, max)
    ensures InTurn(c, nums[Turn(c, max + 1) := max + 1], max + 1)
  {
    var nums', w, t := nums[Turn(c, max + 1) := max + 1], c.buffers, Turn(c, max + 1);
    forall n: nat | max + 1 - w < n <= max + 1 ensures nums'[Turn(c, n)] == n {
      if n <= max { TurnsDiffer(c, n, max + 1); }
    }
    forall b | 0 <= b < w && b != t ensures
      if max + 1 < b then nums'[b] == -1
      else 0 <= nums'[b] && max + 1 - w < nums'[b] <= max + 1 && Turn(c, nums'[b]) == b
    {
      if max + 1 >= w { assert nums[Turn(c, max + 1 - w)] == max + 1 - w; }
    }
  }

  // Which entry each seat holds after n of them
  ghost function Seats(c: Config, n: nat): (r: seq<int>)
    requires c.Valid()
    ensures |r| == c.buffers
  {
    if n == 0 then seq(c.buffers, i => -1) else Seats(c, n - 1)[Turn(c, n - 1) := n - 1]
  }

  lemma {:induction false} SeatsInTurn(c: Config, n: nat)
    requires c.Valid()
    ensures InTurn(c, Seats(c, n), n - 1)
  {
    if n > 0 { SeatsInTurn(c, n - 1); TakeTurn(c, Seats(c, n - 1), n - 2); }
  }

  lemma {:induction false} SeatsBelow(c: Config, n: nat)
    requires c.Valid()
    ensures forall b :: 0 <= b < c.buffers ==> -1 <= Seats(c, n)[b] < n
  {
    if n > 0 { SeatsBelow(c, n - 1); }
  }

  ghost function Entry(l: seq<nat>, p: int): int { if 0 <= p < |l| then l[p] else -1 }

  // Buffer b is in use for the leader on seat b.
  ghost predicate Seated(c: Config, l: seq<nat>, nums: seq<int>)
    requires c.Valid()
  {
    |nums| == c.buffers && forall b :: 0 <= b < |nums| ==> nums[b] == Entry(l, Seats(c, |l|)[b])
  }

  ghost predicate Ascending(l: seq<nat>) { forall p, q :: 0 <= p < q < |l| ==> l[p] < l[q] }

  // The seat whose turn it is has the smallest number, and is the first that has it.
  lemma TurnIsLeast(c: Config, l: seq<nat>, nums: seq<int>)
    requires c.Valid() && Ascending(l) && Seated(c, l, nums)
    ensures nums[Turn(c, |l|)] == Entry(l, |l| - c.buffers)
    ensures forall b :: 0 <= b < |nums| ==> nums[Turn(c, |l|)] <= nums[b]
    ensures forall b :: 0 <= b < Turn(c, |l|) ==> nums[Turn(c, |l|)] < nums[b]
  {
    var seats, n, w := Seats(c, |l|), |l|, c.buffers;
    SeatsInTurn(c, n);
    if n < w {
      assert seats[n] == -1;
    } else {
      assert seats[Turn(c, n - w)] == n - w && Turn(c, n) == Turn(c, n - w);
      forall b | 0 <= b < w && b != Turn(c, n) ensures nums[Turn(c, n)] < nums[b] {
        assert n - w <= seats[b] < n && Turn(c, seats[b]) == b;
      }
    }
  }

  lemma FirstLeastIsOldest(blocks: seq<BlockView>, nums: seq<int>, t: nat)
    requires t < |blocks| && nums == Numbers(blocks)
    requires forall b :: 0 <= b < |nums| ==> nums[t] <= nums[b]
    requires forall b :: 0 <= b < t ==> nums[t] < nums[b]
    ensures Oldest(blocks, |blocks|) == t
  {
    OldestIsLeast(blocks, |blocks|);
    OldestIsFirst(blocks, |blocks|);
    var b := Oldest(blocks, |blocks|);
    assert blocks[b].num == nums[b] && blocks[t].num == nums[t];
    assert !(t < b);
  }

  // The first buffer with the smallest number is the one whose turn it is.
  lemma OldestIsInTurn(c: Config, l: seq<nat>, blocks: seq<BlockView>, nums: seq<int>)
    requires c.Valid() && Ascending(l) && nums == Numbers(blocks) && Seated(c, l, nums)
    ensures |blocks| > 0 && Oldest(blocks, |blocks|) == Turn(c, |l|)
    ensures nums[Turn(c, |l|)] == Entry(l, |l| - c.buffers)
  {
    TurnIsLeast(c, l, nums);
    FirstLeastIsOldest(blocks, nums, Turn(c, |l|));
  }

  lemma NextSeated(c: Config, l: seq<nat>, nums: seq<int>, num: nat)
    requires c.Valid() && Seated(c, l, nums)
    ensures Seated(c, l + [num], nums[Turn(c, |l|) := num])
  {
    var nums', seats, seats', t := nums[Turn(c, |l|) := num], Seats(c, |l|), Seats(c, |l| + 1), Turn(c, |l|);
    SeatsBelow(c, |l|);
    assert seats' == seats[t := |l|];
    forall b | 0 <= b < |nums'| ensures nums'[b] == Entry(l + [num], seats'[b]) {
      if b != t { assert seats'[b] == seats[b]; }
    }
  }

  // The buffered blocks are the leaders in the window.
  lemma SeatedAreInWindow(c: Config, l: seq<nat>, nums: seq<int>, n: nat)
    requires c.Valid() && Seated(c, l, nums)
    ensures n in nums <==> n in l[Past(c, |l|)..]
  {
    var seats, m := Seats(c, |l|), Past(c, |l|);
    SeatsInTurn(c, |l|);
    if n in nums {
      var b :| 0 <= b < |nums| && nums[b] == n;
      assert l[m..][seats[b] - m] == n;
    }
    if n in l[m..] {
      var p :| m <= p < |l| && l[p] == n;
      assert seats[Turn(c, p)] == p;
      assert nums[Turn(c, p)] == n;
    }
  }

  // ------------------------------------------------------------------ what the state holds

  // The packets present are those that were kept.
  ghost predicate Holds(c: Config, ins: seq<Input>, n: nat, packets: seq<PacketView>)
    requires c.Valid()
  {
    |packets| == c.Packets() && forall k :: 0 <= k < |packets| ==> (packets[k].Present? <==> KeptAt(c, ins, n, k))
  }

  ghost predicate BlocksHold(c: Config, ins: seq<Input>, blocks: seq<BlockView>)
    requires c.Valid()
  {
    forall b :: 0 <= b < |blocks| && blocks[b].num >= 0 ==> Holds(c, ins, blocks[b].num, blocks[b].packets)
  }

  // Entry by entry, the journal has the first of the leaders, each with what was kept of it.
  ghost predicate JournalHolds(c: Config, ins: seq<Input>, l: seq<nat>, es: seq<Eviction>)
    requires c.Valid()
  {
    |es| <= |l| && forall i :: 0 <= i < |es| ==> es[i].num == l[i] && Holds(c, ins, l[i], es[i].packets)
  }

  // The journal since the last restart
  ghost function Journal(s: RxState): seq<Eviction>
    requires s.since <= |s.journal|
  {
    s.journal[s.since..]
  }

  // The last of the leaders l are buffered ...
  ghost predicate Standing(c: Config, l: seq<nat>, s: RxState)
    requires c.Valid()
  {
    Ascending(l) && s.maxBlockNum == Entry(l, |l| - 1) && Seated(c, l, Numbers(s.blocks)) && UnusedAreEmpty(c, s.blocks)
  }

  // ... and those before them have been decoded, each with what was kept of it.
  ghost predicate Recorded(c: Config, ins: seq<Input>, l: seq<nat>, s: RxState)
    requires c.Valid() && ShapedState(c, s)
  {
    BlocksHold(c, ins, s.blocks) && |Journal(s)| == Past(c, |l|) && JournalHolds(c, ins, l, Journal(s))
  }

  ghost predicate Tracked(c: Config, ins: seq<Input>, l: seq<nat>, s: RxState)
    requires c.Valid() && ShapedState(c, s)
  {
    Standing(c, l, s) && Recorded(c, ins, l, s)
  }

  // What admitting a block above all others does to the buffers and the journal
  lemma AdmitInTurn(c: Config, l: seq<nat>, s: RxState, num: nat, tails: seq<seq<bv8>>)
    requires c.Valid() && ShapedState(c, s) && Tails(c, tails) && Ascending(l) && Seated(c, l, Numbers(s.blocks))
    ensures var t, r := Turn(c, |l|), Admit(c, s, num, tails);
      && s.blocks[t].num == Entry(l, |l| - c.buffers) && Seated(c, l + [num], Numbers(r.blocks)) && r.since == s.since
      && r.maxBlockNum == num
      && if |l| >= c.buffers
         then r.blocks == s.blocks[t := EmptyBlock(c, num)]
              && r.journal == s.journal + [Eviction(s.blocks[t].num, s.blocks[t].packets)]
         else r.blocks == s.blocks[t := s.blocks[t].(num := num)] && r.journal == s.journal
  {
    OldestIsInTurn(c, l, s.blocks, Numbers(s.blocks));
    NextSeated(c, l, Numbers(s.blocks), num);
    assert Numbers(Admit(c, s, num, tails).blocks) == Numbers(s.blocks)[Turn(c, |l|) := num];
  }

  lemma NothingKept(c: Config, ins: seq<Input>, n: nat, packets: seq<PacketView>)
    requires c.Valid() && Highest(c, ins) < n && packets == EmptyBlock(c, n).packets
    ensures Holds(c, ins, n, packets)
  {}

  lemma AdmitStands(c: Config, l: seq<nat>, s: RxState, num: nat, tails: seq<seq<bv8>>)
    requires c.Valid() && ShapedState(c, s) && Tails(c, tails) && s.maxBlockNum < num && Standing(c, l, s)
    ensures Standing(c, l + [num], Admit(c, s, num, tails))
  {
    AdmitInTurn(c, l, s, num, tails);
    AdmitNumbers(c, s, num, tails, Oldest(s.blocks, c.buffers));
    AscendsTo(l, num);
  }

  lemma AscendsTo(l: seq<nat>, num: nat)
    requires Ascending(l) && Entry(l, |l| - 1) < num
    ensures Ascending(l + [num]) && Entry(l + [num], |l|) == num
  {}

  lemma AdmitBlocksHold(c: Config, ins: seq<Input>, l: seq<nat>, s: RxState, num: nat, tails: seq<seq<bv8>>)
    requires c.Valid() && ShapedState(c, s) && Tails(c, tails) && Highest(c, ins) < num && Tracked(c, ins, l, s)
    ensures BlocksHold(c, ins, Admit(c, s, num, tails).blocks)
  {
    AdmitInTurn(c, l, s, num, tails);
    NothingKept(c, ins, num, EmptyBlock(c, num).packets);
  }

  lemma JournalNext(c: Config, ins: seq<Input>, l: seq<nat>, es: seq<Eviction>, e: Eviction, num: nat,
                    es': seq<Eviction>)
    requires c.Valid() && JournalHolds(c, ins, l, es) && |es| == Past(c, |l|)
    requires es' == if |l| >= c.buffers then es + [e] else es
    requires |l| >= c.buffers ==> e.num == Entry(l, |l| - c.buffers) && Holds(c, ins, l[|l| - c.buffers], e.packets)
    ensures |es'| == Past(c, |l| + 1) && JournalHolds(c, ins, l + [num], es')
  {}

  lemma AdmitJournal(c: Config, l: seq<nat>, s: RxState, num: nat, tails: seq<seq<bv8>>, e: Eviction)
    requires c.Valid() && ShapedState(c, s) && Tails(c, tails) && Ascending(l) && Seated(c, l, Numbers(s.blocks))
    requires e == Eviction(s.blocks[Turn(c, |l|)].num, s.blocks[Turn(c, |l|)].packets)
    ensures e.num == Entry(l, |l| - c.buffers)
    ensures Journal(Admit(c, s, num, tails)) == if |l| >= c.buffers then Journal(s) + [e] else Journal(s)
  {
    AdmitInTurn(c, l, s, num, tails);
    assert (s.journal + [e])[s.since..] == s.journal[s.since..] + [e];
  }

  lemma AdmitRecords(c: Config, ins: seq<Input>, l: seq<nat>, s: RxState, num: nat, tails: seq<seq<bv8>>)
    requires c.Valid() && ShapedState(c, s) && Tails(c, tails) && Highest(c, ins) < num && Tracked(c, ins, l, s)
    ensures Recorded(c, ins, l + [num], Admit(c, s, num, tails))
  {
    var b := s.blocks[Turn(c, |l|)];
    AdmitBlocksHold(c, ins, l, s, num, tails);
    AdmitJournal(c, l, s, num, tails, Eviction(b.num, b.packets));
    JournalNext(c, ins, l, Journal(s), Eviction(b.num, b.packets), num, Journal(Admit(c, s, num, tails)));
  }

  lemma AdmitTracked(c: Config, ins: seq<Input>, l: seq<nat>, s: RxState, num: nat, tails: seq<seq<bv8>>)
    requires c.Valid() && ShapedState(c, s) && Tails(c, tails) && Highest(c, ins) < num && s.maxBlockNum < num
    requires Tracked(c, ins, l, s)
    ensures Tracked(c, ins, l + [num], Admit(c, s, num, tails))
  {
    AdmitStands(c, l, s, num, tails);
    AdmitRecords(c, ins, l, s, num, tails);
  }

  // x is one more packet, and l are the leaders with it.
  ghost predicate KeptWith(c: Config, ins: seq<Input>, x: Input, l: seq<nat>)
    requires c.Valid()
  {
    forall n: nat, k: nat :: KeptAt(c, ins + [x], n, k) <==>
      KeptAt(c, ins, n, k) || (Number(c, x) == n && Position(c, x.seqNr) == k && n in l[Past(c, |l|)..])
  }

  lemma HoldsUntouched(c: Config, ins: seq<Input>, x: Input, l: seq<nat>, n: nat, packets: seq<PacketView>)
    requires c.Valid() && KeptWith(c, ins, x, l) && Holds(c, ins, n, packets)
    requires Number(c, x) != n || n !in l[Past(c, |l|)..]
    ensures Holds(c, ins + [x], n, packets)
  {}

  lemma HoldsOneMore(c: Config, ins: seq<Input>, x: Input, l: seq<nat>, n: nat, packets: seq<PacketView>, p: PacketView)
    requires c.Valid() && KeptWith(c, ins, x, l) && Holds(c, ins, n, packets) && p.Present?
    requires Number(c, x) == n && n in l[Past(c, |l|)..]
    ensures Holds(c, ins + [x], n, packets[Position(c, x.seqNr) := p])
    ensures packets[Position(c, x.seqNr)].Present? ==> Holds(c, ins + [x], n, packets)
  {}

  // A packet of a buffered block goes to its place, and others are dropped.
  lemma StoreBlocksHold(c: Config, ins: seq<Input>, l: seq<nat>, s: RxState, x: Input)
    requires c.Valid() && ShapedState(c, s) && |x.left.slot| == c.size && KeptWith(c, ins, x, l)
    requires Seated(c, l, Numbers(s.blocks)) && BlocksHold(c, ins, s.blocks) && Ascending(l)
    ensures BlocksHold(c, ins + [x], Store(c, s, Number(c, x), Position(c, x.seqNr), x.payload, x.left.slot).blocks)
  {
    var num, slot := Number(c, x), Position(c, x.seqNr);
    var r := Store(c, s, num, slot, x.payload, x.left.slot);
    var f := Find(s.blocks, num, c.buffers);
    SeatedAreInWindow(c, l, Numbers(s.blocks), num);
    forall b | 0 <= b < c.buffers && r.blocks[b].num >= 0
      ensures Holds(c, ins + [x], r.blocks[b].num, r.blocks[b].packets)
    {
      assert Numbers(s.blocks)[b] == s.blocks[b].num == r.blocks[b].num;
      if b == f {
        HoldsOneMore(c, ins, x, l, num, s.blocks[b].packets, Present(Overwritten(x.left.slot, x.payload, c.size)));
      } else {
        if s.blocks[b].num == num { SeatsDiffer(c, l, Numbers(s.blocks), f, b); }
        HoldsUntouched(c, ins, x, l, r.blocks[b].num, r.blocks[b].packets);
      }
    }
  }

  // No block has two buffers.
  lemma SeatsDiffer(c: Config, l: seq<nat>, nums: seq<int>, a: nat, b: nat)
    requires c.Valid() && Ascending(l) && Seated(c, l, nums) && a < |nums| && b < |nums| && a != b && nums[a] >= 0
    ensures nums[a] != nums[b]
  {
    SeatsInTurn(c, |l|);
    assert Seats(c, |l|)[a] != Seats(c, |l|)[b];
  }

  lemma StoreTracked(c: Config, ins: seq<Input>, l: seq<nat>, s: RxState, x: Input)
    requires c.Valid() && ShapedState(c, s) && |x.left.slot| == c.size && KeptWith(c, ins, x, l)
             && Tracked(c, ins, l, s)
    ensures Tracked(c, ins + [x], l, Store(c, s, Number(c, x), Position(c, x.seqNr), x.payload, x.left.slot))
  {
    var es := Journal(s);
    StoreNumbers(c, s, Number(c, x), Position(c, x.seqNr), x.payload, x.left.slot);
    StoreBlocksHold(c, ins, l, s, x);
    forall i | 0 <= i < |es| ensures Holds(c, ins + [x], l[i], es[i].packets) {
      HoldsUntouched(c, ins, x, l, l[i], es[i].packets);
    }
  }

  // ------------------------------------------------------------------ whole runs

  // A packet so far below the highest block that it is taken for a restart of the transmitter
  ghost predicate TooLate(c: Config, ins: seq<Input>, x: Input)
    requires c.Valid()
  {
    Number(c, x) + 128 * c.buffers < Highest(c, ins)
  }

  // Where the last restart took place
  ghost function LastStart(c: Config, ins: seq<Input>): (r: nat)
    requires c.Valid()
    ensures r <= |ins| && (ins != [] ==> r < |ins|)
  {
    if ins == [] then 0
    else
      var init, x := ins[..|ins| - 1], ins[|ins| - 1];
      var r := LastStart(c, init);
      if TooLate(c, init[r..], x) then |init| else r
  }

  lemma KeptWithNext(c: Config, ins: seq<Input>, x: Input)
    requires c.Valid()
    ensures KeptWith(c, ins, x, Leaders(c, ins + [x]))
  {
    forall n: nat, k: nat ensures KeptAt(c, ins + [x], n, k) <==>
      KeptAt(c, ins, n, k) || (Number(c, x) == n && Position(c, x.seqNr) == k && n in InWindow(c, ins + [x]))
    {
      KeptNext(c, ins, x, n, k);
    }
  }

  lemma LeadersNext(c: Config, ins: seq<Input>, x: Input)
    requires c.Valid()
    ensures Leaders(c, ins + [x]) == if Highest(c, ins) < Number(c, x) then Leaders(c, ins) + [Number(c, x)]
            else Leaders(c, ins)
  {
    Prefixes(ins, x);
  }

  lemma StepTracked(c: Config, ins: seq<Input>, l: seq<nat>, l': seq<nat>, s: RxState, x: Input)
    requires c.Valid() && ShapedState(c, s) && |x.left.slot| == c.size && Tails(c, x.left.tails)
    requires Tracked(c, ins, l, s) && !Restarts(c, s, Number(c, x)) && s.maxBlockNum == Highest(c, ins)
    requires l' == (if s.maxBlockNum < Number(c, x) then l + [Number(c, x)] else l) && KeptWith(c, ins, x, l')
    ensures Tracked(c, ins + [x], l', Step(c, s, x.seqNr, x.payload, x.left))
  {
    if s.maxBlockNum < Number(c, x) { AdmitTracked(c, ins, l, s, Number(c, x), x.left.tails); }
    StoreTracked(c, ins, l', Admitted(c, s, Number(c, x), x.left.tails), x);
  }

  lemma NothingTracked(c: Config, s: RxState)
    requires c.Valid() && ShapedState(c, s) && s.blocks == UnusedBlocks(c) && s.since == |s.journal|
             && s.maxBlockNum == -1
    ensures Tracked(c, [], [], s)
  {}

  lemma RestartAdmits(c: Config, s: RxState, num: nat, tails: seq<seq<bv8>>)
    requires c.Valid() && ShapedState(c, s) && Tails(c, tails) && Restarts(c, s, num)
    ensures Tracked(c, [], [num], Admitted(c, s, num, tails))
  {
    var r := Restarted(c, s).(maxBlockNum := -1);
    NothingTracked(c, r);
    AdmitIgnoresMaximum(c, Restarted(c, s), num, tails);
    AdmitTracked(c, [], [], r, num, tails);
    assert [] + [num] == [num];
  }

  lemma RestartTracked(c: Config, s: RxState, x: Input)
    requires c.Valid() && ShapedState(c, s) && |x.left.slot| == c.size && Tails(c, x.left.tails)
    requires Restarts(c, s, Number(c, x))
    ensures Tracked(c, [x], Leaders(c, [x]), Step(c, s, x.seqNr, x.payload, x.left))
  {
    LeadersNext(c, [], x);
    KeptWithNext(c, [], x);
    assert [] + [x] == [x] && [] + [Number(c, x)] == [Number(c, x)];
    RestartAdmits(c, s, Number(c, x), x.left.tails);
    StoreTracked(c, [], [Number(c, x)], Admitted(c, s, Number(c, x), x.left.tails), x);
  }

  // The packets since the last restart
  ghost function Since(c: Config, ins: seq<Input>): seq<Input>
    requires c.Valid()
  {
    ins[LastStart(c, ins)..]
  }

  lemma SinceNext(c: Config, ins: seq<Input>, x: Input)
    requires c.Valid()
    ensures Since(c, ins + [x]) == if TooLate(c, Since(c, ins), x) then [x] else Since(c, ins) + [x]
  {
    Prefixes(ins, x);
    assert (ins + [x])[|ins|..] == [x];
    assert (ins + [x])[LastStart(c, ins)..] == ins[LastStart(c, ins)..] + [x];
  }

  lemma HighestIsLast(c: Config, ins: seq<Input>, s: RxState)
    requires c.Valid() && Standing(c, Leaders(c, ins), s)
    ensures s.maxBlockNum == Highest(c, ins)
  {}

  lemma LaterTracked(c: Config, now: seq<Input>, s: RxState, x: Input)
    requires c.Valid() && ShapedState(c, s) && |x.left.slot| == c.size && Tails(c, x.left.tails)
    requires Tracked(c, now, Leaders(c, now), s) && !Restarts(c, s, Number(c, x)) && s.maxBlockNum == Highest(c, now)
    ensures Tracked(c, now + [x], Leaders(c, now + [x]), Step(c, s, x.seqNr, x.payload, x.left))
  {
    LeadersNext(c, now, x);
    KeptWithNext(c, now, x);
    StepTracked(c, now, Leaders(c, now), Leaders(c, now + [x]), s, x);
  }

  lemma ArrivalNext(c: Config, now: seq<Input>, s: RxState, x: Input, now': seq<Input>)
    requires c.Valid() && ShapedState(c, s) && |x.left.slot| == c.size && Tails(c, x.left.tails)
    requires Tracked(c, now, Leaders(c, now), s)
    requires now' == if TooLate(c, now, x) then [x] else now + [x]
    ensures Tracked(c, now', Leaders(c, now'), Step(c, s, x.seqNr, x.payload, x.left))
  {
    HighestIsLast(c, now, s);
    if Restarts(c, s, Number(c, x)) { RestartTracked(c, s, x); } else { LaterTracked(c, now, s, x); }
  }

  // Every run, of any packets whatever: which blocks are buffered and which have been decoded, and the packets that
  // each of them has.
  lemma {:induction false} EveryArrival(c: Config, ins: seq<Input>)
    requires Inputs(c, ins)
    ensures Tracked(c, Since(c, ins), Leaders(c, Since(c, ins)), Run(c, ins))
  {
    if ins == [] {
      NothingTracked(c, InitialState(c));
    } else {
      var init, x := ins[..|ins| - 1], ins[|ins| - 1];
      assert ins == init + [x];
      EveryArrival(c, init);
      SinceNext(c, init, x);
      ArrivalNext(c, Since(c, init), Run(c, init), x, Since(c, ins));
    }
  }

  // Since the last restart, exactly the blocks of which a packet arrived before any packet of a later block have been
  // buffered or decoded.
  lemma KnownIffLeads(c: Config, ins: seq<Input>, n: nat)
    requires Inputs(c, ins)
    ensures n in Numbers(Run(c, ins).blocks) || n in Decoded(Run(c, ins)) <==> Leads(c, Since(c, ins), n)
  {
    var s, now := Run(c, ins), Since(c, ins);
    var l := Leaders(c, now);
    EveryArrival(c, ins);
    LeadersLead(c, now, n);
    SeatedAreInWindow(c, l, Numbers(s.blocks), n);
    DecodedAreFirst(c, now, l, s);
    InPartsOf(l, Past(c, |l|), n);
  }

  lemma DecodedAreFirst(c: Config, ins: seq<Input>, l: seq<nat>, s: RxState)
    requires c.Valid() && ShapedState(c, s) && Tracked(c, ins, l, s)
    ensures |Decoded(s)| <= |l| && forall i :: 0 <= i < |Decoded(s)| ==> Decoded(s)[i] == l[i]
  {
    forall i | 0 <= i < |Decoded(s)|
      ensures Decoded(s)[i] == l[i]
    {
      assert s.journal[s.since..][i] == s.journal[s.since + i];
    }
  }

  lemma InPartsOf(l: seq<nat>, m: nat, n: nat)
    requires m <= |l|
    ensures n in l <==> n in l[..m] || n in l[m..]
  {
    assert l == l[..m] + l[m..];
  }

  // A block whose first packet is overtaken by one of a later block is dropped.
  lemma OvertakenIsDropped(c: Config, x: Input, y: Input, n: nat)
    requires Inputs(c, [x] + [y]) && n == Number(c, y) < Number(c, x) <= n + 128 * c.buffers
    ensures n !in Numbers(Run(c, [x] + [y]).blocks) && n !in Decoded(Run(c, [x] + [y]))
  {
    OvertakenDoesNotLead(c, x, y);
    KnownIffLeads(c, [x] + [y], n);
  }

  lemma OvertakenDoesNotLead(c: Config, x: Input, y: Input)
    requires c.Valid() && Number(c, y) < Number(c, x) <= Number(c, y) + 128 * c.buffers
    ensures !Leads(c, Since(c, [x] + [y]), Number(c, y))
  {
    OnlyPacket(c, x);
    SinceNext(c, [x], y);
    LeadsNext(c, [x], y, Number(c, y));
  }

  lemma OnlyPacket(c: Config, x: Input)
    requires c.Valid()
    ensures Highest(c, [x]) == Number(c, x) && Since(c, [x]) == [x]
    ensures forall n: nat :: Leads(c, [x], n) ==> n == Number(c, x)
  {}
}
