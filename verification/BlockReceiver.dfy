/** process_payload over the packet buffers it works on, proved against the state machine. */
module BlockReceiver {
  import Memory
  import opened GaloisTables
  import opened ErasureCodeSpec
  import opened ErasureCode
  import opened Interleaving
  import opened Counters
  import opened BlockProtocol
  import opened PayloadHeader
  import opened BlockRuns

  class PacketBuffer {
    var valid: bool
    var crcCorrect: bool
    var len: nat
    const data: array<bv8>

    // A packet buffer as the state machine sees it
    ghost predicate Matches(v: PacketView, size: nat)
      reads this, data
    {
      && data.Length == MAX_PACKET_LENGTH && size <= MAX_PACKET_LENGTH && crcCorrect == valid
      && match v
         case Absent => !valid
         case Present(d) => valid && |d| == size && data[..size] == d
    }

    constructor ()
      ensures fresh(data) && data.Length == MAX_PACKET_LENGTH && !valid && !crcCorrect
    {
      valid, crcCorrect, len := false, false, 0;
      data := new bv8[MAX_PACKET_LENGTH](_ => 0);
    }

    method Clear()
      modifies this
      ensures !valid && !crcCorrect
    {
      valid := false;
      crcCorrect := false;
      len := 0;
    }

    // memcpy of a packet into the buffer
    method Fill(payload: seq<bv8>, size: nat) returns (ghost left: seq<bv8>)
      requires data.Length == MAX_PACKET_LENGTH && size <= MAX_PACKET_LENGTH && |payload| <= MAX_PACKET_LENGTH
      modifies this, data
      ensures left == old(data[..size]) && data[..] == payload + old(data[|payload|..]) && len == |payload|
      ensures |left| == size && Matches(Present(Overwritten(left, payload, size)), size)
    {
      left := data[..size];
      ghost var before := data[..];
      Memory.Copy(payload, data, 0);
      FilledIsOverwritten(before, data[..], payload, size);
      len := |payload|;
      valid := true;
      crcCorrect := true;
    }
  }

  lemma FilledIsOverwritten(before: seq<bv8>, after: seq<bv8>, payload: seq<bv8>, size: nat)
    requires size <= |before| && |payload| <= |before| && after == payload + before[|payload|..]
    ensures |after| == |before| && after[..size] == Overwritten(before[..size], payload, size)
  {}

  class BlockBuffer {
    var blockNum: int
    const packets: seq<PacketBuffer>
    ghost const arrays: set<object>
    ghost const repr: set<object>

    // Distinct packet buffers with distinct arrays
    ghost predicate Shape(c: Config) {
      && |packets| == c.Packets() && this in repr && this !in arrays && arrays <= repr
      && (forall k :: 0 <= k < |packets| ==> packets[k] in repr && packets[k].data in arrays && packets[k] !in arrays)
      && (forall i, j :: 0 <= i < j < |packets| ==> packets[i] != packets[j] && packets[i].data != packets[j].data)
    }

    ghost predicate Matches(v: BlockView, c: Config)
      reads repr
    {
      && Shape(c) && blockNum == v.num && |v.packets| == c.Packets()
      && forall k :: 0 <= k < |packets| ==> packets[k].Matches(v.packets[k], c.size)
    }

    constructor (c: Config)
      requires c.Valid()
      ensures fresh(repr) && Matches(EmptyBlock(c, -1), c)
    {
      var ps: seq<PacketBuffer> := [];
      ghost var buffers: set<object> := {};
      ghost var objects: set<object> := {};
      for i := 0 to c.Packets()
        invariant |ps| == i && fresh(buffers) && fresh(objects) && buffers !! objects
        invariant forall k :: 0 <= k < i ==>
                    ps[k] in objects && ps[k].data in buffers && !ps[k].valid && !ps[k].crcCorrect
        invariant forall k :: 0 <= k < i ==> ps[k].data.Length == MAX_PACKET_LENGTH
        invariant forall j, k :: 0 <= j < k < i ==> ps[j] != ps[k] && ps[j].data != ps[k].data
      {
        var p := new PacketBuffer();
        ps := ps + [p];
        objects, buffers := objects + {p}, buffers + {p.data};
      }
      packets := ps;
      blockNum := -1;
      arrays := buffers;
      repr := buffers + objects + {this};
    }

    // Clears the packets; the block number stays.
    method Clear(c: Config)
      requires Shape(c) && c.Valid() && forall k :: 0 <= k < |packets| ==> packets[k].data.Length == MAX_PACKET_LENGTH
      modifies packets
      ensures blockNum == old(blockNum) && Matches(EmptyBlock(c, blockNum), c)
    {
      for i := 0 to |packets|
        invariant forall k :: 0 <= k < i ==> !packets[k].valid && !packets[k].crcCorrect
      {
        packets[i].Clear();
      }
    }

    lemma FlagsAreValidity(c: Config, v: BlockView)
      requires c.Valid() && Matches(v, c)
      ensures forall i :: 0 <= i < c.data ==>
                DataSlot(c, i) < |packets| && MissingFlags(c, v.packets)[i] == !packets[DataSlot(c, i)].valid
      ensures forall j :: 0 <= j < c.fec ==>
                FecSlot(c, j) < |packets| && GoodFlags(c, v.packets)[j] == packets[FecSlot(c, j)].valid
    {
      forall i | 0 <= i < c.data
        ensures DataSlot(c, i) < |packets| && MissingFlags(c, v.packets)[i] == !packets[DataSlot(c, i)].valid
      {
        SlotFits(c, Data(i));
        assert packets[DataSlot(c, i)].Matches(v.packets[DataSlot(c, i)], c.size);
      }
      forall j | 0 <= j < c.fec
        ensures FecSlot(c, j) < |packets| && GoodFlags(c, v.packets)[j] == packets[FecSlot(c, j)].valid
      {
        SlotFits(c, Fec(j));
        assert packets[FecSlot(c, j)].Matches(v.packets[FecSlot(c, j)], c.size);
      }
    }

    // Positions of the slots in the order the packets were sent
    ghost predicate Order(c: Config, dataAt: seq<PacketBuffer>, fecAt: seq<PacketBuffer>) {
      && |packets| == c.Packets() && |dataAt| == c.data && |fecAt| == c.fec
      && (forall i :: 0 <= i < c.data ==> DataSlot(c, i) < |packets| && dataAt[i] == packets[DataSlot(c, i)])
      && (forall j :: 0 <= j < c.fec ==> FecSlot(c, j) < |packets| && fecAt[j] == packets[FecSlot(c, j)])
    }

    // The slots as data and as FEC packets, walked in the order they were sent
    method Split(c: Config, ghost dataAt: seq<PacketBuffer>, ghost fecAt: seq<PacketBuffer>, ghost noData: seq<bool>,
                 ghost noFec: seq<bool>)
      returns (dataPkgs: seq<PacketBuffer>, fecPkgs: seq<PacketBuffer>, datasMissing: nat, fecsMissing: nat)
      requires Order(c, dataAt, fecAt) && AreAbsent(dataAt, noData) && AreAbsent(fecAt, noFec)
      ensures dataPkgs == dataAt && fecPkgs == fecAt
      ensures datasMissing == |Select(noData, c.data)| && fecsMissing == |Select(noFec, c.fec)|
    {
      dataPkgs, fecPkgs, datasMissing, fecsMissing := [], [], 0, 0;
      var i, di, fi := 0, 0, 0;
      while di < c.data || fi < c.fec
        invariant i == di + fi && InStep(c, di, fi)
        invariant dataPkgs == dataAt[..di] && fecPkgs == fecAt[..fi]
        invariant datasMissing == |Select(noData, di)| && fecsMissing == |Select(noFec, fi)|
        decreases c.data - di + c.fec - fi
      {
        SlotsInStep(c, di, fi);
        if di < c.data {
          dataPkgs, datasMissing := Take(packets[i], dataPkgs, datasMissing, dataAt, noData, di);
          i, di := i + 1, di + 1;
        }
        if fi < c.fec {
          fecPkgs, fecsMissing := Take(packets[i], fecPkgs, fecsMissing, fecAt, noFec, fi);
          i, fi := i + 1, fi + 1;
        }
      }
    }
  }

  ghost predicate AreAbsent(pkgs: seq<PacketBuffer>, absent: seq<bool>)
    reads pkgs
  {
    |pkgs| == |absent| && forall i :: 0 <= i < |pkgs| ==> absent[i] == !pkgs[i].valid
  }

  method Take(pkg: PacketBuffer, taken: seq<PacketBuffer>, missing: nat, ghost all: seq<PacketBuffer>,
              ghost absent: seq<bool>, ghost n: nat)
    returns (taken': seq<PacketBuffer>, missing': nat)
    requires AreAbsent(all, absent) && n < |all| && pkg == all[n] && taken == all[..n] && missing == |Select(absent, n)|
    ensures taken' == all[..n + 1] && missing' == |Select(absent, n + 1)|
  {
    taken' := taken + [pkg];
    missing' := if !pkg.valid then missing + 1 else missing;
  }

  lemma {:induction false} SelectComplement(flags: seq<bool>, other: seq<bool>, n: nat)
    requires n <= |flags| == |other| && forall i :: 0 <= i < n ==> flags[i] == !other[i]
    ensures |Select(flags, n)| == n - |Select(other, n)|
  {
    if n > 0 { SelectComplement(flags, other, n - 1); }
  }

  // Replaces missing data packets by FEC packets, in order, while both remain.
  method Pair(c: Config, dataPkgs: seq<PacketBuffer>, fecPkgs: seq<PacketBuffer>, ghost missing: seq<bool>,
              ghost good: seq<bool>)
    returns (erased: seq<nat>, nos: seq<nat>)
    requires |dataPkgs| == |missing| == c.data && |fecPkgs| == |good| == c.fec
    requires forall i :: 0 <= i < c.data ==> dataPkgs[i].valid == dataPkgs[i].crcCorrect == !missing[i]
    requires forall j :: 0 <= j < c.fec ==> fecPkgs[j].valid == good[j]
    ensures |erased| == |nos| == Min(|Select(missing, c.data)|, |Select(good, c.fec)|)
    ensures erased == Select(missing, c.data)[..|erased|] && nos == Select(good, c.fec)[..|nos|]
  {
    erased, nos := [], [];
    var di, fi := 0, 0;
    while di < c.data && fi < c.fec
      invariant di <= c.data && fi <= c.fec
      invariant erased == Select(missing, di) && nos == Select(good, fi) && |erased| == |nos|
      decreases c.data - di + c.fec - fi
    {
      if dataPkgs[di].valid && dataPkgs[di].crcCorrect {
        di := di + 1;
      } else if !fecPkgs[fi].valid {
        fi := fi + 1;
      } else {
        erased, nos := erased + [di], nos + [fi];
        di, fi := di + 1, fi + 1;
      }
    }
    SelectGrows(missing, di, c.data);
    SelectGrows(good, fi, c.fec);
  }

  lemma {:induction false} SelectGrows(flags: seq<bool>, m: nat, n: nat)
    requires m <= n <= |flags|
    ensures Select(flags, m) <= Select(flags, n)
  {
    if m < n { SelectGrows(flags, m, n - 1); }
  }

  // ------------------------------------------------------------------ decoding one block

  ghost predicate Apart(pkgs: seq<PacketBuffer>) {
    forall i, j :: 0 <= i < j < |pkgs| ==> pkgs[i] != pkgs[j] && pkgs[i].data != pkgs[j].data
  }

  function Arrays(pkgs: seq<PacketBuffer>): (r: seq<array<bv8>>)
    ensures |r| == |pkgs| && forall i :: 0 <= i < |pkgs| ==> r[i] == pkgs[i].data
  {
    seq(|pkgs|, i requires 0 <= i < |pkgs| => pkgs[i].data)
  }

  // The bytes written for the first n data packets, given what their buffers hold after decoding
  ghost function Emitted(c: Config, x: seq<seq<bv8>>, keep: seq<bool>, n: nat): seq<bv8>
    requires c.Valid() && |x| == |keep| == c.data && n <= c.data
             && forall i :: 0 <= i < c.data ==> |x[i]| == MAX_PACKET_LENGTH
  {
    if n == 0 then [] else Emitted(c, x, keep, n - 1) + Chunk(c, x[n - 1], keep[n - 1])
  }

  // The buffers from the i-th on still hold what decoding left in them.
  ghost predicate Intact(arrays: seq<array<bv8>>, x: seq<seq<bv8>>, i: nat)
    reads arrays
  {
    |arrays| == |x| && forall k :: i <= k < |x| ==> |x[k]| == MAX_PACKET_LENGTH && arrays[k][..] == x[k]
  }

  method WriteOne(c: Config, arrays: seq<array<bv8>>, i: nat, kept: bool, ghost x: seq<seq<bv8>>)
    returns (chunk: seq<bv8>)
    requires c.Valid() && Intact(arrays, x, i) && i < |x| && forall k :: i < k < |arrays| ==> arrays[k] != arrays[i]
    modifies arrays[i]
    ensures chunk == Chunk(c, x[i], kept) && Intact(arrays, x, i + 1)
  {
    chunk := WriteIfKept(c, arrays[i], kept, x[i]);
  }

  // Which packets are to be written
  ghost predicate ToWrite(dataPkgs: seq<PacketBuffer>, failed: bool, keep: seq<bool>)
    reads dataPkgs
  {
    |keep| == |dataPkgs| && forall i :: 0 <= i < |keep| ==> keep[i] == (!failed || dataPkgs[i].valid)
  }

  // The first i packets have been written.
  ghost predicate WrittenUpto(c: Config, arrays: seq<array<bv8>>, x: seq<seq<bv8>>, keep: seq<bool>, i: nat,
                              bytes: seq<bv8>)
    reads arrays
  {
    && c.Valid() && |x| == |keep| == c.data && i <= c.data && Intact(arrays, x, i)
    && (forall k :: 0 <= k < c.data ==> |x[k]| == MAX_PACKET_LENGTH) && bytes == Emitted(c, x, keep, i)
  }

  method WriteNext(c: Config, dataPkgs: seq<PacketBuffer>, failed: bool, i: nat, bytes: seq<bv8>,
                   ghost x: seq<seq<bv8>>, ghost keep: seq<bool>)
    returns (bytes': seq<bv8>)
    requires WrittenUpto(c, Arrays(dataPkgs), x, keep, i, bytes) && i < c.data && Apart(dataPkgs)
    requires ToWrite(dataPkgs, failed, keep)
    modifies dataPkgs[i].data
    ensures WrittenUpto(c, Arrays(dataPkgs), x, keep, i + 1, bytes')
  {
    var chunk := WriteOne(c, Arrays(dataPkgs), i, !failed || dataPkgs[i].valid, x);
    bytes' := bytes + chunk;
  }

  method WriteData(c: Config, dataPkgs: seq<PacketBuffer>, failed: bool, ghost x: seq<seq<bv8>>, ghost keep: seq<bool>)
    returns (bytes: seq<bv8>)
    requires c.Valid() && |dataPkgs| == |x| == |keep| == c.data && Apart(dataPkgs)
    requires forall i :: 0 <= i < c.data ==> |x[i]| == MAX_PACKET_LENGTH && dataPkgs[i].data[..] == x[i]
    requires ToWrite(dataPkgs, failed, keep)
    modifies Arrays(dataPkgs)
    ensures bytes == Emitted(c, x, keep, c.data)
  {
    bytes := [];
    for i := 0 to c.data
      invariant WrittenUpto(c, Arrays(dataPkgs), x, keep, i, bytes)
    {
      bytes := WriteNext(c, dataPkgs, failed, i, bytes, x, keep);
    }
  }

  method WriteIfKept(c: Config, a: array<bv8>, kept: bool, ghost x: seq<bv8>) returns (chunk: seq<bv8>)
    requires c.Valid() && a.Length == MAX_PACKET_LENGTH && a[..] == x
    modifies a
    ensures chunk == Chunk(c, x, kept)
  {
    chunk := [];
    if kept {
      chunk := WriteBlock(c, a, x);
    }
  }

  method WriteBlock(c: Config, a: array<bv8>, ghost x: seq<bv8>) returns (chunk: seq<bv8>)
    requires c.Valid() && a.Length == MAX_PACKET_LENGTH && a[..] == x
    modifies a
    ensures chunk == Payload(c, x[..c.size], x[c.size..c.size + PAYLOAD_HEADER])
  {
    var length := ReadLength(a);
    HeaderLengthNonnegative(x);
    if length > c.size {
      WriteLength(a, c.size);
      length := c.size;
    }
    chunk := a[PAYLOAD_HEADER..][..length];
    PayloadOfBuffer(c, x);
  }

  lemma PayloadOfBuffer(c: Config, x: seq<bv8>)
    requires c.Valid() && |x| == MAX_PACKET_LENGTH
    ensures HeaderLength(x) >= 0
    ensures x[PAYLOAD_HEADER..][..Min(HeaderLength(x), c.size)] ==
            Payload(c, x[..c.size], x[c.size..c.size + PAYLOAD_HEADER])
  {
    var b, tail := x[..c.size], x[c.size..c.size + PAYLOAD_HEADER];
    HeaderLengthNonnegative(x);
    HeaderLengthNonnegative(b);
    assert HeaderLength(b) == HeaderLength(x);
    var n := Min(HeaderLength(x), c.size);
    assert b + tail == x[..c.size + PAYLOAD_HEADER];
    assert x[PAYLOAD_HEADER..][..n] == x[PAYLOAD_HEADER..PAYLOAD_HEADER + n];
    assert x[..c.size + PAYLOAD_HEADER][PAYLOAD_HEADER..PAYLOAD_HEADER + n] == x[PAYLOAD_HEADER..PAYLOAD_HEADER + n];
  }

  // What is written for one data packet
  ghost function Chunk(c: Config, x: seq<bv8>, keep: bool): seq<bv8>
    requires c.Valid() && |x| == MAX_PACKET_LENGTH
  {
    if keep then Payload(c, x[..c.size], x[c.size..c.size + PAYLOAD_HEADER]) else []
  }

  lemma {:induction false} EmittedIsWritten(c: Config, packets: seq<PacketView>, x: seq<seq<bv8>>, keep: seq<bool>,
                                            tails: seq<seq<bv8>>, n: nat)
    requires c.Valid() && Shaped(c, packets) && |x| == |keep| == c.data && Tails(c, tails) && n <= c.data
    requires forall i :: 0 <= i < c.data ==> |x[i]| == MAX_PACKET_LENGTH
    requires forall i :: 0 <= i < c.data ==> Chunk(c, x[i], keep[i]) == WrittenFor(c, packets, tails, i)
    ensures Emitted(c, x, keep, n) == Written(c, packets, tails, n)
  {
    if n > 0 { EmittedIsWritten(c, packets, x, keep, tails, n - 1); }
  }

  lemma ChunkIsWrittenFor(c: Config, packets: seq<PacketView>, x: seq<bv8>, keep: bool, tails: seq<seq<bv8>>, i: nat)
    requires c.Valid() && Shaped(c, packets) && Tails(c, tails) && i < c.data
    requires |x| == MAX_PACKET_LENGTH && tails[i] == x[c.size..c.size + PAYLOAD_HEADER]
    requires keep == (Recoverable(c, packets) || !MissingFlags(c, packets)[i])
    requires Recoverable(c, packets) ==>
      var r := Recovery(c, packets); |r| == c.data && Sized(r, c.size) && x[..c.size] == r[i]
    requires !Recoverable(c, packets) && !MissingFlags(c, packets)[i] ==>
      DataSlot(c, i) < |packets| && packets[DataSlot(c, i)] == Present(x[..c.size])
    ensures Chunk(c, x, keep) == WrittenFor(c, packets, tails, i)
  {
    SlotFits(c, Data(i));
  }

  // The FEC blocks chosen for the erased data blocks, as seen by the state machine
  ghost predicate Chosen(c: Config, packets: seq<PacketView>, f: seq<Block>, nos: seq<nat>)
    requires Shaped(c, packets)
  {
    |f| == |nos| && forall k :: 0 <= k < |nos| ==>
      nos[k] < c.fec && FecSlot(c, nos[k]) < |packets| && packets[FecSlot(c, nos[k])] == Present(f[k])
  }

  // When every missing block was erased, what the decoder leaves is the recovery.
  lemma DecodedIsRecovery(c: Config, packets: seq<PacketView>, x: seq<Block>, d: seq<Block>, f: seq<Block>,
                          nos: seq<nat>, erased: seq<nat>)
    requires c.Valid() && Shaped(c, packets) && Recoverable(c, packets)
    requires erased == Missing(c, packets) && nos == Good(c, packets)[..|erased|]
    requires |d| == c.data && Received(x, d, f, c.size, nos, erased) && Chosen(c, packets, f, nos)
    requires forall i :: 0 <= i < c.data && !MissingFlags(c, packets)[i] ==>
      DataSlot(c, i) < |packets| && packets[DataSlot(c, i)] == Present(d[i])
    ensures Recovery(c, packets) == x
  {
    SelectIsOrdered(MissingFlags(c, packets), c.data);
    forall i | 0 <= i < c.data && !MissingFlags(c, packets)[i] ensures x[i] == packets[DataSlot(c, i)].data {
      assert i !in erased;
    }
    forall k | 0 <= k < |erased| ensures FecUsed(c, packets, x, Good(c, packets)[k]) {
      assert nos[k] == Good(c, packets)[k];
      assert f[k] == ParityBlock(x, nos[k], c.size);
    }
    assert IsRecovery(c, packets, x);
    RecoveryUnique(c, packets, x);
  }

  ghost predicate EachMatches(pkgs: seq<PacketBuffer>, views: seq<PacketView>, size: nat)
    reads pkgs, Arrays(pkgs)
  {
    |pkgs| == |views| &&
    forall i :: 0 <= i < |pkgs| ==>
      pkgs[i] in pkgs && Arrays(pkgs)[i] in Arrays(pkgs) && pkgs[i].Matches(views[i], size)
  }

  // The packets of a block as data and as FEC packets
  ghost function DataViews(c: Config, packets: seq<PacketView>): (r: seq<PacketView>)
    requires |packets| == c.Packets()
    ensures |r| == c.data && forall i :: 0 <= i < c.data ==>
              DataSlot(c, i) < |packets| && r[i] == packets[DataSlot(c, i)]
  {
    seq(c.data, i requires 0 <= i < c.data => SlotFits(c, Data(i)); packets[DataSlot(c, i)])
  }

  ghost function FecViews(c: Config, packets: seq<PacketView>): (r: seq<PacketView>)
    requires |packets| == c.Packets()
    ensures |r| == c.fec && forall j :: 0 <= j < c.fec ==> FecSlot(c, j) < |packets| && r[j] == packets[FecSlot(c, j)]
  {
    seq(c.fec, j requires 0 <= j < c.fec => SlotFits(c, Fec(j)); packets[FecSlot(c, j)])
  }

  lemma PickedChosen(c: Config, packets: seq<PacketView>, fecPkgs: seq<PacketBuffer>, nos: seq<nat>)
    requires Shaped(c, packets) && EachMatches(fecPkgs, FecViews(c, packets), c.size)
    requires forall k :: 0 <= k < |nos| ==> nos[k] < c.fec && GoodFlags(c, packets)[nos[k]]
    requires Fits(Pick(Arrays(fecPkgs), nos), c.size)
    ensures Chosen(c, packets, Contents(Pick(Arrays(fecPkgs), nos), c.size), nos)
  {
    forall k | 0 <= k < |nos|
      ensures packets[FecSlot(c, nos[k])] == Present(Contents(Pick(Arrays(fecPkgs), nos), c.size)[k])
    {
      assert fecPkgs[nos[k]].Matches(FecViews(c, packets)[nos[k]], c.size);
    }
  }

  // The erased data blocks and the FEC blocks that stand in for them
  ghost predicate Choice(c: Config, packets: seq<PacketView>, erased: seq<nat>, nos: seq<nat>)
    requires |packets| == c.Packets()
  {
    && |erased| == |nos| && Erasures(erased, c.data)
    && (forall i :: 0 <= i < |erased| ==> erased[i] < c.data && MissingFlags(c, packets)[erased[i]])
    && (forall k :: 0 <= k < |nos| ==> nos[k] < c.fec && GoodFlags(c, packets)[nos[k]])
    && (forall i, k :: 0 <= i < k < |nos| ==> nos[i] < nos[k])
    && (Recoverable(c, packets) ==> erased == Missing(c, packets) && nos == Good(c, packets)[..|erased|])
  }

  method Choose(c: Config, dataPkgs: seq<PacketBuffer>, fecPkgs: seq<PacketBuffer>, ghost packets: seq<PacketView>)
    returns (erased: seq<nat>, nos: seq<nat>)
    requires Shaped(c, packets)
    requires EachMatches(dataPkgs, DataViews(c, packets), c.size) && EachMatches(fecPkgs, FecViews(c, packets), c.size)
    ensures Choice(c, packets, erased, nos)
  {
    FlagsMatch(c, packets, dataPkgs, fecPkgs);
    erased, nos := Pair(c, dataPkgs, fecPkgs, MissingFlags(c, packets), GoodFlags(c, packets));
    PrefixesAreChoice(c, packets, erased, nos);
  }

  lemma PrefixesAreChoice(c: Config, packets: seq<PacketView>, erased: seq<nat>, nos: seq<nat>)
    requires |packets| == c.Packets()
    requires |erased| == |nos| == Min(|Missing(c, packets)|, |Good(c, packets)|)
    requires erased == Missing(c, packets)[..|erased|] && nos == Good(c, packets)[..|nos|]
    ensures Choice(c, packets, erased, nos)
  {
    SelectIsOrdered(MissingFlags(c, packets), c.data); SelectIsOrdered(GoodFlags(c, packets), c.fec);
  }

  // Pairs erasures with FEC packets and decodes.
  method Repair(c: Config, t: Tables, dataPkgs: seq<PacketBuffer>, fecPkgs: seq<PacketBuffer>,
                ghost packets: seq<PacketView>)
    returns (ghost x: seq<seq<bv8>>)
    requires c.Valid() && t.Valid() && Shaped(c, packets)
    requires EachMatches(dataPkgs, DataViews(c, packets), c.size) && EachMatches(fecPkgs, FecViews(c, packets), c.size)
    requires Buffers(t, Arrays(dataPkgs), Arrays(fecPkgs), MAX_PACKET_LENGTH)
    modifies Arrays(dataPkgs), Arrays(fecPkgs)
    ensures Repaired(c, packets, x) && forall i :: 0 <= i < c.data ==> dataPkgs[i].data[..] == x[i]
  {
    var erased, nos := Choose(c, dataPkgs, fecPkgs, packets);
    ReadyToRepair(c, t, dataPkgs, fecPkgs, packets, erased, nos);
    x := DecodeArrays(c, t, Arrays(dataPkgs), Pick(Arrays(fecPkgs), nos), nos, erased, packets);
  }

  // The buffers are as the decoder needs them.
  lemma ReadyToRepair(c: Config, t: Tables, dataPkgs: seq<PacketBuffer>, fecPkgs: seq<PacketBuffer>,
                      packets: seq<PacketView>, erased: seq<nat>, nos: seq<nat>)
    requires c.Valid() && t.Valid() && Shaped(c, packets) && Choice(c, packets, erased, nos)
    requires EachMatches(dataPkgs, DataViews(c, packets), c.size) && EachMatches(fecPkgs, FecViews(c, packets), c.size)
    requires Buffers(t, Arrays(dataPkgs), Arrays(fecPkgs), MAX_PACKET_LENGTH)
    ensures var data, chosen := Arrays(dataPkgs), Pick(Arrays(fecPkgs), nos);
            && |data| == c.data && Buffers(t, data, chosen, c.size) && Chosen(c, packets, Contents(chosen, c.size), nos)
            && (forall i :: 0 <= i < |data| ==> data[i].Length == MAX_PACKET_LENGTH)
            && forall i :: 0 <= i < c.data && !MissingFlags(c, packets)[i] ==>
                 DataSlot(c, i) < |packets| && packets[DataSlot(c, i)] == Present(data[i][..c.size])
  {
    PickedBuffers(t, Arrays(dataPkgs), Arrays(fecPkgs), MAX_PACKET_LENGTH, c.size, nos);
    PickedChosen(c, packets, fecPkgs, nos);
    FlagsMatch(c, packets, dataPkgs, fecPkgs);
  }

  method DecodeArrays(c: Config, t: Tables, data: seq<array<bv8>>, chosen: seq<array<bv8>>, nos: seq<nat>,
                      erased: seq<nat>, ghost packets: seq<PacketView>)
    returns (ghost x: seq<seq<bv8>>)
    requires c.Valid() && t.Valid() && Shaped(c, packets) && Choice(c, packets, erased, nos)
    requires |data| == c.data && Buffers(t, data, chosen, c.size)
    requires forall i :: 0 <= i < |data| ==> data[i].Length == MAX_PACKET_LENGTH
    requires Chosen(c, packets, Contents(chosen, c.size), nos)
    requires forall i :: 0 <= i < c.data && !MissingFlags(c, packets)[i] ==>
               DataSlot(c, i) < |packets| && packets[DataSlot(c, i)] == Present(data[i][..c.size])
    modifies data, chosen
    ensures Repaired(c, packets, x) && forall i :: 0 <= i < c.data ==> data[i][..] == x[i]
  {
    ghost var d, f := Contents(data, c.size), Contents(chosen, c.size);
    FecDecode(t, c.size, data, chosen, nos, erased);
    x := Contents(data, MAX_PACKET_LENGTH);
    DecodedIsRepaired(c, packets, x, Contents(data, c.size), d, f, nos, erased);
  }

  lemma DecodedIsRepaired(c: Config, packets: seq<PacketView>, x: seq<seq<bv8>>, y: seq<Block>, d: seq<Block>,
                          f: seq<Block>, nos: seq<nat>, erased: seq<nat>)
    requires c.Valid() && Shaped(c, packets) && Choice(c, packets, erased, nos) && Chosen(c, packets, f, nos)
    requires |x| == |y| == |d| == c.data
             && (forall i :: 0 <= i < c.data ==> |x[i]| == MAX_PACKET_LENGTH && y[i] == x[i][..c.size])
    requires Received(y, d, f, c.size, nos, erased)
    requires forall i :: 0 <= i < c.data && !MissingFlags(c, packets)[i] ==>
               DataSlot(c, i) < |packets| && packets[DataSlot(c, i)] == Present(d[i])
    ensures Repaired(c, packets, x)
  {
    if Recoverable(c, packets) {
      DecodedIsRecovery(c, packets, y, d, f, nos, erased);
    }
    forall i | 0 <= i < c.data && !MissingFlags(c, packets)[i]
      ensures DataViews(c, packets)[i] == Present(x[i][..c.size])
    {
      assert i !in erased;
      assert DataViews(c, packets)[i] == packets[DataSlot(c, i)];
    }
  }

  lemma FlagsMatch(c: Config, packets: seq<PacketView>, dataPkgs: seq<PacketBuffer>, fecPkgs: seq<PacketBuffer>)
    requires Shaped(c, packets)
    requires EachMatches(dataPkgs, DataViews(c, packets), c.size) && EachMatches(fecPkgs, FecViews(c, packets), c.size)
    ensures forall i :: 0 <= i < c.data ==> dataPkgs[i].valid == dataPkgs[i].crcCorrect == !MissingFlags(c, packets)[i]
    ensures forall i :: 0 <= i < c.data && !MissingFlags(c, packets)[i] ==>
              DataSlot(c, i) < |packets| && dataPkgs[i].data.Length >= c.size
              && packets[DataSlot(c, i)] == Present(dataPkgs[i].data[..c.size])
    ensures forall j :: 0 <= j < c.fec ==> fecPkgs[j].valid == GoodFlags(c, packets)[j]
  {
    forall i | 0 <= i < c.data ensures dataPkgs[i].Matches(packets[DataSlot(c, i)], c.size) {
      assert DataViews(c, packets)[i] == packets[DataSlot(c, i)];
    }
    forall j | 0 <= j < c.fec ensures fecPkgs[j].Matches(packets[FecSlot(c, j)], c.size) {
      assert FecViews(c, packets)[j] == packets[FecSlot(c, j)];
    }
  }

  ghost function DataAt(bb: BlockBuffer, c: Config): (r: seq<PacketBuffer>)
    requires |bb.packets| == c.Packets()
    ensures |r| == c.data && forall i :: 0 <= i < c.data ==>
              DataSlot(c, i) < |bb.packets| && r[i] == bb.packets[DataSlot(c, i)]
  {
    seq(c.data, i requires 0 <= i < c.data => SlotFits(c, Data(i)); bb.packets[DataSlot(c, i)])
  }

  ghost function FecAt(bb: BlockBuffer, c: Config): (r: seq<PacketBuffer>)
    requires |bb.packets| == c.Packets()
    ensures |r| == c.fec && forall j :: 0 <= j < c.fec ==>
              FecSlot(c, j) < |bb.packets| && r[j] == bb.packets[FecSlot(c, j)]
  {
    seq(c.fec, j requires 0 <= j < c.fec => SlotFits(c, Fec(j)); bb.packets[FecSlot(c, j)])
  }

  // No table is used as a packet buffer.
  ghost predicate OffTables(bb: BlockBuffer, t: Tables) {
    forall k :: 0 <= k < |bb.packets| ==> bb.packets[k].data !in t.Arrays()
  }

  lemma SlotsDiffer(c: Config, r: Role, q: Role)
    requires HasRole(c, r) && HasRole(c, q) && r != q
    ensures SlotOf(c, r) < c.Packets() && SlotOf(c, q) < c.Packets() && SlotOf(c, r) != SlotOf(c, q)
  {}

  lemma OrderedBuffers(bb: BlockBuffer, c: Config, t: Tables)
    requires bb.Shape(c) && OffTables(bb, t)
             && forall k :: 0 <= k < |bb.packets| ==> bb.packets[k].data.Length == MAX_PACKET_LENGTH
    ensures Buffers(t, Arrays(DataAt(bb, c)), Arrays(FecAt(bb, c)), MAX_PACKET_LENGTH) && Apart(DataAt(bb, c))
  {
    forall i, j | 0 <= i < j < c.data
      ensures DataAt(bb, c)[i] != DataAt(bb, c)[j] && DataAt(bb, c)[i].data != DataAt(bb, c)[j].data
    {
      SlotsDiffer(c, Data(i), Data(j));
    }
    forall i, j | 0 <= i < j < c.fec ensures FecAt(bb, c)[i].data != FecAt(bb, c)[j].data {
      SlotsDiffer(c, Fec(i), Fec(j));
    }
    forall i, j | 0 <= i < c.data && 0 <= j < c.fec ensures DataAt(bb, c)[i].data != FecAt(bb, c)[j].data {
      SlotsDiffer(c, Data(i), Fec(j));
    }
  }

  lemma OrderedMatches(bb: BlockBuffer, c: Config, v: BlockView)
    requires bb.Matches(v, c) && Shaped(c, v.packets)
    ensures EachMatches(DataAt(bb, c), DataViews(c, v.packets), c.size)
            && EachMatches(FecAt(bb, c), FecViews(c, v.packets), c.size)
  {
    forall i | 0 <= i < c.data ensures DataAt(bb, c)[i].Matches(DataViews(c, v.packets)[i], c.size) {
      assert bb.packets[DataSlot(c, i)].Matches(v.packets[DataSlot(c, i)], c.size);
    }
    forall j | 0 <= j < c.fec ensures FecAt(bb, c)[j].Matches(FecViews(c, v.packets)[j], c.size) {
      assert bb.packets[FecSlot(c, j)].Matches(v.packets[FecSlot(c, j)], c.size);
    }
    forall i | 0 <= i < c.data
      ensures Arrays(DataAt(bb, c))[i] in Arrays(DataAt(bb, c)) && DataAt(bb, c)[i] in DataAt(bb, c) {}
    forall j | 0 <= j < c.fec
      ensures Arrays(FecAt(bb, c))[j] in Arrays(FecAt(bb, c)) && FecAt(bb, c)[j] in FecAt(bb, c) {}
  }

  // What the data buffers hold after the decoder ran
  ghost predicate Repaired(c: Config, packets: seq<PacketView>, x: seq<seq<bv8>>)
    requires c.Valid() && Shaped(c, packets)
  {
    && |x| == c.data && (forall i :: 0 <= i < c.data ==> |x[i]| == MAX_PACKET_LENGTH)
    && (Recoverable(c, packets) ==>
         var r := Recovery(c, packets);
         |r| == c.data && Sized(r, c.size) && forall i :: 0 <= i < c.data ==> x[i][..c.size] == r[i])
    && (forall i :: 0 <= i < c.data && !MissingFlags(c, packets)[i] && !Recoverable(c, packets) ==>
         DataViews(c, packets)[i] == Present(x[i][..c.size]))
  }

  ghost function TailsOf(c: Config, x: seq<seq<bv8>>): (tails: seq<seq<bv8>>)
    requires c.Valid() && |x| == c.data && forall i :: 0 <= i < c.data ==> |x[i]| == MAX_PACKET_LENGTH
    ensures Tails(c, tails) && forall i :: 0 <= i < c.data ==> tails[i] == x[i][c.size..c.size + PAYLOAD_HEADER]
  {
    seq(c.data, i requires 0 <= i < c.data => x[i][c.size..c.size + PAYLOAD_HEADER])
  }

  ghost function KeepFlags(c: Config, packets: seq<PacketView>): (keep: seq<bool>)
    requires |packets| == c.Packets()
    ensures |keep| == c.data && forall i :: 0 <= i < c.data ==>
              keep[i] == (Recoverable(c, packets) || !MissingFlags(c, packets)[i])
  {
    seq(c.data, i requires 0 <= i < c.data => Recoverable(c, packets) || !MissingFlags(c, packets)[i])
  }

  lemma RepairedIsWritten(c: Config, packets: seq<PacketView>, x: seq<seq<bv8>>)
    requires c.Valid() && Shaped(c, packets) && Repaired(c, packets, x)
    ensures Emitted(c, x, KeepFlags(c, packets), c.data) == Written(c, packets, TailsOf(c, x), c.data)
  {
    var keep, tails := KeepFlags(c, packets), TailsOf(c, x);
    forall i | 0 <= i < c.data ensures Chunk(c, x[i], keep[i]) == WrittenFor(c, packets, tails, i) {
      assert DataViews(c, packets)[i] == packets[DataSlot(c, i)];
      ChunkIsWrittenFor(c, packets, x[i], keep[i], tails, i);
    }
    EmittedIsWritten(c, packets, x, keep, tails, c.data);
  }

  lemma KeptAreWritten(c: Config, packets: seq<PacketView>, dataPkgs: seq<PacketBuffer>, fecPkgs: seq<PacketBuffer>,
                       failed: bool, keep: seq<bool>)
    requires Shaped(c, packets) && failed == !Recoverable(c, packets) && keep == KeepFlags(c, packets)
    requires EachMatches(dataPkgs, DataViews(c, packets), c.size) && EachMatches(fecPkgs, FecViews(c, packets), c.size)
    ensures ToWrite(dataPkgs, failed, keep)
  {
    FlagsMatch(c, packets, dataPkgs, fecPkgs);
  }

  // Repairing leaves the packets' flags as they are.
  method RepairPackets(c: Config, t: Tables, dataPkgs: seq<PacketBuffer>, fecPkgs: seq<PacketBuffer>,
                       ghost failed: bool, ghost packets: seq<PacketView>, ghost keep: seq<bool>)
    returns (ghost x: seq<seq<bv8>>)
    requires c.Valid() && t.Valid() && Shaped(c, packets)
    requires EachMatches(dataPkgs, DataViews(c, packets), c.size) && EachMatches(fecPkgs, FecViews(c, packets), c.size)
    requires Buffers(t, Arrays(dataPkgs), Arrays(fecPkgs), MAX_PACKET_LENGTH) && ToWrite(dataPkgs, failed, keep)
    modifies Arrays(dataPkgs), Arrays(fecPkgs)
    ensures Repaired(c, packets, x) && forall i :: 0 <= i < c.data ==> dataPkgs[i].data[..] == x[i]
    ensures ToWrite(dataPkgs, failed, keep)
  {
    x := Repair(c, t, dataPkgs, fecPkgs, packets);
  }

  // Decodes the data packets and returns the bytes to write.
  method Decode(c: Config, t: Tables, dataPkgs: seq<PacketBuffer>, fecPkgs: seq<PacketBuffer>, failed: bool,
                ghost packets: seq<PacketView>)
    returns (bytes: seq<bv8>, ghost tails: seq<seq<bv8>>)
    requires c.Valid() && t.Valid() && Shaped(c, packets)
    requires EachMatches(dataPkgs, DataViews(c, packets), c.size) && EachMatches(fecPkgs, FecViews(c, packets), c.size)
    requires Buffers(t, Arrays(dataPkgs), Arrays(fecPkgs), MAX_PACKET_LENGTH) && Apart(dataPkgs)
    requires failed == !Recoverable(c, packets)
    modifies Arrays(dataPkgs), Arrays(fecPkgs)
    ensures Tails(c, tails) && bytes == Written(c, packets, tails, c.data)
  {
    ghost var keep := KeepFlags(c, packets);
    KeptAreWritten(c, packets, dataPkgs, fecPkgs, failed, keep);
    ghost var x := RepairPackets(c, t, dataPkgs, fecPkgs, failed, packets, keep);
    tails := TailsOf(c, x);
    RepairedIsWritten(c, packets, x);
    bytes := WriteData(c, dataPkgs, failed, x, keep);
  }

  ghost function NoFec(c: Config, packets: seq<PacketView>): (r: seq<bool>)
    requires |packets| == c.Packets()
    ensures |r| == c.fec && forall j :: 0 <= j < c.fec ==> r[j] == !GoodFlags(c, packets)[j]
  {
    seq(c.fec, j requires 0 <= j < c.fec => !GoodFlags(c, packets)[j])
  }

  lemma ReadyToDecode(bb: BlockBuffer, c: Config, t: Tables, v: BlockView)
    requires c.Valid() && bb.Matches(v, c) && Shaped(c, v.packets) && OffTables(bb, t)
    ensures EachMatches(DataAt(bb, c), DataViews(c, v.packets), c.size)
            && EachMatches(FecAt(bb, c), FecViews(c, v.packets), c.size)
    ensures Buffers(t, Arrays(DataAt(bb, c)), Arrays(FecAt(bb, c)), MAX_PACKET_LENGTH) && Apart(DataAt(bb, c))
  {
    OrderedMatches(bb, c, v);
    BufferLengths(bb, c, v);
    OrderedBuffers(bb, c, t);
  }

  // The packets of a block sorted into data and FEC, and how many of each are missing
  method CountPackets(c: Config, bb: BlockBuffer, ghost v: BlockView)
    returns (dataPkgs: seq<PacketBuffer>, fecPkgs: seq<PacketBuffer>, datasMissing: nat, fecsMissing: nat)
    requires c.Valid() && bb.Matches(v, c) && Shaped(c, v.packets)
    ensures dataPkgs == DataAt(bb, c) && fecPkgs == FecAt(bb, c)
    ensures datasMissing == |Missing(c, v.packets)| && fecsMissing == c.fec - |Good(c, v.packets)|
  {
    bb.FlagsAreValidity(c, v);
    dataPkgs, fecPkgs, datasMissing, fecsMissing :=
      bb.Split(c, DataAt(bb, c), FecAt(bb, c), MissingFlags(c, v.packets), NoFec(c, v.packets));
    SelectComplement(NoFec(c, v.packets), GoodFlags(c, v.packets), c.fec);
  }

  // One block buffer decoded: the bytes to write, and the counts of missing packets
  method DecodePackets(c: Config, t: Tables, bb: BlockBuffer, ghost v: BlockView)
    returns (bytes: seq<bv8>, datasMissing: nat, fecsMissing: nat, failed: bool, ghost tails: seq<seq<bv8>>)
    requires c.Valid() && t.Valid() && bb.Matches(v, c) && Shaped(c, v.packets) && OffTables(bb, t)
    modifies bb.arrays
    ensures Tails(c, tails) && bytes == Written(c, v.packets, tails, c.data)
    ensures datasMissing == |Missing(c, v.packets)| && fecsMissing == c.fec - |Good(c, v.packets)|
    ensures failed == !Recoverable(c, v.packets)
  {
    var dataPkgs, fecPkgs;
    dataPkgs, fecPkgs, datasMissing, fecsMissing := CountPackets(c, bb, v);
    var goodFecs := c.fec - fecsMissing;
    failed := datasMissing > goodFecs;
    ReadyToDecode(bb, c, t, v);
    bytes, tails := Decode(c, t, dataPkgs, fecPkgs, failed, v.packets);
  }

  lemma BufferLengths(bb: BlockBuffer, c: Config, v: BlockView)
    requires bb.Matches(v, c)
    ensures forall k :: 0 <= k < |bb.packets| ==> bb.packets[k].data.Length == MAX_PACKET_LENGTH
  {
    forall k | 0 <= k < |bb.packets| ensures bb.packets[k].data.Length == MAX_PACKET_LENGTH {
      assert bb.packets[k].Matches(v.packets[k], c.size);
    }
  }

  // The first buffer with the smallest block number
  method OldestBuffer(blocks: seq<BlockBuffer>, ghost views: seq<BlockView>) returns (r: nat)
    requires 0 < |blocks| == |views|
    requires forall b :: 0 <= b < |blocks| ==> blocks[b].blockNum == views[b].num && views[b].num < INT_MAX
    ensures r == Oldest(views, |views|)
  {
    var minBlockNum := INT_MAX;
    r := 0;
    for i := 0 to |blocks|
      invariant i == 0 ==> minBlockNum == INT_MAX
      invariant i > 0 ==> r == Oldest(views, i) && minBlockNum == views[r].num
    {
      if blocks[i].blockNum < minBlockNum {
        minBlockNum := blocks[i].blockNum;
        r := i;
      }
    }
  }

  // The first buffer of the given block, or the number of buffers
  method FindBuffer(blocks: seq<BlockBuffer>, num: int, ghost views: seq<BlockView>) returns (r: nat)
    requires |blocks| == |views| && forall b :: 0 <= b < |blocks| ==> blocks[b].blockNum == views[b].num
    ensures r == Find(views, num, |views|)
  {
    r := 0;
    while r < |blocks|
      invariant r <= |blocks| && Find(views, num, r) == r
    {
      if blocks[r].blockNum == num {
        FindStays(views, num, r, |views|);
        return;
      }
      r := r + 1;
    }
  }

  const INT_MAX := 0x7fff_ffff

  lemma {:induction false} FindStays(blocks: seq<BlockView>, num: int, m: nat, n: nat)
    requires m < n <= |blocks| && Find(blocks, num, m) == m && blocks[m].num == num
    ensures Find(blocks, num, n) == m
  {
    if m + 1 < n { FindStays(blocks, num, m, n - 1); }
  }

  method NewBuffers(c: Config) returns (bs: seq<BlockBuffer>, ghost repr: set<object>)
    requires c.Valid()
    ensures |bs| == c.buffers && fresh(repr)
    ensures forall b :: 0 <= b < |bs| ==> bs[b].repr <= repr && bs[b].Matches(EmptyBlock(c, -1), c)
    ensures forall a, b :: 0 <= a < b < |bs| ==> bs[a].repr !! bs[b].repr
  {
    bs, repr := [], {};
    for i := 0 to c.buffers
      invariant |bs| == i && fresh(repr)
      invariant forall b :: 0 <= b < i ==> bs[b].repr <= repr && bs[b].Matches(EmptyBlock(c, -1), c)
      invariant forall a, b :: 0 <= a < b < i ==> bs[a].repr !! bs[b].repr
    {
      var b := new BlockBuffer(c);
      bs := bs + [b];
      repr := repr + b.repr;
    }
  }

  // ------------------------------------------------------------------ the receiver

  class Receiver {
    const c: Config
    const t: Tables
    const blocks: seq<BlockBuffer>
    ghost const repr: set<object>
    var maxBlockNum: int
    var status: Status
    var written: seq<bv8>
    ghost var state: RxState

    ghost predicate Shape() {
      && c.Valid() && |blocks| == c.buffers && this !in repr && this !in t.Arrays() && repr !! t.Arrays()
      && (forall b :: 0 <= b < |blocks| ==> blocks[b].repr <= repr && blocks[b].Shape(c))
      && (forall a, b :: 0 <= a < b < |blocks| ==> blocks[a].repr !! blocks[b].repr)
    }

    ghost predicate BlocksMatch(views: seq<BlockView>)
      reads repr
    {
      |views| == |blocks| && forall b :: 0 <= b < |blocks| ==> blocks[b].repr <= repr && blocks[b].Matches(views[b], c)
    }

    // The objects hold exactly the abstract state.
    ghost predicate Valid()
      reads this, repr, t.gfExp, t.gfLog, t.inverse, t.gfMulTable
    {
      && Shape() && t.Valid() && ShapedState(c, state) && BlocksMatch(state.blocks)
      && maxBlockNum == state.maxBlockNum && status == state.status && written == state.output
    }

    constructor (config: Config, tables: Tables)
      requires config.Valid() && tables.Valid()
      ensures Valid() && c == config && t == tables && state == InitialState(config) && fresh(repr)
    {
      c, t := config, tables;
      var bs, r := NewBuffers(config);
      blocks := bs;
      repr := r;
      maxBlockNum, status, written := -1, Status(0, 0, 0, 0, 0), [];
      state := InitialState(config);
    }

    lemma BlockParts(b: nat)
      requires Valid() && b < c.buffers
      ensures blocks[b].Matches(state.blocks[b], c) && OffTables(blocks[b], t) && blocks[b].repr <= repr
              && this !in blocks[b].repr
      ensures blocks[b].arrays <= blocks[b].repr
              && forall k :: 0 <= k < |blocks[b].packets| ==> blocks[b].packets[k] in blocks[b].repr
    {
      assert blocks[b].Shape(c);
    }

    // Counts the packets of a decoded block.
    method CountDecoded(datasMissing: nat, fecsMissing: nat, failed: bool, ghost packets: seq<PacketView>)
      requires c.Valid() && |packets| == c.Packets()
      requires datasMissing == |Missing(c, packets)| && fecsMissing == c.fec - |Good(c, packets)|
      requires failed == !Recoverable(c, packets)
      modifies this`status
      ensures status == CountBlock(c, old(status), packets)
    {
      var packetsLostInBlock := 0;
      status := status.(receivedBlocks := Wrap(status.receivedBlocks + 1));
      if datasMissing + fecsMissing > 0 {
        packetsLostInBlock := datasMissing + fecsMissing;
        status := status.(lostPackets := Wrap(status.lostPackets + packetsLostInBlock));
      }
      status := status.(receivedPackets := Wrap(status.receivedPackets + c.data + c.fec - packetsLostInBlock));
      if failed {
        status := status.(damagedBlocks := Wrap(status.damagedBlocks + 1));
      }
    }

    // Decodes the block in buffer b, writes its data and clears the buffer.
    method WriteBuffer(b: nat, ghost v: BlockView) returns (ghost tails: seq<seq<bv8>>)
      requires c.Valid() && t.Valid() && this !in t.Arrays() && b < |blocks| && this !in blocks[b].repr
      requires blocks[b].Matches(v, c) && Shaped(c, v.packets) && OffTables(blocks[b], t)
      modifies this`status, this`written, blocks[b].repr
      ensures Tails(c, tails) && blocks[b].Matches(EmptyBlock(c, v.num), c)
      ensures written == old(written) + Written(c, v.packets, tails, c.data)
      ensures status == CountBlock(c, old(status), v.packets)
    {
      var bytes, datasMissing, fecsMissing, failed;
      BufferLengths(blocks[b], c, v);
      bytes, datasMissing, fecsMissing, failed, tails := DecodePackets(c, t, blocks[b], v);
      CountDecoded(datasMissing, fecsMissing, failed, v.packets);
      written := written + bytes;
      blocks[b].Clear(c);
    }

    method EvictBlock(b: nat) returns (ghost tails: seq<seq<bv8>>)
      requires Valid() && b < c.buffers
      modifies this`status, this`written, this`state, blocks[b].repr
      ensures Tails(c, tails) && Valid() && state == Evict(c, old(state), b, tails)
    {
      BlockParts(b);
      ghost var views := state.blocks;
      tails := WriteBuffer(b, views[b]);
      assert BlocksMatch(views[b := EmptyBlock(c, views[b].num)]) by {
        forall a | 0 <= a < |blocks| && a != b ensures blocks[a].repr <= repr && blocks[a].Matches(views[a], c) {
          assert old(blocks[a].Matches(views[a], c)) && blocks[a].repr !! blocks[b].repr;
        }
      }
      state := Evict(c, state, b, tails);
    }

    method BlockBufferListReset()
      requires Shape() && forall b, k :: 0 <= b < |blocks| && 0 <= k < |blocks[b].packets| ==>
                 blocks[b].packets[k].data.Length == MAX_PACKET_LENGTH
      modifies repr
      ensures BlocksMatch(UnusedBlocks(c))
    {
      for i := 0 to c.buffers
        invariant forall b :: 0 <= b < i ==> blocks[b].Matches(EmptyBlock(c, -1), c)
      {
        assert blocks[i].Shape(c);
        blocks[i].blockNum := -1;
        blocks[i].Clear(c);
      }
    }

    // The transmitter was restarted: forget everything but the number of restarts.
    method Restart()
      requires Valid()
      modifies this`status, this`state, repr
      ensures Valid() && state == Restarted(c, old(state))
    {
      status := Status(0, 0, 0, 0, Wrap(status.txRestarts + 1));
      forall b | 0 <= b < |blocks|
        ensures forall k :: 0 <= k < |blocks[b].packets| ==> blocks[b].packets[k].data.Length == MAX_PACKET_LENGTH
      {
        BufferLengths(blocks[b], c, state.blocks[b]);
      }
      BlockBufferListReset();
      state := Restarted(c, state);
    }

    // All buffered block numbers are below the value the search starts from.
    ghost predicate Searchable()
      reads this
    {
      forall b :: 0 <= b < |state.blocks| ==> state.blocks[b].num < INT_MAX
    }

    method Renumber(b: nat, num: nat, ghost s: RxState)
      requires Valid() && b < c.buffers
               && s == state.(blocks := state.blocks[b := state.blocks[b].(num := num)], maxBlockNum := num)
      modifies this`maxBlockNum, this`state, blocks[b]
      ensures Valid() && state == s
    {
      BlockParts(b);
      blocks[b].blockNum := num;
      maxBlockNum := num;
      state := s;
    }

    method AdmitBlock(num: nat) returns (ghost tails: seq<seq<bv8>>)
      requires Valid() && Searchable() && num < INT_MAX
      modifies this`status, this`written, this`maxBlockNum, this`state, repr
      ensures Tails(c, tails) && Valid() && state == Admit(c, old(state), num, tails)
    {
      forall b | 0 <= b < |blocks| ensures blocks[b].blockNum == state.blocks[b].num { BlockParts(b); }
      var b := OldestBuffer(blocks, state.blocks);
      BlockParts(b);
      tails := seq(c.data, i => seq(PAYLOAD_HEADER, j => 0));
      if blocks[b].blockNum != -1 {
        tails := EvictBlock(b);
      }
      Renumber(b, num, state.(blocks := state.blocks[b := state.blocks[b].(num := num)], maxBlockNum := num));
    }

    method FillSlot(r: nat, slot: nat, payload: seq<bv8>, ghost v: BlockView) returns (ghost left: seq<bv8>)
      requires c.Valid() && Shape() && r < |blocks| && blocks[r].Matches(v, c) && slot < c.Packets()
               && |payload| <= MAX_PACKET_LENGTH
      modifies blocks[r].repr
      ensures |left| == c.size
      ensures blocks[r].Matches(v.(packets := v.packets[slot := Present(Overwritten(left, payload, c.size))]), c)
    {
      assert blocks[r].packets[slot].Matches(v.packets[slot], c.size);
      left := blocks[r].packets[slot].Fill(payload, c.size);
    }

    method FillBuffer(r: nat, slot: nat, payload: seq<bv8>) returns (ghost left: seq<bv8>)
      requires Valid() && r < c.buffers && slot < c.Packets() && |payload| <= MAX_PACKET_LENGTH
      modifies this`state, blocks[r].repr
      ensures |left| == c.size && Valid()
      ensures var v := old(state).blocks[r];
              var packets := v.packets[slot := Present(Overwritten(left, payload, c.size))];
              state == old(state).(blocks := old(state).blocks[r := v.(packets := packets)])
    {
      BlockParts(r);
      ghost var v := state.blocks[r];
      left := FillSlot(r, slot, payload, v);
      state := state.(blocks := state.blocks[r := v.(packets := v.packets[slot := Present(Overwritten(left, payload,
          c.size))])]);
    }

    // Puts the packet in its place if its block is buffered and the place is free.
    method StorePacket(num: nat, slot: nat, payload: seq<bv8>) returns (ghost left: seq<bv8>)
      requires Valid() && slot < c.Packets() && |payload| <= MAX_PACKET_LENGTH
      modifies this`state, repr
      ensures |left| == c.size && Valid() && state == Store(c, old(state), num, slot, payload, left)
    {
      forall b | 0 <= b < |blocks| ensures blocks[b].blockNum == state.blocks[b].num { BlockParts(b); }
      var r := FindBuffer(blocks, num, state.blocks);
      left := seq(c.size, i => 0);
      if r != c.buffers {
        BlockParts(r);
        assert blocks[r].packets[slot].Matches(state.blocks[r].packets[slot], c.size);
        if !blocks[r].packets[slot].crcCorrect {
          left := FillBuffer(r, slot, payload);
        }
      }
    }

    lemma AdmittedSearchable(s: RxState, num: nat, tails: seq<seq<bv8>>)
      requires c.Valid() && ShapedState(c, s) && Tails(c, tails) && num < INT_MAX
      requires forall b :: 0 <= b < |s.blocks| ==> s.blocks[b].num < INT_MAX
      ensures forall b :: 0 <= b < c.buffers ==> Admit(c, s, num, tails).blocks[b].num < INT_MAX
    {}

    // Notices a restart and makes room for a new block.
    method MakeRoom(num: nat) returns (ghost tails: seq<seq<bv8>>)
      requires Valid() && Searchable() && num < INT_MAX
      modifies this`status, this`written, this`maxBlockNum, this`state, repr
      ensures Tails(c, tails) && Valid() && Searchable() && state == Admitted(c, old(state), num, tails)
    {
      tails := seq(c.data, i => seq(PAYLOAD_HEADER, j => 0));
      var txRestart := num + 128 * c.buffers < maxBlockNum;
      if num > maxBlockNum || txRestart {
        if txRestart {
          Restart();
        }
        ghost var s := state;
        tails := AdmitBlock(num);
        AdmittedSearchable(s, num, tails);
      }
    }

    lemma StoredSearchable(s: RxState, num: nat, slot: nat, payload: seq<bv8>, left: seq<bv8>)
      requires c.Valid() && ShapedState(c, s) && slot < c.Packets() && |left| == c.size
      ensures forall b :: 0 <= b < c.buffers ==> Store(c, s, num, slot, payload, left).blocks[b].num == s.blocks[b].num
    {}

    /** process_payload for a packet with an intact checksum. */
    method ProcessPayload(seqNr: nat, payload: seq<bv8>) returns (ghost left: Leftover)
      requires Valid() && Searchable() && BlockNumber(c, seqNr) < INT_MAX && |payload| <= MAX_PACKET_LENGTH
      modifies this, repr
      ensures |left.slot| == c.size && Tails(c, left.tails)
      ensures Valid() && Searchable() && state == Step(c, old(state), seqNr, payload, left)
    {
      ghost var tails := MakeRoom(BlockNumber(c, seqNr));
      ghost var s := state;
      ghost var slot := StorePacket(BlockNumber(c, seqNr), Position(c, seqNr), payload);
      StoredSearchable(s, BlockNumber(c, seqNr), Position(c, seqNr), payload, slot);
      left := Leftover(slot, tails);
    }
  }
}
