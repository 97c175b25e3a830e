/** The tables that number the symbols of all blocks, and the order in which symbols are sent. */
module SymbolTables {
  import opened Partition

  datatype BlockCb = BlockCb(k: nat, n: nat, firstSource: nat, firstRepair: nat)

  datatype SymbolCb = SymbolCb(esi: nat, sbn: nat)

  // For each block, the symbol numbers from .. to - 1
  datatype Span = Span(from: nat, to: nat)

  ghost predicate Spans(spans: seq<Span>) { forall s :: 0 <= s < |spans| ==> spans[s].from <= spans[s].to }

  // Symbols of the first n spans
  ghost function Start(spans: seq<Span>, n: nat): nat
    requires Spans(spans) && n <= |spans|
  {
    if n == 0 then 0 else Start(spans, n - 1) + (spans[n - 1].to - spans[n - 1].from)
  }

  ghost function Run(sbn: nat, from: nat, to: nat): (r: seq<SymbolCb>)
    requires from <= to
    ensures |r| == to - from && forall i :: 0 <= i < |r| ==> r[i] == SymbolCb(from + i, sbn)
  {
    seq(to - from, i requires 0 <= i => SymbolCb(from + i, sbn))
  }

  // The symbols of the first n spans, one after the other
  ghost function Table(spans: seq<Span>, n: nat): (r: seq<SymbolCb>)
    requires Spans(spans) && n <= |spans|
    ensures |r| == Start(spans, n)
  {
    if n == 0 then [] else Table(spans, n - 1) + Run(n - 1, spans[n - 1].from, spans[n - 1].to)
  }

  lemma {:induction false} TableAt(spans: seq<Span>, n: nat, s: nat, esi: nat)
    requires Spans(spans) && s < n <= |spans| && spans[s].from <= esi < spans[s].to
    ensures Start(spans, s) + (esi - spans[s].from) < Start(spans, n)
    ensures Table(spans, n)[Start(spans, s) + (esi - spans[s].from)] == SymbolCb(esi, s)
  {
    if s < n - 1 { TableAt(spans, n - 1, s, esi); }
  }

  lemma {:induction false} TableFrom(spans: seq<Span>, n: nat, idx: nat)
    requires Spans(spans) && n <= |spans| && idx < Start(spans, n)
    ensures var c := Table(spans, n)[idx];
            c.sbn < n && spans[c.sbn].from <= c.esi < spans[c.sbn].to
              && Start(spans, c.sbn) + (c.esi - spans[c.sbn].from) == idx
  {
    if idx < Start(spans, n - 1) { TableFrom(spans, n - 1, idx); }
  }

  // ------------------------------------------------------------------ the blocks of an object

  // Symbols of a block with k source symbols at code rate num / den
  function EncodedSize(k: nat, num: nat, den: nat): (n: int)
    requires 0 < num <= den
  {
    k * den / num
  }

  // It is the largest number n with num / den * n <= k.
  lemma EncodedSizeIs(k: nat, num: nat, den: nat)
    requires 0 < num <= den
    ensures var n := EncodedSize(k, num, den); k <= n && n * num <= k * den < (n + 1) * num
  {
    assert k * den >= k * num;
    DivisionAtLeast(k * den, num, k);
    QuotientBounds(k * den, num);
  }

  lemma QuotientBounds(a: nat, b: nat)
    requires b > 0
    ensures a / b * b <= a < (a / b + 1) * b
  {}

  lemma DivisionAtLeast(a: nat, b: nat, q: nat)
    requires b > 0 && a >= q * b
    ensures a / b >= q
  {
    var p := a / b;
    assert a < (p + 1) * b;
    assert p + 1 <= q ==> (p + 1) * b <= q * b;
  }

  // A partition, and the symbols of a large and of a small block with its repair symbols
  datatype Object = Object(bs: Blocking, nLarge: int, nSmall: int) {
    ghost predicate Valid() { 0 <= bs.larges <= bs.blocks && 0 <= bs.large <= nLarge && 0 <= bs.small <= nSmall }

    function K(sbn: nat): nat
      requires Valid()
    {
      if sbn < bs.larges then bs.large else bs.small
    }

    function N(sbn: nat): (n: nat)
      requires Valid()
      ensures K(sbn) <= n
    {
      if sbn < bs.larges then nLarge else nSmall
    }

    ghost function SourceSpans(): (r: seq<Span>)
      requires Valid()
      ensures |r| == bs.blocks && Spans(r) && forall s :: 0 <= s < |r| ==> r[s] == Span(0, K(s))
    {
      seq(bs.blocks, s requires 0 <= s => Span(0, K(s)))
    }

    ghost function RepairSpans(): (r: seq<Span>)
      requires Valid()
      ensures |r| == bs.blocks && Spans(r) && forall s :: 0 <= s < |r| ==> r[s] == Span(K(s), N(s))
    {
      seq(bs.blocks, s requires 0 <= s => Span(K(s), N(s)))
    }

    ghost function SourceStart(s: nat): nat
      requires Valid() && s <= bs.blocks
    {
      Start(SourceSpans(), s)
    }

    // Repair symbols are numbered behind all source symbols.
    ghost function RepairStart(s: nat): nat
      requires Valid() && s <= bs.blocks
    {
      Start(SourceSpans(), bs.blocks) + Start(RepairSpans(), s)
    }
  }

  // The blocks of a partition at code rate num / den
  function EncodedObject(bs: Blocking, num: nat, den: nat): Object
    requires 0 < num <= den && bs.large >= 0 && bs.small >= 0
  {
    Object(bs, EncodedSize(bs.large, num, den), EncodedSize(bs.small, num, den))
  }

  // The receiver's index of a symbol
  function IndexOf(b: BlockCb, esi: nat): nat { if esi < b.k then b.firstSource + esi else b.firstRepair + (esi - b.k) }

  ghost predicate BlocksOf(o: Object, blocks: seq<BlockCb>, n: nat)
    requires o.Valid() && n <= o.bs.blocks
  {
    |blocks| == n && forall s :: 0 <= s < n ==> blocks[s] == BlockCb(o.K(s), o.N(s), o.SourceStart(s), o.RepairStart(s))
  }

  ghost function WholeTable(o: Object): (r: seq<SymbolCb>)
    requires o.Valid()
  {
    Table(o.SourceSpans(), o.bs.blocks) + Table(o.RepairSpans(), o.bs.blocks)
  }

  lemma SymbolAtIndex(o: Object, b: BlockCb, s: nat, esi: nat)
    requires o.Valid() && s < o.bs.blocks && b == BlockCb(o.K(s), o.N(s), o.SourceStart(s), o.RepairStart(s))
             && esi < b.n
    ensures IndexOf(b, esi) < |WholeTable(o)| && WholeTable(o)[IndexOf(b, esi)] == SymbolCb(esi, s)
  {
    var src, rep, n := o.SourceSpans(), o.RepairSpans(), o.bs.blocks;
    assert src[s] == Span(0, b.k) && rep[s] == Span(b.k, b.n);
    if esi < b.k { TableAt(src, n, s, esi); } else { TableAt(rep, n, s, esi); }
  }

  lemma IndexOfSymbol(o: Object, blocks: seq<BlockCb>, idx: nat)
    requires o.Valid() && BlocksOf(o, blocks, o.bs.blocks) && idx < |WholeTable(o)|
    ensures var c := WholeTable(o)[idx];
            c.sbn < o.bs.blocks && c.esi < o.N(c.sbn) && IndexOf(blocks[c.sbn], c.esi) == idx
  {
    var src, rep, n := o.SourceSpans(), o.RepairSpans(), o.bs.blocks;
    if idx < Start(src, n) { TableFrom(src, n, idx); } else { TableFrom(rep, n, idx - Start(src, n)); }
  }

  // The tables are inverse to each other: every symbol of every block is at its index, and the symbol at an index has
  // that index.
  lemma TablesAreInverse(o: Object, blocks: seq<BlockCb>)
    requires o.Valid() && BlocksOf(o, blocks, o.bs.blocks)
    ensures forall s, esi :: 0 <= s < |blocks| && 0 <= esi < blocks[s].n ==>
      IndexOf(blocks[s], esi) < |WholeTable(o)| && WholeTable(o)[IndexOf(blocks[s], esi)] == SymbolCb(esi, s)
    ensures forall idx :: 0 <= idx < |WholeTable(o)| ==>
      WholeTable(o)[idx].sbn < |blocks| && WholeTable(o)[idx].esi < blocks[WholeTable(o)[idx].sbn].n
      && IndexOf(blocks[WholeTable(o)[idx].sbn], WholeTable(o)[idx].esi) == idx
  {
    forall s, esi | 0 <= s < |blocks| && 0 <= esi < blocks[s].n
      ensures IndexOf(blocks[s], esi) < |WholeTable(o)| && WholeTable(o)[IndexOf(blocks[s], esi)] == SymbolCb(esi, s)
    {
      SymbolAtIndex(o, blocks[s], s, esi);
    }
    forall idx | 0 <= idx < |WholeTable(o)|
      ensures WholeTable(o)[idx].sbn < |blocks| && WholeTable(o)[idx].esi < blocks[WholeTable(o)[idx].sbn].n
      ensures IndexOf(blocks[WholeTable(o)[idx].sbn], WholeTable(o)[idx].esi) == idx
    {
      IndexOfSymbol(o, blocks, idx);
    }
  }

  // ------------------------------------------------------------------ filling the tables

  // Part of the table written so far: the first source entries, and the first repair entries behind place total
  ghost predicate Filled(tab: seq<SymbolCb>, src: seq<SymbolCb>, rep: seq<SymbolCb>, total: nat) {
    |src| <= total && total + |rep| <= |tab| && tab[..|src|] == src && tab[total..total + |rep|] == rep
  }

  // Entries r in place of those from at on
  ghost function Spliced(tab: seq<SymbolCb>, at: nat, r: seq<SymbolCb>): (t: seq<SymbolCb>)
    requires at + |r| <= |tab|
    ensures |t| == |tab|
  {
    tab[..at] + r + tab[at + |r|..]
  }

  method FillRun(tab: array<SymbolCb>, at: nat, sbn: nat, from: nat, to: nat)
    requires from <= to && at + (to - from) <= tab.Length
    modifies tab
    ensures tab[..] == Spliced(old(tab[..]), at, Run(sbn, from, to))
  {
    var i := at;
    for esi := from to to
      invariant i == at + (esi - from)
      invariant forall j :: at <= j < i ==> tab[j] == SymbolCb(from + (j - at), sbn)
      invariant forall j :: 0 <= j < at || i <= j < tab.Length ==> tab[j] == old(tab[j])
    {
      tab[i] := SymbolCb(esi, sbn);
      i := i + 1;
    }
  }

  lemma FilledNext(before: seq<SymbolCb>, middle: seq<SymbolCb>, after: seq<SymbolCb>, src: seq<SymbolCb>,
                   rep: seq<SymbolCb>, total: nat, a: seq<SymbolCb>, b: seq<SymbolCb>)
    requires Filled(before, src, rep, total) && |src| + |a| <= total && total + |rep| + |b| <= |before|
    requires middle == Spliced(before, |src|, a) && after == Spliced(middle, total + |rep|, b)
    ensures |after| == |before| && Filled(after, src + a, rep + b, total)
  {
    assert middle[..|src| + |a|] == src + a;
    assert middle[total..total + |rep|] == rep;
    assert after[..|src| + |a|] == middle[..|src| + |a|];
    assert after[total..total + |rep| + |b|] == rep + b;
  }

  lemma {:induction false} StartGrows(spans: seq<Span>, m: nat, n: nat)
    requires Spans(spans) && m <= n <= |spans|
    ensures Start(spans, m) <= Start(spans, n)
  {
    if m < n { StartGrows(spans, m, n - 1); }
  }

  // One block: its source symbols, then its repair symbols
  method FillBlock(tab: array<SymbolCb>, sbn: nat, k: nat, n: nat, srcIdx: nat, repIdx: nat, ghost src: seq<SymbolCb>,
                   ghost rep: seq<SymbolCb>, ghost total: nat)
    requires k <= n && Filled(tab[..], src, rep, total) && srcIdx == |src| && repIdx == total + |rep|
    requires srcIdx + k <= total && repIdx + (n - k) <= tab.Length
    modifies tab
    ensures Filled(tab[..], src + Run(sbn, 0, k), rep + Run(sbn, k, n), total)
  {
    ghost var before := tab[..];
    FillRun(tab, srcIdx, sbn, 0, k);
    ghost var middle := tab[..];
    FillRun(tab, repIdx, sbn, k, n);
    FilledNext(before, middle, tab[..], src, rep, total, Run(sbn, 0, k), Run(sbn, k, n));
  }

  // The tables of the first n blocks
  ghost function SourceTable(o: Object, n: nat): (r: seq<SymbolCb>)
    requires o.Valid() && n <= o.bs.blocks
    ensures |r| == o.SourceStart(n)
  {
    Table(o.SourceSpans(), n)
  }

  ghost function RepairTable(o: Object, n: nat): (r: seq<SymbolCb>)
    requires o.Valid() && n <= o.bs.blocks
    ensures o.SourceStart(o.bs.blocks) + |r| == o.RepairStart(n)
  {
    Table(o.RepairSpans(), n)
  }

  lemma NextTables(o: Object, n: nat)
    requires o.Valid() && n < o.bs.blocks
    ensures SourceTable(o, n + 1) == SourceTable(o, n) + Run(n, 0, o.K(n))
    ensures RepairTable(o, n + 1) == RepairTable(o, n) + Run(n, o.K(n), o.N(n))
  {
    assert o.SourceSpans()[n] == Span(0, o.K(n)) && o.RepairSpans()[n] == Span(o.K(n), o.N(n));
  }

  lemma TablesGrow(o: Object, n: nat)
    requires o.Valid() && n <= o.bs.blocks
    ensures |SourceTable(o, n)| <= |SourceTable(o, o.bs.blocks)| && |RepairTable(o, n)| <= |RepairTable(o, o.bs.blocks)|
  {
    StartGrows(o.SourceSpans(), n, o.bs.blocks); StartGrows(o.RepairSpans(), n, o.bs.blocks);
  }

  // Room for the symbols of block n
  lemma RoomForBlock(o: Object, n: nat)
    requires o.Valid() && n < o.bs.blocks
    ensures |SourceTable(o, n)| + o.K(n) <= |SourceTable(o, o.bs.blocks)|
    ensures |RepairTable(o, n)| + (o.N(n) - o.K(n)) <= |RepairTable(o, o.bs.blocks)|
  {
    NextTables(o, n);
    TablesGrow(o, n + 1);
  }

  // Tables filled, with the two running indices behind what was written
  ghost predicate Underway(tab: seq<SymbolCb>, src: seq<SymbolCb>, rep: seq<SymbolCb>, total: nat, srcIdx: nat,
                           repIdx: nat) {
    srcIdx == |src| && repIdx == total + |rep| && Filled(tab, src, rep, total)
  }

  // The control block of block n and its symbols
  method NextBlock(o: Object, tab: array<SymbolCb>, n: nat, srcIdx: nat, repIdx: nat, ghost total: nat)
    returns (b: BlockCb)
    requires o.Valid() && n < o.bs.blocks && total == |SourceTable(o, o.bs.blocks)|
    requires tab.Length == total + |RepairTable(o, o.bs.blocks)|
    requires Underway(tab[..], SourceTable(o, n), RepairTable(o, n), total, srcIdx, repIdx)
    modifies tab
    ensures b == BlockCb(o.K(n), o.N(n), srcIdx, repIdx) && b.k <= b.n
    ensures Underway(tab[..], SourceTable(o, n + 1), RepairTable(o, n + 1), total, srcIdx + b.k, repIdx + (b.n - b.k))
  {
    RoomForBlock(o, n);
    NextTables(o, n);
    b := BlockCb(o.K(n), o.N(n), srcIdx, repIdx);
    FillBlock(tab, n, b.k, b.n, srcIdx, repIdx, SourceTable(o, n), RepairTable(o, n), total);
  }

  lemma BlocksNext(o: Object, blocks: seq<BlockCb>, n: nat, b: BlockCb)
    requires o.Valid() && n < o.bs.blocks && BlocksOf(o, blocks, n)
    requires b == BlockCb(o.K(n), o.N(n), |SourceTable(o, n)|, |SourceTable(o, o.bs.blocks)| + |RepairTable(o, n)|)
    ensures BlocksOf(o, blocks + [b], n + 1)
  {}

  // The first n blocks are done.
  ghost predicate Done(o: Object, blocks: seq<BlockCb>, tab: seq<SymbolCb>, n: nat, srcIdx: nat, repIdx: nat)
    requires o.Valid() && n <= o.bs.blocks
  {
    && BlocksOf(o, blocks, n) && |tab| == |WholeTable(o)|
    && Underway(tab, SourceTable(o, n), RepairTable(o, n), |SourceTable(o, o.bs.blocks)|, srcIdx, repIdx)
  }

  method DoBlock(o: Object, tab: array<SymbolCb>, n: nat, srcIdx: nat, repIdx: nat, ghost blocks: seq<BlockCb>)
    returns (b: BlockCb)
    requires o.Valid() && n < o.bs.blocks && Done(o, blocks, tab[..], n, srcIdx, repIdx)
    modifies tab
    ensures b.k <= b.n && Done(o, blocks + [b], tab[..], n + 1, srcIdx + b.k, repIdx + (b.n - b.k))
  {
    b := NextBlock(o, tab, n, srcIdx, repIdx, |SourceTable(o, o.bs.blocks)|);
    BlocksNext(o, blocks, n, b);
  }

  lemma NothingDone(o: Object, tab: seq<SymbolCb>)
    requires o.Valid() && |tab| == |WholeTable(o)|
    ensures Done(o, [], tab, 0, 0, |SourceTable(o, o.bs.blocks)|)
  {}

  lemma AllDone(o: Object, blocks: seq<BlockCb>, tab: seq<SymbolCb>, srcIdx: nat, repIdx: nat)
    requires o.Valid() && Done(o, blocks, tab, o.bs.blocks, srcIdx, repIdx)
    ensures BlocksOf(o, blocks, o.bs.blocks) && tab == WholeTable(o)
  {
    AllFilled(tab, SourceTable(o, o.bs.blocks), RepairTable(o, o.bs.blocks), |SourceTable(o, o.bs.blocks)|);
  }

  method FillBlocks(o: Object, tab: array<SymbolCb>, totalSource: nat) returns (blocks: seq<BlockCb>)
    requires o.Valid() && totalSource == |SourceTable(o, o.bs.blocks)| && tab.Length == |WholeTable(o)|
    modifies tab
    ensures BlocksOf(o, blocks, o.bs.blocks) && tab[..] == WholeTable(o)
  {
    blocks := [];
    var srcIdx: nat, repIdx: nat := 0, totalSource;
    NothingDone(o, tab[..]);
    for sbn := 0 to o.bs.blocks
      invariant Done(o, blocks, tab[..], sbn, srcIdx, repIdx)
    {
      var b := DoBlock(o, tab, sbn, srcIdx, repIdx, blocks);
      blocks, srcIdx, repIdx := blocks + [b], srcIdx + b.k, repIdx + (b.n - b.k);
    }
    AllDone(o, blocks, tab[..], srcIdx, repIdx);
  }

  lemma AllFilled(tab: seq<SymbolCb>, src: seq<SymbolCb>, rep: seq<SymbolCb>, total: nat)
    requires Filled(tab, src, rep, total) && |src| == total && total + |rep| == |tab|
    ensures tab == src + rep
  {
    assert tab == tab[..total] + tab[total..];
  }

  // ------------------------------------------------------------------ totals

  // The sum over n blocks of which the large ones come first
  function SumOver(o: Object, n: int, large: int, small: int): int {
    if n <= o.bs.larges then n * large else o.bs.larges * large + (n - o.bs.larges) * small
  }

  lemma SumNext(o: Object, n: int, large: int, small: int)
    requires o.bs.larges >= 0
    ensures SumOver(o, n + 1, large, small) == SumOver(o, n, large, small) + (if n < o.bs.larges then large else small)
  {
    assert (n + 1) * large == n * large + large;
    assert (n + 1 - o.bs.larges) * small == (n - o.bs.larges) * small + small;
  }

  lemma {:induction false} SourceSum(o: Object, n: nat)
    requires o.Valid() && n <= o.bs.blocks
    ensures o.SourceStart(n) == SumOver(o, n, o.bs.large, o.bs.small)
    ensures o.SourceStart(n) ==
            if n <= o.bs.larges then n * o.bs.large
            else o.bs.larges * o.bs.large + (n - o.bs.larges) * o.bs.small
  {
    if n > 0 {
      SourceSum(o, n - 1);
      SumNext(o, n - 1, o.bs.large, o.bs.small);
      assert o.SourceSpans()[n - 1] == Span(0, o.K(n - 1));
    }
  }

  lemma {:induction false} RepairSum(o: Object, n: nat)
    requires o.Valid() && n <= o.bs.blocks
    ensures Start(o.RepairSpans(), n) == SumOver(o, n, o.nLarge - o.bs.large, o.nSmall - o.bs.small)
  {
    if n > 0 {
      RepairSum(o, n - 1);
      SumNext(o, n - 1, o.nLarge - o.bs.large, o.nSmall - o.bs.small);
      assert o.RepairSpans()[n - 1] == Span(o.K(n - 1), o.N(n - 1));
    }
  }

  // All symbols of an object, as the sender counts them
  function EncodingTotal(o: Object): int { o.bs.larges * o.nLarge + (o.bs.blocks - o.bs.larges) * o.nSmall }

  // The tables have as many entries as the sender counts.
  lemma EncodingSum(o: Object)
    requires o.Valid()
    ensures o.RepairStart(o.bs.blocks) == EncodingTotal(o) == |WholeTable(o)|
  {
    SourceSum(o, o.bs.blocks); RepairSum(o, o.bs.blocks);
    WholeSum(o, o.bs.large, o.bs.small); WholeSum(o, o.nLarge - o.bs.large, o.nSmall - o.bs.small);
    SumsAdd(o.bs.larges, o.bs.blocks - o.bs.larges, o.bs.large, o.bs.small, o.nLarge, o.nSmall);
  }

  lemma WholeSum(o: Object, large: int, small: int)
    requires o.bs.larges <= o.bs.blocks
    ensures SumOver(o, o.bs.blocks, large, small) == o.bs.larges * large + (o.bs.blocks - o.bs.larges) * small
  {
    assert o.bs.blocks == o.bs.larges ==> (o.bs.blocks - o.bs.larges) * small == 0;
  }

  lemma SumsAdd(a: int, b: int, p: int, q: int, p': int, q': int)
    ensures a * p + b * q + (a * (p' - p) + b * (q' - q)) == a * p' + b * q'
  {
    assert a * (p' - p) == a * p' - a * p;
    assert b * (q' - q) == b * q' - b * q;
  }

  // The tables of an object of l bytes number exactly the source symbols of e bytes that it needs, and all symbols the
  // sender counts.
  lemma ObjectTotals(o: Object, b: nat, l: nat, e: nat, num: nat, den: nat)
    requires b > 0 && l > 0 && e > 0 && 0 < num <= den
    requires (BlockingIsPartition(b, l, e); o == EncodedObject(ComputeBlocking(b, l, e), num, den))
    ensures o.Valid() && o.SourceStart(o.bs.blocks) == Symbols(l, e)
    ensures (o.SourceStart(o.bs.blocks) - 1) * e < l <= o.SourceStart(o.bs.blocks) * e
    ensures o.RepairStart(o.bs.blocks) == o.bs.larges * o.nLarge + (o.bs.blocks - o.bs.larges) * o.nSmall
    ensures o.nLarge * num <= o.bs.large * den < (o.nLarge + 1) * num
    ensures o.nSmall * num <= o.bs.small * den < (o.nSmall + 1) * num
  {
    BlockingIsPartition(b, l, e);
    EncodedSizeIs(o.bs.large, num, den); EncodedSizeIs(o.bs.small, num, den);
    SourceSum(o, o.bs.blocks);
    WholeSum(o, o.bs.large, o.bs.small);
    EncodingSum(o);
  }

  /** init_sender: the blocks of an object of l bytes, for blocks of at most b symbols of e bytes at rate num / den */
  method InitTables(b: nat, l: nat, e: nat, num: nat, den: nat)
    returns (o: Object, blocks: seq<BlockCb>, tab: array<SymbolCb>)
    requires b > 0 && l > 0 && e > 0 && 0 < num <= den
    ensures o.bs == ComputeBlocking(b, l, e) && o.bs.large >= 0 && o.bs.small >= 0 && o == EncodedObject(o.bs, num, den)
    ensures o.Valid() && BlocksOf(o, blocks, o.bs.blocks) && tab[..] == WholeTable(o) && tab.Length == EncodingTotal(o)
  {
    BlockingIsPartition(b, l, e);
    o := EncodedObject(ComputeBlocking(b, l, e), num, den);
    ObjectTotals(o, b, l, e, num, den);
    tab := new SymbolCb[EncodingTotal(o)](_ => SymbolCb(0, 0));
    blocks := FillBlocks(o, tab, Symbols(l, e));
  }
}
