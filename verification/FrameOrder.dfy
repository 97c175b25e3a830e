/** What draining the packet buffer writes, told from the frames in it. */
module FrameOrder {
  import opened Sequences

  const BUFFER_MAX := 5 * 1024 * 1024

  // payload is the number of payload bytes of every data frame.
  datatype Settings = Settings(ordered: bool, addNoise: bool, noise: bv8, payload: nat, bufferSize: nat) {
    ghost predicate Valid() { 0 < payload <= bufferSize <= BUFFER_MAX }
  }

  datatype Frame = Frame(number: int, data: seq<bv8>)

  ghost predicate Sorted(fs: seq<Frame>) { forall i, j :: 0 <= i < j < |fs| ==> fs[i].number <= fs[j].number }

  ghost predicate Distinct(fs: seq<Frame>) { forall i, j :: 0 <= i < j < |fs| ==> fs[i].number != fs[j].number }

  ghost predicate Increasing(fs: seq<Frame>) { forall i, j :: 0 <= i < j < |fs| ==> fs[i].number < fs[j].number }

  ghost predicate Sized(cfg: Settings, fs: seq<Frame>) { forall i :: 0 <= i < |fs| ==> |fs[i].data| == cfg.payload }

  // ------------------------------------------------------------------ draining frames in order

  function NoiseBlock(cfg: Settings): seq<bv8> { seq(cfg.payload, i => cfg.noise) }

  function NoiseBlocks(cfg: Settings, n: int): seq<bv8>
    decreases if n < 0 then 0 else n
  {
    if n <= 0 then [] else NoiseBlocks(cfg, n - 1) + NoiseBlock(cfg)
  }

  // Numbers missing before frame k; -1 if it repeats the number of the frame before it
  function Gap(cfg: Settings, fs: seq<Frame>, k: nat): int
    requires k < |fs|
  {
    if k == 0 || !cfg.ordered then 0 else fs[k].number - (fs[k - 1].number + 1)
  }

  function Noise(cfg: Settings, gap: int): seq<bv8> { if cfg.addNoise then NoiseBlocks(cfg, gap) else [] }

  // Written for the first n frames
  function Drained(cfg: Settings, fs: seq<Frame>, n: nat): seq<bv8>
    requires n <= |fs|
  {
    if n == 0 then [] else Drained(cfg, fs, n - 1) + (Noise(cfg, Gap(cfg, fs, n - 1)) + fs[n - 1].data)
  }

  function Lost(cfg: Settings, fs: seq<Frame>, n: nat): int
    requires n <= |fs|
  {
    if n == 0 then 0 else Lost(cfg, fs, n - 1) + Gap(cfg, fs, n - 1)
  }

  // Bytes of noise
  function Padding(cfg: Settings, fs: seq<Frame>, n: nat): nat
    requires n <= |fs|
  {
    if n == 0 then 0 else Padding(cfg, fs, n - 1) + |Noise(cfg, Gap(cfg, fs, n - 1))|
  }

  lemma {:induction false} DrainedOfPrefix(cfg: Settings, fs: seq<Frame>, f: Frame, n: nat)
    requires n <= |fs|
    ensures Drained(cfg, fs + [f], n) == Drained(cfg, fs, n)
    ensures Lost(cfg, fs + [f], n) == Lost(cfg, fs, n) && Padding(cfg, fs + [f], n) == Padding(cfg, fs, n)
  {
    if n > 0 {
      DrainedOfPrefix(cfg, fs, f, n - 1);
      assert Gap(cfg, fs + [f], n - 1) == Gap(cfg, fs, n - 1);
    }
  }

  // One more frame, where expected is the number after that of the last frame
  lemma DrainedNext(cfg: Settings, fs: seq<Frame>, f: Frame, expected: int, gap: int)
    requires expected == if fs == [] then f.number else fs[|fs| - 1].number + 1
    requires gap == if cfg.ordered then f.number - expected else 0
    ensures Drained(cfg, fs + [f], |fs| + 1) == Drained(cfg, fs, |fs|) + (Noise(cfg, gap) + f.data)
    ensures Lost(cfg, fs + [f], |fs| + 1) == Lost(cfg, fs, |fs|) + gap
    ensures Padding(cfg, fs + [f], |fs| + 1) == Padding(cfg, fs, |fs|) + |Noise(cfg, gap)|
  {
    DrainedOfPrefix(cfg, fs, f, |fs|);
    assert Gap(cfg, fs + [f], |fs|) == gap;
  }

  // The count of lost blocks depends on the first and last number and on how many frames there are, even if some
  // numbers repeat.
  lemma {:induction false} LossTelescopes(cfg: Settings, fs: seq<Frame>, n: nat)
    requires 0 < n <= |fs| && cfg.ordered
    ensures Lost(cfg, fs, n) == fs[n - 1].number - fs[0].number + 1 - n
  {
    if n > 1 { LossTelescopes(cfg, fs, n - 1); } else { assert Lost(cfg, fs, 0) == 0; }
  }

  lemma {:induction false} NoiseSize(cfg: Settings, n: nat)
    ensures |NoiseBlocks(cfg, n)| == n * cfg.payload
  {
    if n > 0 { NoiseSize(cfg, n - 1); }
  }

  lemma NextPadding(cfg: Settings, lost: int, gap: nat)
    ensures |Noise(cfg, gap)| == if cfg.addNoise then (lost + gap) * cfg.payload - lost * cfg.payload else 0
  {
    NoiseSize(cfg, gap);
    assert (lost + gap) * cfg.payload == lost * cfg.payload + gap * cfg.payload;
  }

  // Each missing number adds the bytes of one block, if noise is to be added.
  lemma {:induction false} PaddingIsLost(cfg: Settings, fs: seq<Frame>, n: nat)
    requires Increasing(fs) && n <= |fs|
    ensures Lost(cfg, fs, n) >= 0 && Padding(cfg, fs, n) == if cfg.addNoise then Lost(cfg, fs, n) * cfg.payload else 0
  {
    if n > 0 {
      PaddingIsLost(cfg, fs, n - 1);
      NextPadding(cfg, Lost(cfg, fs, n - 1), Gap(cfg, fs, n - 1));
    }
  }

  // ------------------------------------------------------------------ filling the gaps of a range of numbers

  ghost predicate Has(fs: seq<Frame>, m: int) { exists i :: 0 <= i < |fs| && fs[i].number == m }

  ghost function DataOf(fs: seq<Frame>, m: int): seq<bv8>
    requires Has(fs, m)
  {
    var i :| 0 <= i < |fs| && fs[i].number == m;
    fs[i].data
  }

  // The block with number m if it is there, or what stands in for it
  ghost function BlockOrNoise(cfg: Settings, fs: seq<Frame>, m: int): seq<bv8> {
    if Has(fs, m) then DataOf(fs, m) else if cfg.addNoise then NoiseBlock(cfg) else []
  }

  ghost function Filled(cfg: Settings, fs: seq<Frame>, from: int, n: nat): seq<bv8> {
    if n == 0 then [] else Filled(cfg, fs, from, n - 1) + BlockOrNoise(cfg, fs, from + n - 1)
  }

  lemma {:induction false} GapIsNoise(cfg: Settings, fs: seq<Frame>, from: int, n: nat, gap: nat)
    requires forall m :: from + n <= m < from + n + gap ==> !Has(fs, m)
    ensures Filled(cfg, fs, from, n + gap) == Filled(cfg, fs, from, n) + Noise(cfg, gap)
  {
    if gap > 0 {
      GapIsNoise(cfg, fs, from, n, gap - 1);
    }
  }

  lemma FrameFillsNumber(cfg: Settings, fs: seq<Frame>, k: nat)
    requires Increasing(fs) && k < |fs|
    ensures BlockOrNoise(cfg, fs, fs[k].number) == fs[k].data
  {
    assert Has(fs, fs[k].number);
    var i :| 0 <= i < |fs| && fs[i].number == fs[k].number && DataOf(fs, fs[k].number) == fs[i].data;
    assert i == k;
  }

  // A frame and the gap before it
  lemma NextFillsGap(cfg: Settings, fs: seq<Frame>, from: int, k: nat)
    requires cfg.ordered && Increasing(fs) && 0 < k < |fs| && from <= fs[k - 1].number
    ensures fs[k - 1].number < fs[k].number
    ensures Filled(cfg, fs, from, fs[k].number + 1 - from) ==
            Filled(cfg, fs, from, fs[k - 1].number + 1 - from) + (Noise(cfg, Gap(cfg, fs, k)) + fs[k].data)
  {
    var before, last := fs[k - 1].number, fs[k].number;
    forall m | before < m < last ensures !Has(fs, m) { NotBetween(fs, k - 1, m); }
    GapIsNoise(cfg, fs, from, before + 1 - from, last - before - 1);
    FrameFillsNumber(cfg, fs, k);
    Regroup(Filled(cfg, fs, from, before + 1 - from), Noise(cfg, last - before - 1), fs[k].data);
  }

  // One block for every number from the lowest to the highest: the frame's data, or noise if it is missing
  lemma {:induction false} DrainedFillsGaps(cfg: Settings, fs: seq<Frame>, n: nat)
    requires cfg.ordered && Increasing(fs) && 0 < n <= |fs|
    ensures fs[n - 1].number >= fs[0].number
    ensures Drained(cfg, fs, n) == Filled(cfg, fs, fs[0].number, fs[n - 1].number + 1 - fs[0].number)
  {
    if n == 1 {
      FrameFillsNumber(cfg, fs, 0);
      assert Drained(cfg, fs, 1) == [] + ([] + fs[0].data);
    } else {
      DrainedFillsGaps(cfg, fs, n - 1);
      NextFillsGap(cfg, fs, fs[0].number, n - 1);
    }
  }

  lemma DrainedIsFilled(cfg: Settings, fs: seq<Frame>, lo: int, n: nat, r: seq<bv8>)
    requires cfg.ordered && Increasing(fs) && fs != [] && lo == fs[0].number && n == fs[|fs| - 1].number + 1 - lo
    requires r == Filled(cfg, fs, lo, n)
    ensures Drained(cfg, fs, |fs|) == r
  {
    DrainedFillsGaps(cfg, fs, |fs|);
  }

  lemma NotBetween(fs: seq<Frame>, k: nat, m: int)
    requires Increasing(fs) && k + 1 < |fs| && fs[k].number < m < fs[k + 1].number
    ensures !Has(fs, m)
  {
    forall i | 0 <= i < |fs| ensures fs[i].number != m {
      if i < k { assert fs[i].number < fs[k].number; }
      if i > k + 1 { assert fs[k + 1].number < fs[i].number; }
    }
  }

  // ------------------------------------------------------------------ sorted permutations

  lemma SortedDistinctIncreases(fs: seq<Frame>, gs: seq<Frame>)
    requires Sorted(fs) && Distinct(gs) && multiset(fs) == multiset(gs)
    ensures Increasing(fs)
  {
    forall i, j | 0 <= i < j < |fs| ensures fs[i].number < fs[j].number {
      if fs[i].number == fs[j].number { TwiceMeansRepeated(fs, gs, i, j); }
    }
  }

  lemma TwiceMeansRepeated(fs: seq<Frame>, gs: seq<Frame>, i: nat, j: nat)
    requires i < j < |fs| && multiset(fs) == multiset(gs) && fs[i].number == fs[j].number
    ensures !Distinct(gs)
  {
    var x, y := fs[i], fs[j];
    assert x in multiset(gs) && y in multiset(gs);
    if x != y {
      var a :| 0 <= a < |gs| && gs[a] == x;
      var b :| 0 <= b < |gs| && gs[b] == y;
    } else {
      TwoCopies(fs, i, j);
      TwoPlaces(gs, x);
    }
  }

  lemma TwoCopies(fs: seq<Frame>, i: nat, j: nat)
    requires i < j < |fs| && fs[i] == fs[j]
    ensures multiset(fs)[fs[i]] >= 2
  {
    assert fs == fs[..i] + [fs[i]] + fs[i + 1..j] + [fs[j]] + fs[j + 1..];
  }

  lemma TwoPlaces(gs: seq<Frame>, x: Frame)
    requires multiset(gs)[x] >= 2
    ensures exists a, b :: 0 <= a < b < |gs| && gs[a] == gs[b] == x
  {
    var a :| 0 <= a < |gs| && gs[a] == x;
    var rest := gs[..a] + gs[a + 1..];
    TakeOut(gs, a);
    assert x in multiset(rest);
    var k :| 0 <= k < |rest| && rest[k] == x;
    var b := if k < a then k else k + 1;
    assert gs[b] == x && a != b;
    assert gs[if a < b then a else b] == gs[if a < b then b else a] == x;
  }

  lemma SameLast(fs: seq<Frame>, gs: seq<Frame>)
    requires fs != [] && gs != [] && Increasing(fs) && Increasing(gs) && multiset(fs) == multiset(gs)
    ensures fs[|fs| - 1] == gs[|gs| - 1]
  {
    var x, y := fs[|fs| - 1], gs[|gs| - 1];
    assert forall i :: 0 <= i < |fs| - 1 ==> fs[i].number < x.number;
    assert forall i :: 0 <= i < |gs| - 1 ==> gs[i].number < y.number;
    assert x in multiset(gs) && y in multiset(fs);
    var a :| 0 <= a < |gs| && gs[a] == x;
    var b :| 0 <= b < |fs| && fs[b] == y;
  }

  lemma WithoutLast(fs: seq<Frame>)
    requires fs != []
    ensures multiset(fs[..|fs| - 1]) == multiset(fs) - multiset{fs[|fs| - 1]}
  {
    assert fs == fs[..|fs| - 1] + [fs[|fs| - 1]];
  }

  // The frames in increasing order are determined by which frames there are.
  lemma {:induction false} IncreasingUnique(fs: seq<Frame>, gs: seq<Frame>)
    requires Increasing(fs) && Increasing(gs) && multiset(fs) == multiset(gs)
    ensures fs == gs
  {
    if fs == [] || gs == [] {
      assert |fs| == |multiset(fs)| && |gs| == |multiset(gs)|;
    } else {
      SameLast(fs, gs); WithoutLast(fs); WithoutLast(gs);
      IncreasingUnique(fs[..|fs| - 1], gs[..|gs| - 1]);
      SplitLast([], fs); SplitLast([], gs);
    }
  }

  // The bytes of the frames as they stand
  function Concat(fs: seq<Frame>): seq<bv8> { if fs == [] then [] else Concat(fs[..|fs| - 1]) + fs[|fs| - 1].data }

  lemma ConcatNext(fs: seq<Frame>, f: Frame)
    ensures Concat(fs + [f]) == Concat(fs) + f.data
  {
    assert (fs + [f])[..|fs|] == fs;
  }

  lemma {:induction false} ConcatAppend(fs: seq<Frame>, gs: seq<Frame>)
    ensures Concat(fs + gs) == Concat(fs) + Concat(gs)
  {
    if gs == [] {
      assert fs + gs == fs;
    } else {
      var init, last := gs[..|gs| - 1], gs[|gs| - 1];
      ConcatAppend(fs, init);
      ConcatNext(fs + init, last); ConcatNext(init, last);
      SplitLast(fs, gs);
    }
  }

  // ------------------------------------------------------------------ several drains

  function DrainedAll(cfg: Settings, ds: seq<seq<Frame>>): seq<bv8> {
    if ds == [] then [] else var d := ds[|ds| - 1]; DrainedAll(cfg, ds[..|ds| - 1]) + Drained(cfg, d, |d|)
  }

  function LostAll(cfg: Settings, ds: seq<seq<Frame>>): int {
    if ds == [] then 0 else var d := ds[|ds| - 1]; LostAll(cfg, ds[..|ds| - 1]) + Lost(cfg, d, |d|)
  }

  function PaddingAll(cfg: Settings, ds: seq<seq<Frame>>): nat {
    if ds == [] then 0 else var d := ds[|ds| - 1]; PaddingAll(cfg, ds[..|ds| - 1]) + Padding(cfg, d, |d|)
  }

  // Each drain wrote the frames of one window, sorted by number.
  ghost predicate Drains(ws: seq<seq<Frame>>, ds: seq<seq<Frame>>) {
    |ws| == |ds| && forall i :: 0 <= i < |ws| ==> Sorted(ds[i]) && multiset(ds[i]) == multiset(ws[i])
  }

  lemma {:induction false} UnorderedDrain(cfg: Settings, fs: seq<Frame>, n: nat)
    requires !cfg.ordered && n <= |fs|
    ensures Drained(cfg, fs, n) == Concat(fs[..n])
  {
    if n > 0 {
      UnorderedDrain(cfg, fs, n - 1);
      assert fs[..n][..n - 1] == fs[..n - 1] && NoiseBlocks(cfg, 0) == [];
    }
  }
}
