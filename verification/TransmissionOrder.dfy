/** The order in which the simulator sends the symbols of an object. */
module TransmissionOrder {
  import opened Sequences

  // Different symbols, all below n
  ghost predicate Order(s: seq<nat>, n: nat) {
    (forall i :: 0 <= i < |s| ==> s[i] < n) && forall i, j :: 0 <= i < j < |s| ==> s[i] != s[j]
  }

  ghost predicate Shuffled(s: seq<nat>) { Order(s, |s|) }

  ghost function Below(n: nat): set<nat> { if n == 0 then {} else Below(n - 1) + {n - 1} }

  lemma {:induction false} BelowHas(n: nat, v: nat)
    ensures v in Below(n) <==> v < n
  {
    if n > 0 { BelowHas(n - 1, v); }
  }

  ghost function Values(s: seq<nat>): set<nat> { set i | 0 <= i < |s| :: s[i] }

  lemma {:induction false} BelowCount(n: nat)
    ensures |Below(n)| == n
  {
    if n > 0 {
      BelowCount(n - 1); BelowHas(n - 1, n - 1);
    }
  }

  lemma {:induction false} ValuesCount(s: seq<nat>)
    requires forall i, j :: 0 <= i < j < |s| ==> s[i] != s[j]
    ensures |Values(s)| == |s|
  {
    if s != [] {
      var init, last := s[..|s| - 1], s[|s| - 1];
      ValuesCount(init);
      assert Values(s) == Values(init) + {last};
    }
  }

  // A shuffled array still holds every number.
  lemma ShuffledHasAll(s: seq<nat>, v: nat)
    requires Shuffled(s) && v < |s|
    ensures v in s
  {
    BelowCount(|s|); ValuesCount(s); BelowHas(|s|, v);
    if v !in s {
      forall x | x in Values(s) ensures x in Below(|s|) - {v} { BelowHas(|s|, x); }
      SubsetIsSmaller(Values(s), Below(|s|) - {v});
    }
  }

  lemma SubsetIsSmaller(a: set<nat>, b: set<nat>)
    requires a <= b
    ensures |a| <= |b|
  {
    assert b == a + (b - a);
  }

  // ------------------------------------------------------------------ shuffles

  // The random numbers drawn by one shuffle
  type Random = nat -> nat

  ghost function Count(n: nat): (s: seq<nat>)
    ensures |s| == n && Shuffled(s) && forall i :: 0 <= i < n ==> s[i] == i
  {
    seq(n, i requires 0 <= i => i)
  }

  // The numbers below len after n exchanges: entry i with the one that the random number i names
  ghost function Exchanged(len: nat, random: Random, n: nat): (s: seq<nat>)
    requires n <= len
    ensures |s| == len
  {
    if n == 0 then Count(len) else Swap(Exchanged(len, random, n - 1), n - 1, random(n - 1) % len)
  }

  ghost function Shuffle(len: nat, random: Random): (s: seq<nat>)
    ensures |s| == len
  {
    Exchanged(len, random, len)
  }

  lemma SwapShuffled(s: seq<nat>, i: nat, j: nat)
    requires Shuffled(s) && i < |s| && j < |s|
    ensures Shuffled(Swap(s, i, j))
  {}

  lemma {:induction false} ExchangedIsShuffled(len: nat, random: Random, n: nat)
    requires n <= len
    ensures Shuffled(Exchanged(len, random, n))
  {
    if n > 0 {
      ExchangedIsShuffled(len, random, n - 1);
      SwapShuffled(Exchanged(len, random, n - 1), n - 1, random(n - 1) % len);
    }
  }

  // Every number is held once, whatever the random numbers are ...
  lemma ShuffleIsShuffled(len: nat, random: Random)
    ensures Shuffled(Shuffle(len, random))
  {
    ExchangedIsShuffled(len, random, len);
  }

  lemma {:induction false} SameNumbers(len: nat, random: Random, random': Random, n: nat)
    requires n <= len && forall i :: 0 <= i < n ==> random(i) == random'(i)
    ensures Exchanged(len, random, n) == Exchanged(len, random', n)
  {
    if n > 0 { SameNumbers(len, random, random', n - 1); }
  }

  // Another number in place n
  ghost function Choosing(random: Random, n: nat, v: nat): Random { (i: nat) => if i == n then v else random(i) }

  // Of two different orders, the place in t of the number that s has next
  lemma NextPlace(s: seq<nat>, t: seq<nat>, n: nat) returns (j: nat)
    requires Shuffled(s) && Shuffled(t) && |s| == |t| && n < |s| && t[..n] == s[..n]
    ensures n <= j < |t| && t[j] == s[n]
  {
    forall k | 0 <= k < n ensures t[k] == s[k] { assert t[..n][k] == s[..n][k]; }
    ShuffledHasAll(t, s[n]);
    j :| 0 <= j < |t| && t[j] == s[n];
  }

  lemma SwapExtends(s: seq<nat>, t: seq<nat>, n: nat, j: nat)
    requires |s| == |t| && n <= j < |t| && t[..n] == s[..n] && t[j] == s[n]
    ensures Swap(t, n, j)[..n + 1] == s[..n + 1]
  {
    assert s[..n + 1] == s[..n] + [s[n]];
    assert Swap(t, n, j)[..n] == t[..n];
  }

  lemma NextExchange(len: nat, before: Random, n: nat, j: nat, random: Random)
    requires n < len && j < len && random == Choosing(before, n, j)
    ensures Exchanged(len, random, n + 1) == Swap(Exchanged(len, before, n), n, j)
  {
    SameNumbers(len, before, random, n);
    BelowIsRemainder(j, len);
  }

  lemma {:induction false} FirstEntries(s: seq<nat>, len: nat, n: nat) returns (random: Random)
    requires Shuffled(s) && n <= |s| == len
    ensures Exchanged(len, random, n)[..n] == s[..n]
  {
    if n == 0 {
      random := i => 0;
    } else {
      var before := FirstEntries(s, len, n - 1);
      var t := Exchanged(len, before, n - 1);
      ExchangedIsShuffled(len, before, n - 1);
      var j := NextPlace(s, t, n - 1);
      random := Choosing(before, n - 1, j);
      NextExchange(len, before, n - 1, j, random);
      SwapExtends(s, t, n - 1, j);
    }
  }

  lemma BelowIsRemainder(j: nat, len: nat)
    requires j < len
    ensures j % len == j
  {}

  // ... and every order comes out for some.
  lemma EveryOrder(s: seq<nat>)
    requires Shuffled(s)
    ensures exists random: Random :: Shuffle(|s|, random) == s
  {
    var random := FirstEntries(s, |s|, |s|);
    assert Shuffle(|s|, random)[..|s|] == Shuffle(|s|, random) && s[..|s|] == s;
  }

  // ------------------------------------------------------------------ the modes

  datatype Mode = AllRandom | FewSourceSymbols | FewSourceSymbolsFirst | NonSystematic | Sequential | InverseSequential
                | SequentialSourceThenRandomRepair | SequentialRepairThenRandomSource | BroadcastWithUnicastRepair

  // The symbols of an object, numbered from 0, the source symbols before the repair symbols; how many source symbols
  // are to be sent in the modes that send only some; and the random numbers of a first and a second shuffle
  datatype Plan = Plan(src: nat, rep: nat, few: nat, random: Random, random': Random)

  // Repair symbols counted from 0
  ghost function Behind(s: seq<nat>, src: nat): (r: seq<nat>)
    ensures |r| == |s| && forall i :: 0 <= i < |r| ==> r[i] == s[i] + src
  {
    seq(|s|, i requires 0 <= i < |s| => s[i] + src)
  }

  // A shuffle of source and repair symbols, in which the source symbols are replaced by p
  ghost function MixedWith(s: seq<nat>, p: seq<nat>, src: nat): (r: seq<nat>)
    requires |p| <= src
    ensures |r| == |s| && forall i :: 0 <= i < |r| ==> r[i] == if s[i] < |p| then p[s[i]] else s[i] + (src - |p|)
  {
    seq(|s|, i requires 0 <= i < |s| => if s[i] < |p| then p[s[i]] else s[i] + (src - |p|))
  }

  // What each mode sends
  ghost function Sent(mode: Mode, p: Plan): seq<nat>
    requires p.few <= p.src
  {
    match mode
    case AllRandom => Shuffle(p.src + p.rep, p.random)
    case FewSourceSymbols => MixedWith(Shuffle(p.rep + p.few, p.random'), Shuffle(p.few, p.random), p.src)
    case FewSourceSymbolsFirst => Shuffle(p.few, p.random) + Behind(Shuffle(p.rep, p.random'), p.src)
    case NonSystematic => Behind(Shuffle(p.rep, p.random), p.src)
    case Sequential => Count(p.src + p.rep)
    case InverseSequential => Behind(Count(p.rep), p.src) + Count(p.src)
    case SequentialSourceThenRandomRepair => Count(p.src) + Behind(Shuffle(p.rep, p.random), p.src)
    case SequentialRepairThenRandomSource => Behind(Count(p.rep), p.src) + Shuffle(p.src, p.random)
    case BroadcastWithUnicastRepair => Behind(Shuffle(p.rep, p.random), p.src) + Count(p.few)
  }

  ghost predicate AllRepair(s: seq<nat>, src: nat, rep: nat) { forall v :: src <= v < src + rep ==> v in s }

  // Exactly the first few source symbols
  ghost predicate OnlyFew(s: seq<nat>, src: nat, few: nat) { forall v :: 0 <= v < src ==> (v in s <==> v < few) }

  ghost predicate SourceIn(s: seq<nat>, from: nat, to: nat, src: nat) {
    forall i :: from <= i < to && i < |s| ==> s[i] < src
  }

  ghost predicate RepairIn(s: seq<nat>, from: nat, to: nat, src: nat) {
    forall i :: from <= i < to && i < |s| ==> src <= s[i]
  }

  // What a mode promises: which source symbols are sent, and where
  ghost predicate Promised(mode: Mode, s: seq<nat>, src: nat, rep: nat, few: nat) {
    && Order(s, src + rep) && AllRepair(s, src, rep)
    && match mode
       case AllRandom => |s| == src + rep
       case FewSourceSymbols => |s| == rep + few && OnlyFew(s, src, few)
       case FewSourceSymbolsFirst =>
         |s| == rep + few && OnlyFew(s, src, few) && SourceIn(s, 0, few, src) && RepairIn(s, few, rep + few, src)
       case NonSystematic => |s| == rep && RepairIn(s, 0, rep, src)
       case Sequential => |s| == src + rep && forall i :: 0 <= i < |s| ==> s[i] == i
       case InverseSequential =>
         |s| == src + rep && forall i :: 0 <= i < |s| ==> s[i] == if i < rep then i + src else i - rep
       case SequentialSourceThenRandomRepair =>
         |s| == src + rep && (forall i :: 0 <= i < src ==> s[i] == i) && RepairIn(s, src, src + rep, src)
       case SequentialRepairThenRandomSource =>
         |s| == src + rep && (forall i :: 0 <= i < rep ==> s[i] == i + src) && SourceIn(s, rep, src + rep, src)
       case BroadcastWithUnicastRepair =>
         |s| == rep + few && RepairIn(s, 0, rep, src) && forall i :: rep <= i < rep + few ==> s[i] == i - rep
  }

  // The first few source symbols and all repair symbols, in either order
  ghost predicate Both(s: seq<nat>, p: seq<nat>, q: seq<nat>, src: nat) {
    s == p + Behind(q, src) || s == Behind(q, src) + p
  }

  lemma EntryOfBoth(s: seq<nat>, p: seq<nat>, q: seq<nat>, src: nat, i: nat)
    requires Both(s, p, q, src) && i < |s|
    ensures (exists j :: 0 <= j < |p| && s[i] == p[j]) || (exists j :: 0 <= j < |q| && s[i] == q[j] + src)
  {
    if s == p + Behind(q, src) {
      if i < |p| { assert s[i] == p[i]; } else { assert s[i] == q[i - |p|] + src; }
    } else {
      if i < |q| { assert s[i] == q[i] + src; } else { assert s[i] == p[i - |q|]; }
    }
  }

  lemma BothHave(s: seq<nat>, p: seq<nat>, q: seq<nat>, src: nat, v: nat)
    requires Both(s, p, q, src) && Shuffled(p) && Shuffled(q) && |p| <= src
    ensures v in s <==> v < |p| || src <= v < src + |q|
  {
    if v < |p| { ShuffledHasAll(p, v); }
    if src <= v < src + |q| {
      ShuffledHasAll(q, v - src);
      var j :| 0 <= j < |q| && q[j] == v - src;
      assert Behind(q, src)[j] == v;
    }
    if v in s {
      var i :| 0 <= i < |s| && s[i] == v;
      EntryOfBoth(s, p, q, src, i);
    }
  }

  lemma BothOrdered(s: seq<nat>, p: seq<nat>, q: seq<nat>, src: nat)
    requires Both(s, p, q, src) && Shuffled(p) && Shuffled(q) && |p| <= src
    ensures Order(s, src + |q|)
  {}

  lemma TwoParts(s: seq<nat>, p: seq<nat>, q: seq<nat>, src: nat)
    requires Both(s, p, q, src) && Shuffled(p) && Shuffled(q) && |p| <= src
    ensures Order(s, src + |q|) && AllRepair(s, src, |q|) && OnlyFew(s, src, |p|)
  {
    BothOrdered(s, p, q, src);
    forall v: nat ensures v in s <==> v < |p| || src <= v < src + |q| { BothHave(s, p, q, src, v); }
  }

  lemma MixedHave(s: seq<nat>, p: seq<nat>, src: nat, rep: nat, v: nat)
    requires Shuffled(s) && Shuffled(p) && |p| <= src && |s| == rep + |p|
    ensures v in MixedWith(s, p, src) <==> v < |p| || src <= v < src + rep
  {
    var t := MixedWith(s, p, src);
    if v < |p| {
      ShuffledHasAll(p, v);
      var j :| 0 <= j < |p| && p[j] == v;
      ShuffledHasAll(s, j);
      var i :| 0 <= i < |s| && s[i] == j;
      assert t[i] == v;
    }
    if src <= v < src + rep {
      var w := v - (src - |p|);
      ShuffledHasAll(s, w);
      var i :| 0 <= i < |s| && s[i] == w;
      assert t[i] == v;
    }
  }

  lemma Mixed(s: seq<nat>, p: seq<nat>, src: nat, rep: nat)
    requires Shuffled(s) && Shuffled(p) && |p| <= src && |s| == rep + |p|
    ensures Order(MixedWith(s, p, src), src + rep) && AllRepair(MixedWith(s, p, src), src, rep)
    ensures OnlyFew(MixedWith(s, p, src), src, |p|)
  {
    forall v: nat ensures v in MixedWith(s, p, src) <==> v < |p| || src <= v < src + rep {
      MixedHave(s, p, src, rep, v);
    }
  }

  lemma AllSymbols(s: seq<nat>, src: nat, rep: nat)
    requires Shuffled(s) && |s| == src + rep
    ensures AllRepair(s, src, rep)
  {
    forall v | src <= v < src + rep ensures v in s { ShuffledHasAll(s, v); }
  }

  lemma WithRandomRepair(s: seq<nat>, p: seq<nat>, src: nat, rep: nat, random: Random)
    requires Both(s, p, Shuffle(rep, random), src) && Shuffled(p) && |p| <= src
    ensures Order(s, src + rep) && AllRepair(s, src, rep) && OnlyFew(s, src, |p|)
  {
    ShuffleIsShuffled(rep, random);
    TwoParts(s, p, Shuffle(rep, random), src);
  }

  // Whatever the random numbers are
  ghost predicate Keeps(mode: Mode, p: Plan)
    requires p.few <= p.src
  {
    Promised(mode, Sent(mode, p), p.src, p.rep, p.few)
  }

  lemma RandomKeeps(p: Plan)
    requires p.few <= p.src
    ensures Keeps(AllRandom, p)
  {
    ShuffleIsShuffled(p.src + p.rep, p.random);
    AllSymbols(Sent(AllRandom, p), p.src, p.rep);
  }

  lemma FewKeeps(p: Plan)
    requires p.few <= p.src
    ensures Keeps(FewSourceSymbols, p)
  {
    ShuffleIsShuffled(p.rep + p.few, p.random'); ShuffleIsShuffled(p.few, p.random);
    Mixed(Shuffle(p.rep + p.few, p.random'), Shuffle(p.few, p.random), p.src, p.rep);
  }

  lemma FewFirstKeeps(p: Plan)
    requires p.few <= p.src
    ensures Keeps(FewSourceSymbolsFirst, p)
  {
    ShuffleIsShuffled(p.few, p.random);
    WithRandomRepair(Sent(FewSourceSymbolsFirst, p), Shuffle(p.few, p.random), p.src, p.rep, p.random');
  }

  lemma RepairOnlyKeeps(p: Plan)
    requires p.few <= p.src
    ensures Keeps(NonSystematic, p)
  {
    var s := Sent(NonSystematic, p);
    assert s == [] + s;
    WithRandomRepair(s, [], p.src, p.rep, p.random);
  }

  lemma InOrderKeeps(p: Plan)
    requires p.few <= p.src
    ensures Keeps(Sequential, p)
  {
    AllSymbols(Sent(Sequential, p), p.src, p.rep);
  }

  lemma InverseKeeps(p: Plan)
    requires p.few <= p.src
    ensures Keeps(InverseSequential, p)
  {
    TwoParts(Sent(InverseSequential, p), Count(p.src), Count(p.rep), p.src);
  }

  lemma RandomRepairKeeps(p: Plan)
    requires p.few <= p.src
    ensures Keeps(SequentialSourceThenRandomRepair, p)
  {
    WithRandomRepair(Sent(SequentialSourceThenRandomRepair, p), Count(p.src), p.src, p.rep, p.random);
  }

  lemma RandomSourceKeeps(p: Plan)
    requires p.few <= p.src
    ensures Keeps(SequentialRepairThenRandomSource, p)
  {
    ShuffleIsShuffled(p.src, p.random);
    TwoParts(Sent(SequentialRepairThenRandomSource, p), Shuffle(p.src, p.random), Count(p.rep), p.src);
  }

  lemma UnicastKeeps(p: Plan)
    requires p.few <= p.src
    ensures Keeps(BroadcastWithUnicastRepair, p)
  {
    WithRandomRepair(Sent(BroadcastWithUnicastRepair, p), Count(p.few), p.src, p.rep, p.random);
  }

  // Every mode keeps its promise.
  lemma ModesKeepPromises(mode: Mode, p: Plan)
    requires p.few <= p.src
    ensures Promised(mode, Sent(mode, p), p.src, p.rep, p.few)
  {
    RandomKeeps(p); FewKeeps(p); FewFirstKeeps(p); RepairOnlyKeeps(p); InOrderKeeps(p); InverseKeeps(p);
    RandomRepairKeeps(p); RandomSourceKeeps(p); UnicastKeeps(p);
    assert Keeps(mode, p);
  }

  // ------------------------------------------------------------------ shuffling in place

  // Part of an array
  ghost function Part(a: array<nat>, at: nat, len: nat): (s: seq<nat>)
    requires at + len <= a.Length
    reads a
    ensures |s| == len
  {
    a[at..at + len]
  }

  method FillInOrder(a: array<nat>, at: nat, len: nat)
    requires at + len <= a.Length
    modifies a
    ensures Part(a, at, len) == Count(len)
    ensures forall j :: 0 <= j < at || at + len <= j < a.Length ==> a[j] == old(a[j])
  {
    for i := 0 to len
      invariant forall j :: at <= j < at + i ==> a[j] == j - at
      invariant forall j :: 0 <= j < at || at + len <= j < a.Length ==> a[j] == old(a[j])
    {
      a[at + i] := i;
    }
  }

  method RandomizeArray(a: array<nat>, at: nat, len: nat, random: Random)
    requires at + len <= a.Length
    modifies a
    ensures Part(a, at, len) == Shuffle(len, random)
    ensures forall j :: 0 <= j < at || at + len <= j < a.Length ==> a[j] == old(a[j])
  {
    FillInOrder(a, at, len);
    for i := 0 to len
      invariant Part(a, at, len) == Exchanged(len, random, i)
      invariant forall j :: 0 <= j < at || at + len <= j < a.Length ==> a[j] == old(a[j])
    {
      Exchange(a, at, len, i, random(i) % len);
    }
  }

  method Exchange(a: array<nat>, at: nat, len: nat, i: nat, randIdx: nat)
    requires at + len <= a.Length && i < len && randIdx < len
    modifies a
    ensures Part(a, at, len) == Swap(old(Part(a, at, len)), i, randIdx)
    ensures forall j :: 0 <= j < at || at + len <= j < a.Length ==> a[j] == old(a[j])
  {
    var backup := a[at + i];
    a[at + i] := a[at + randIdx];
    a[at + randIdx] := backup;
  }

  method NewShuffle(len: nat, random: Random) returns (a: array<nat>)
    ensures fresh(a) && a.Length == len && a[..] == Shuffle(len, random)
  {
    a := new nat[len];
    RandomizeArray(a, 0, len, random);
    assert Part(a, 0, len) == a[..];
  }

  method InOrder(len: nat) returns (a: array<nat>)
    ensures fresh(a) && a.Length == len && a[..] == Count(len)
  {
    a := new nat[len];
    FillInOrder(a, 0, len);
    assert Part(a, 0, len) == a[..];
  }

  // ------------------------------------------------------------------ filling in the order

  // Part of an array from place at on, with src added
  method AddTo(a: array<nat>, at: nat, len: nat, src: nat)
    requires at + len <= a.Length
    modifies a
    ensures Part(a, at, len) == Behind(old(Part(a, at, len)), src)
    ensures forall j :: 0 <= j < at || at + len <= j < a.Length ==> a[j] == old(a[j])
  {
    ghost var s := Part(a, at, len);
    for i := 0 to len
      invariant forall j :: 0 <= j < i ==> a[at + j] == s[j] + src
      invariant forall j :: i <= j < len ==> a[at + j] == s[j]
      invariant forall j :: 0 <= j < at || at + len <= j < a.Length ==> a[j] == old(a[j])
    {
      assert a[at + i] == s[i];
      a[at + i] := a[at + i] + src;
    }
    assert forall j :: 0 <= j < len ==> Part(a, at, len)[j] == a[at + j];
  }

  method CopyInto(a: array<nat>, at: nat, p: array<nat>)
    requires a != p && at + p.Length <= a.Length
    modifies a
    ensures Part(a, at, p.Length) == p[..]
    ensures forall j :: 0 <= j < at || at + p.Length <= j < a.Length ==> a[j] == old(a[j])
  {
    for i := 0 to p.Length
      invariant forall j :: at <= j < at + i ==> a[j] == p[j - at]
      invariant forall j :: 0 <= j < at || at + p.Length <= j < a.Length ==> a[j] == old(a[j])
    {
      a[at + i] := p[i];
    }
  }

  // An array is its two parts.
  lemma PartsJoin(a: array<nat>, m: nat, n: nat)
    requires m + n <= a.Length
    ensures a[..m + n] == Part(a, 0, m) + Part(a, m, n)
  {}

  lemma PartKept(a: seq<nat>, b: seq<nat>, at: nat, len: nat)
    requires |a| == |b| && at + len <= |a| && forall j :: at <= j < at + len ==> a[j] == b[j]
    ensures a[at..at + len] == b[at..at + len]
  {}

  // Shuffled repair symbols from place at on
  method RandomRepair(a: array<nat>, at: nat, src: nat, rep: nat, random: Random)
    requires at + rep <= a.Length
    modifies a
    ensures Part(a, at, rep) == Behind(Shuffle(rep, random), src)
    ensures forall j :: 0 <= j < at || at + rep <= j < a.Length ==> a[j] == old(a[j])
  {
    RandomizeArray(a, at, rep, random);
    AddTo(a, at, rep, src);
  }

  method SendAllRandom(a: array<nat>, p: Plan)
    requires a.Length == p.src + p.rep && p.few <= p.src
    modifies a
    ensures a[..] == Sent(AllRandom, p)
  {
    RandomizeArray(a, 0, p.src + p.rep, p.random);
    assert Part(a, 0, p.src + p.rep) == a[..];
  }

  method SendFewSource(a: array<nat>, p: Plan)
    requires a.Length == p.src + p.rep && p.few <= p.src
    modifies a
    ensures a[..p.rep + p.few] == Sent(FewSourceSymbols, p)
  {
    var randSrcIdx: array<nat> := NewShuffle(p.few, p.random);
    RandomizeArray(a, 0, p.rep + p.few, p.random');
    Mix(a, p.rep + p.few, randSrcIdx, p.src);
  }

  method Mix(a: array<nat>, len: nat, r: array<nat>, src: nat)
    requires a != r && len <= a.Length && r.Length <= src
    modifies a
    ensures a[..len] == MixedWith(old(Part(a, 0, len)), r[..], src)
  {
    ghost var s := Part(a, 0, len);
    var offset := src - r.Length;
    for i := 0 to len
      invariant forall j :: 0 <= j < i ==> a[j] == if s[j] < r.Length then r[s[j]] else s[j] + offset
      invariant forall j :: i <= j < len ==> a[j] == s[j]
    {
      var idx := a[i];
      if idx < r.Length {
        a[i] := r[idx];
      } else {
        a[i] := a[i] + offset;
      }
    }
  }

  method SendFewSourceFirst(a: array<nat>, p: Plan)
    requires a.Length == p.src + p.rep && p.few <= p.src
    modifies a
    ensures a[..p.rep + p.few] == Sent(FewSourceSymbolsFirst, p)
  {
    var randSrcIdx: array<nat> := NewShuffle(p.few, p.random);
    RandomRepair(a, p.few, p.src, p.rep, p.random');
    ghost var before := a[..];
    CopyInto(a, 0, randSrcIdx);
    PartKept(before, a[..], p.few, p.rep);
    PartsJoin(a, p.few, p.rep);
  }

  method SendRepairOnly(a: array<nat>, p: Plan)
    requires a.Length == p.src + p.rep && p.few <= p.src
    modifies a
    ensures a[..p.rep] == Sent(NonSystematic, p)
  {
    RandomRepair(a, 0, p.src, p.rep, p.random);
    assert Part(a, 0, p.rep) == a[..p.rep];
  }

  method SendSequential(a: array<nat>, p: Plan)
    requires a.Length == p.src + p.rep && p.few <= p.src
    modifies a
    ensures a[..] == Sent(Sequential, p)
  {
    FillInOrder(a, 0, p.src + p.rep);
    assert Part(a, 0, p.src + p.rep) == a[..];
  }

  method SendInverse(a: array<nat>, p: Plan)
    requires a.Length == p.src + p.rep && p.few <= p.src
    modifies a
    ensures a[..] == Sent(InverseSequential, p)
  {
    for i := 0 to p.src + p.rep
      invariant forall j :: 0 <= j < i ==> a[j] == if j < p.rep then j + p.src else j - p.rep
    {
      a[i] := if i < p.rep then i + p.src else i - p.rep;
    }
  }

  method SendSourceThenRandomRepair(a: array<nat>, p: Plan)
    requires a.Length == p.src + p.rep && p.few <= p.src
    modifies a
    ensures a[..] == Sent(SequentialSourceThenRandomRepair, p)
  {
    RandomizeArray(a, p.src, p.rep, p.random);
    ghost var q := Part(a, p.src, p.rep);
    for i := 0 to p.src + p.rep
      invariant forall j :: 0 <= j < i ==> a[j] == if j < p.src then j else q[j - p.src] + p.src
      invariant forall j :: i <= j < p.src + p.rep && p.src <= j ==> a[j] == q[j - p.src]
    {
      if i < p.src {
        a[i] := i;
      } else {
        a[i] := a[i] + p.src;
      }
    }
  }

  method SendRepairThenRandomSource(a: array<nat>, p: Plan)
    requires a.Length == p.src + p.rep && p.few <= p.src
    modifies a
    ensures a[..] == Sent(SequentialRepairThenRandomSource, p)
  {
    RandomizeArray(a, p.rep, p.src, p.random);
    ghost var q := Part(a, p.rep, p.src);
    for i := 0 to p.rep
      invariant forall j :: 0 <= j < i ==> a[j] == j + p.src
      invariant forall j :: p.rep <= j < p.src + p.rep ==> a[j] == q[j - p.rep]
    {
      a[i] := i + p.src;
    }
  }

  method SendRepairThenFirstSource(a: array<nat>, p: Plan)
    requires a.Length == p.src + p.rep && p.few <= p.src
    modifies a
    ensures a[..p.rep + p.few] == Sent(BroadcastWithUnicastRepair, p)
  {
    var srcIdx: array<nat> := InOrder(p.few);
    RandomRepair(a, 0, p.src, p.rep, p.random);
    ghost var before := a[..];
    CopyInto(a, p.rep, srcIdx);
    PartKept(before, a[..], 0, p.rep);
    PartsJoin(a, p.rep, p.few);
  }

  /** define_symbol_tx_order */
  method DefineSymbolTxOrder(mode: Mode, a: array<nat>, p: Plan) returns (steps: nat)
    requires a.Length == p.src + p.rep && p.few <= p.src
    modifies a
    ensures steps <= a.Length && a[..steps] == Sent(mode, p) && Promised(mode, a[..steps], p.src, p.rep, p.few)
  {
    steps := p.src + p.rep;
    match mode {
      case AllRandom => SendAllRandom(a, p);
      case FewSourceSymbols => SendFewSource(a, p); steps := p.rep + p.few;
      case FewSourceSymbolsFirst => SendFewSourceFirst(a, p); steps := p.rep + p.few;
      case NonSystematic => SendRepairOnly(a, p); steps := p.rep;
      case Sequential => SendSequential(a, p);
      case InverseSequential => SendInverse(a, p);
      case SequentialSourceThenRandomRepair => SendSourceThenRandomRepair(a, p);
      case SequentialRepairThenRandomSource => SendRepairThenRandomSource(a, p);
      case BroadcastWithUnicastRepair => SendRepairThenFirstSource(a, p); steps := p.rep + p.few;
    }
    assert a[..a.Length] == a[..];
    ModesKeepPromises(mode, p);
  }
}
