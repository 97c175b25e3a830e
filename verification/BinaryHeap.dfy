/** The binary heap and heap sort, in place. */
module BinaryHeap {
  import opened Options
  import opened Sequences
  import opened HeapOrder

  method SwapCells<T>(tree: array<T>, i: nat, j: nat)
    requires i < tree.Length && j < tree.Length
    modifies tree
    ensures tree[..] == Swap(old(tree[..]), i, j)
  {
    var temp := tree[i];
    tree[i] := tree[j];
    tree[j] := temp;
  }

  method Heapify<T>(tree: array<T>, count: nat, compare: Less<T>, i: nat)
    requires count <= tree.Length
    modifies tree
    ensures tree[..] == if i < count then SiftDown(old(tree[..]), count, i, compare) else old(tree[..])
    decreases count - i
  {
    var l, r, newIndex := Left(i), Right(i), i;
    if l < count && compare(tree[l], tree[i]) {
      newIndex := l;
    }
    if r < count && compare(tree[r], tree[newIndex]) {
      newIndex := r;
    }
    if newIndex != i {
      SwapCells(tree, i, newIndex);
      Heapify(tree, count, compare, newIndex);
    }
  }

  method SiftFromBottom<T>(tree: array<T>, compare: Less<T>, start: nat)
    requires start < tree.Length
    modifies tree
    ensures tree[..] == SiftUp(old(tree[..]), start, compare)
  {
    var i: nat := start;
    while i != 0 && compare(tree[i], tree[Parent(i)])
      invariant 0 <= i < tree.Length && SiftUp(tree[..], i, compare) == SiftUp(old(tree[..]), start, compare)
      decreases i
    {
      SwapCells(tree, i, Parent(i));
      i := Parent(i);
    }
  }

  // ------------------------------------------------------------------ the priority queue

  ghost predicate ComesFirst<T>(x: T, among: multiset<T>, lt: Less<T>) { forall y :: y in among ==> !lt(y, x) }

  class Heap<T(0,!new)> {
    const capacity: nat
    const compare: Less<T>
    const tree: array<T>
    var count: nat

    ghost predicate Shape()
      reads this
    {
      tree.Length == capacity && count <= capacity
    }

    // The elements, how often each
    ghost function Elements(): (m: multiset<T>)
      requires Shape()
      reads this, tree
      ensures |m| == count
    {
      multiset(tree[..count])
    }

    ghost predicate Valid()
      reads this, tree
    {
      Shape() && HeapFrom(tree[..], count, 0, compare)
    }

    constructor (size: nat, order: Less<T>)
      ensures Valid() && fresh(tree) && capacity == size && compare == order && count == 0 && Elements() == multiset{}
    {
      capacity, compare, count := size, order, 0;
      tree := new T[size];
    }

    // Dropped if the heap is full; whatever the order, nothing else is lost.
    method Push(data: T)
      requires Shape()
      modifies this`count, tree
      ensures Shape() && (old(Valid()) && StrictPartialOrder(compare) && PushSafe(compare) ==> Valid())
      ensures if old(count) < capacity then count == old(count) + 1 && Elements() == old(Elements()) + multiset{data}
              else count == old(count) && tree[..] == old(tree[..])
    {
      if count < capacity {
        ghost var before := tree[..];
        PushedConserves(before, count, data, compare);
        PushedIsHeap(before, count, data, compare);
        Append(data);
      }
    }

    // The new element goes last and rises.
    method Append(data: T)
      requires Shape() && count < capacity
      modifies this`count, tree
      ensures count == old(count) + 1 && tree[..] == Pushed(old(tree[..]), old(count), data, compare)
    {
      var i := count;
      count := count + 1;
      tree[i] := data;
      SiftFromBottom(tree, compare, i);
    }

    // Takes out an element that nothing in the heap comes before.
    method Pop() returns (out: Option<T>)
      requires Shape()
      modifies this`count, tree
      ensures Shape() && (out.None? <==> old(count) == 0)
      ensures out.Some? ==> out.value == old(tree[0]) && out.value in old(Elements())
      ensures out.Some? ==> Elements() == old(Elements()) - multiset{out.value}
      ensures old(Valid()) && StrictPartialOrder(compare) ==> Valid()
      ensures old(Valid()) && StrictWeakOrder(compare) && out.Some? ==> ComesFirst(out.value, old(Elements()), compare)
      ensures out.None? ==> count == 0 && tree[..] == old(tree[..])
    {
      if count > 0 {
        ghost var before := tree[..];
        out := Some(tree[0]);
        RemoveRoot();
        PoppedConserves(before, count, compare);
        PoppedIsHeap(before, count, compare);
        return;
      }
      return None;
    }

    // The last element takes the root's place and sinks.
    method RemoveRoot()
      requires Shape() && count > 0
      modifies this`count, tree
      ensures count == old(count) - 1 && tree[..] == Popped(old(tree[..]), count, compare)
    {
      count := count - 1;
      tree[0] := tree[count];
      Heapify(tree, count, compare, 0);
    }
  }

  // The array after a push onto n elements, and after the root of n + 1 elements was taken
  function Pushed<T>(s: seq<T>, n: nat, x: T, lt: Less<T>): (r: seq<T>)
    requires n < |s|
    ensures |r| == |s|
  {
    SiftUp(s[n := x], n, lt)
  }

  function Popped<T>(s: seq<T>, n: nat, lt: Less<T>): (r: seq<T>)
    requires n < |s|
    ensures |r| == |s|
  {
    if 0 < n then SiftDown(s[0 := s[n]], n, 0, lt) else s[0 := s[n]]
  }

  lemma PushedConserves<T>(s: seq<T>, n: nat, x: T, lt: Less<T>)
    requires n < |s|
    ensures multiset(Pushed(s, n, x, lt)[..n + 1]) == multiset(s[..n]) + multiset{x}
  {
    SiftUpMoves(s[n := x], n + 1, n, lt);
    assert s[n := x][..n + 1] == s[..n] + [x];
  }

  lemma PushedIsHeap<T(!new)>(s: seq<T>, n: nat, x: T, lt: Less<T>)
    requires n < |s|
    ensures HeapFrom(s, n, 0, lt) && StrictPartialOrder(lt) && PushSafe(lt) ==>
              HeapFrom(Pushed(s, n, x, lt), n + 1, 0, lt)
  {
    if HeapFrom(s, n, 0, lt) && StrictPartialOrder(lt) && PushSafe(lt) {
      HeapSame(s, s[n := x], n, lt);
      LastRises(s[n := x], n, lt);
      SiftUpRestores(s[n := x], n + 1, n, lt);
    }
  }

  lemma HeapSame<T>(before: seq<T>, after: seq<T>, n: nat, lt: Less<T>)
    requires n <= |before| == |after| && HeapFrom(before, n, 0, lt) && forall i :: 0 <= i < n ==> before[i] == after[i]
    ensures HeapFrom(after, n, 0, lt)
  {
    forall i | 0 <= i < n ensures Node(after, n, i, lt) { assert Node(before, n, i, lt); }
  }

  lemma LastReplacesRoot<T>(before: seq<T>, after: seq<T>, n: nat)
    requires n < |before| && after == before[0 := before[n]]
    ensures multiset(before[..n + 1]) == multiset(after[..n]) + multiset{before[0]}
  {
    if n == 0 {
      assert before[..1] == [before[0]];
    } else {
      assert before[..n + 1] == [before[0]] + before[1..n] + [before[n]];
      assert after[..n] == [before[n]] + before[1..n];
    }
  }

  lemma RootComesFirstOfAll<T(!new)>(s: seq<T>, n: nat, x: T, lt: Less<T>)
    requires StrictWeakOrder(lt) && 0 < n <= |s| && HeapFrom(s, n, 0, lt) && x in multiset(s[..n])
    ensures !lt(x, s[0])
  {
    assert x in s[..n];
    var k :| 0 <= k < n && s[k] == x;
    RootComesFirst(s, n, k, lt);
  }

  lemma PoppedConserves<T>(s: seq<T>, n: nat, lt: Less<T>)
    requires n < |s|
    ensures multiset(Popped(s, n, lt)[..n]) == multiset(s[..n + 1]) - multiset{s[0]}
    ensures s[0] in multiset(s[..n + 1])
  {
    LastReplacesRoot(s, s[0 := s[n]], n);
    if n > 0 { SiftDownMoves(s[0 := s[n]], n, 0, lt); }
  }

  lemma PoppedIsHeap<T(!new)>(s: seq<T>, n: nat, lt: Less<T>)
    requires n < |s|
    ensures StrictPartialOrder(lt) && HeapFrom(s, n + 1, 0, lt) ==> HeapFrom(Popped(s, n, lt), n, 0, lt)
    ensures StrictWeakOrder(lt) && HeapFrom(s, n + 1, 0, lt) ==> ComesFirst(s[0], multiset(s[..n + 1]), lt)
  {
    var t := s[0 := s[n]];
    if StrictPartialOrder(lt) && HeapFrom(s, n + 1, 0, lt) && n > 0 {
      forall i | 0 < i < n ensures Node(t, n, i, lt) { assert Node(s, n + 1, i, lt); }
      SiftDownRestores(t, n, 0, 0, lt);
    }
    if StrictWeakOrder(lt) && HeapFrom(s, n + 1, 0, lt) {
      forall x | x in multiset(s[..n + 1]) ensures !lt(x, s[0]) { RootComesFirstOfAll(s, n + 1, x, lt); }
    }
  }

  // ------------------------------------------------------------------ heap sort

  // No earlier element is before a later one.
  ghost predicate Backwards<T>(s: seq<T>, lt: Less<T>) { forall i, j :: 0 <= i < j < |s| ==> !lt(s[i], s[j]) }

  // The elements from n on are in their places.
  ghost predicate SortedFrom<T>(s: seq<T>, n: nat, lt: Less<T>) {
    forall i, j :: 0 <= i < j < |s| && n <= j ==> !lt(s[i], s[j])
  }

  ghost predicate Permutes<T>(s: seq<T>, t: seq<T>) { |s| == |t| && multiset(s) == multiset(t) }

  lemma SiftDownPermutes<T>(s: seq<T>, n: nat, i: nat, lt: Less<T>)
    requires i < n <= |s|
    ensures Permutes(SiftDown(s, n, i, lt), s)
  {
    var r := SiftDown(s, n, i, lt);
    SiftDownMoves(s, n, i, lt);
    assert r[n..] == s[n..];
    assert s == s[..n] + s[n..];
    assert r == r[..n] + r[n..];
  }

  lemma SwapPermutes<T>(s: seq<T>, i: nat, j: nat)
    requires i < |s| && j < |s|
    ensures Permutes(Swap(s, i, j), s)
  {}

  // The root goes behind the shrunken heap.
  lemma RootGoesBehind<T(!new)>(s: seq<T>, t: seq<T>, n: nat, lt: Less<T>)
    requires StrictWeakOrder(lt) && 0 < n < |s| && HeapFrom(s, n + 1, 0, lt) && t == Swap(s, 0, n)
    ensures HeapBut(t, n, 0, 0, lt) && forall x :: x in multiset(t[..n]) ==> x in multiset(s[..n + 1])
  {
    forall i | 0 < i < n ensures Node(t, n, i, lt) { assert Node(s, n + 1, i, lt); }
    forall x | x in multiset(t[..n]) ensures x in multiset(s[..n + 1]) {
      assert x in t[..n];
      var k :| 0 <= k < n && t[k] == x;
      assert s[if k == 0 then n else k] == x && x in s[..n + 1];
    }
  }

  lemma SortStep<T(!new)>(s: seq<T>, n: nat, lt: Less<T>)
    requires StrictWeakOrder(lt) && 0 < n < |s| && HeapFrom(s, n + 1, 0, lt) && SortedFrom(s, n + 1, lt)
    ensures var r := SiftDown(Swap(s, 0, n), n, 0, lt);
            HeapFrom(r, n, 0, lt) && SortedFrom(r, n, lt) && Permutes(r, s)
  {
    var t := Swap(s, 0, n);
    RootGoesBehind(s, t, n, lt);
    SiftDownRestores(t, n, 0, 0, lt);
    SiftDownMoves(t, n, 0, lt);
    SiftDownPermutes(t, n, 0, lt);
    SwapPermutes(s, 0, n);
    SortedGrows(s, t, SiftDown(t, n, 0, lt), n, lt);
  }

  lemma SortedGrows<T(!new)>(s: seq<T>, t: seq<T>, r: seq<T>, n: nat, lt: Less<T>)
    requires StrictWeakOrder(lt) && 0 < n < |s| && HeapFrom(s, n + 1, 0, lt) && SortedFrom(s, n + 1, lt)
    requires t == Swap(s, 0, n) && |r| == |s| && (forall k :: n <= k < |s| ==> r[k] == t[k])
             && multiset(r[..n]) == multiset(t[..n])
    requires forall x :: x in multiset(t[..n]) ==> x in multiset(s[..n + 1])
    ensures SortedFrom(r, n, lt)
  {
    forall i, j | 0 <= i < j < |r| && n <= j ensures !lt(r[i], r[j]) {
      if i < n {
        assert r[i] in r[..n] && r[i] in multiset(r[..n]);
        EarlierNotBefore(s, r, n, i, j, lt);
      }
    }
  }

  lemma EarlierNotBefore<T(!new)>(s: seq<T>, r: seq<T>, n: nat, i: nat, j: nat, lt: Less<T>)
    requires StrictWeakOrder(lt) && 0 < n < |s| == |r| && HeapFrom(s, n + 1, 0, lt) && SortedFrom(s, n + 1, lt)
    requires i < n <= j < |s| && r[j] == (if j == n then s[0] else s[j]) && r[i] in multiset(s[..n + 1])
    ensures !lt(r[i], r[j])
  {
    if j == n {
      RootComesFirstOfAll(s, n + 1, r[i], lt);
    } else {
      assert r[i] in s[..n + 1];
      var k :| 0 <= k < n + 1 && s[k] == r[i];
    }
  }

  // Sifting down the elements from i - 1 to 0, and then taking the first element out n times
  function Built<T>(s: seq<T>, i: nat, lt: Less<T>): (r: seq<T>)
    requires i <= |s|
    ensures |r| == |s|
    decreases i
  {
    if i == 0 then s else Built(SiftDown(s, |s|, i - 1, lt), i - 1, lt)
  }

  function TakenOut<T>(s: seq<T>, n: nat, lt: Less<T>): (r: seq<T>)
    requires n < |s|
    ensures |r| == |s|
    decreases n
  {
    if n == 0 then s else TakenOut(SiftDown(Swap(s, 0, n), n, 0, lt), n - 1, lt)
  }

  lemma {:induction false} BuiltPermutes<T>(s: seq<T>, i: nat, lt: Less<T>)
    requires i <= |s|
    ensures Permutes(Built(s, i, lt), s)
    decreases i
  {
    if i > 0 { SiftDownPermutes(s, |s|, i - 1, lt); BuiltPermutes(SiftDown(s, |s|, i - 1, lt), i - 1, lt); }
  }

  lemma {:induction false} TakenOutPermutes<T>(s: seq<T>, n: nat, lt: Less<T>)
    requires n < |s|
    ensures Permutes(TakenOut(s, n, lt), s)
    decreases n
  {
    if n > 0 {
      SwapPermutes(s, 0, n); SiftDownPermutes(Swap(s, 0, n), n, 0, lt);
      TakenOutPermutes(SiftDown(Swap(s, 0, n), n, 0, lt), n - 1, lt);
    }
  }

  lemma {:induction false} BuiltIsHeap<T(!new)>(s: seq<T>, i: nat, lt: Less<T>)
    requires StrictPartialOrder(lt) && i <= |s| && HeapFrom(s, |s|, i, lt)
    ensures HeapFrom(Built(s, i, lt), |s|, 0, lt)
    decreases i
  {
    if i > 0 {
      SiftDownRestores(s, |s|, i - 1, i - 1, lt);
      BuiltIsHeap(SiftDown(s, |s|, i - 1, lt), i - 1, lt);
    }
  }

  lemma {:induction false} TakenOutIsSorted<T(!new)>(s: seq<T>, n: nat, lt: Less<T>)
    requires StrictWeakOrder(lt) && n < |s| && HeapFrom(s, n + 1, 0, lt) && SortedFrom(s, n + 1, lt)
    ensures Backwards(TakenOut(s, n, lt), lt)
    decreases n
  {
    if n > 0 {
      SortStep(s, n, lt);
      TakenOutIsSorted(SiftDown(Swap(s, 0, n), n, 0, lt), n - 1, lt);
    }
  }

  function HeapSorted<T>(s: seq<T>, lt: Less<T>): (r: seq<T>)
    requires |s| >= 1
  {
    TakenOut(Built(s, |s| / 2, lt), |s| - 1, lt)
  }

  lemma LeavesAreHeap<T>(s: seq<T>, lt: Less<T>)
    ensures HeapFrom(s, |s|, |s| / 2, lt)
  {}

  // Heap sort permutes, and with a strict weak order no earlier element is before a later one.
  lemma HeapSortedIsBackwards<T(!new)>(s: seq<T>, lt: Less<T>)
    requires |s| >= 1
    ensures Permutes(HeapSorted(s, lt), s)
    ensures StrictWeakOrder(lt) ==> Backwards(HeapSorted(s, lt), lt)
  {
    BuiltPermutes(s, |s| / 2, lt); TakenOutPermutes(Built(s, |s| / 2, lt), |s| - 1, lt);
    if StrictWeakOrder(lt) {
      LeavesAreHeap(s, lt);
      BuiltIsHeap(s, |s| / 2, lt);
      TakenOutIsSorted(Built(s, |s| / 2, lt), |s| - 1, lt);
    }
  }

  method BuildHeap<T>(data: array<T>, compare: Less<T>)
    modifies data
    ensures data[..] == Built(old(data[..]), data.Length / 2, compare)
  {
    var i: int := data.Length / 2 - 1;
    while i >= 0
      invariant -1 <= i < data.Length
                && Built(data[..], i + 1, compare) == Built(old(data[..]), data.Length / 2, compare)
    {
      Heapify(data, data.Length, compare, i);
      i := i - 1;
    }
  }

  method TakeAllOut<T>(data: array<T>, compare: Less<T>)
    requires data.Length >= 1
    modifies data
    ensures data[..] == TakenOut(old(data[..]), data.Length - 1, compare)
  {
    var count := data.Length - 1;
    while count > 0
      invariant 0 <= count < data.Length
      invariant TakenOut(data[..], count, compare) == TakenOut(old(data[..]), data.Length - 1, compare)
    {
      SwapCells(data, 0, count);
      Heapify(data, count, compare, 0);
      count := count - 1;
    }
  }

  method HeapSort<T(!new)>(data: array<T>, compare: Less<T>)
    requires data.Length >= 1
    modifies data
    ensures data[..] == HeapSorted(old(data[..]), compare) && multiset(data[..]) == multiset(old(data[..]))
    ensures StrictWeakOrder(compare) ==> Backwards(data[..], compare)
  {
    HeapSortedIsBackwards(data[..], compare);
    BuildHeap(data, compare);
    TakeAllOut(data, compare);
  }
}
