/** Sifting in an array-shaped binary tree, over values. */
module HeapOrder {
  import opened Sequences

  type Less<!T> = (T, T) -> bool

  ghost predicate Asymmetric<T(!new)>(lt: Less<T>) { forall a, b :: lt(a, b) ==> !lt(b, a) }

  ghost predicate Transitive<T(!new)>(lt: Less<T>) { forall a, b, c :: lt(a, b) && lt(b, c) ==> lt(a, c) }

  // Whatever is between two elements is after the first or before the second.
  ghost predicate Weak<T(!new)>(lt: Less<T>) { forall a, b, c :: lt(a, c) ==> lt(a, b) || lt(b, c) }

  ghost predicate StrictPartialOrder<T(!new)>(lt: Less<T>) { Asymmetric(lt) && Transitive(lt) }

  ghost predicate StrictWeakOrder<T(!new)>(lt: Less<T>) { StrictPartialOrder(lt) && Weak(lt) }

  // Where x may rise above p and then above g, an element before g is before p unless p is before g.
  ghost predicate PushSafe<T(!new)>(lt: Less<T>) {
    forall a, g, p, x :: lt(x, p) && lt(x, g) && lt(a, g) ==> lt(a, p) || lt(p, g)
  }

  function Parent(i: nat): (p: nat)
    requires i > 0
    ensures p < i && (i == 2 * p + 1 || i == 2 * p + 2)
  {
    (i - 1) / 2
  }

  function Left(i: nat): nat { 2 * i + 1 }

  function Right(i: nat): nat { 2 * i + 2 }

  lemma SwapKeepsMultiset<T>(s: seq<T>, i: nat, j: nat, n: nat)
    requires i < n && j < n && n <= |s|
    ensures multiset(Swap(s, i, j)[..n]) == multiset(s[..n])
  {
    assert Swap(s, i, j)[..n] == s[..n][i := s[j]][j := s[i]];
  }

  // Neither child of i is before it.
  ghost predicate Node<T>(s: seq<T>, n: nat, i: nat, lt: Less<T>)
    requires n <= |s|
  {
    && (Left(i) < n ==> !lt(s[Left(i)], s[i]))
    && (Right(i) < n ==> !lt(s[Right(i)], s[i]))
  }

  // No element at position from or later has a child before it.
  ghost predicate HeapFrom<T>(s: seq<T>, n: nat, from: nat, lt: Less<T>)
    requires n <= |s|
  {
    forall i :: from <= i < n ==> Node(s, n, i, lt)
  }

  // The same for all positions but hole, whose children are not before its parent either
  ghost predicate HeapBut<T>(s: seq<T>, n: nat, from: nat, hole: nat, lt: Less<T>)
    requires n <= |s|
  {
    && (forall i :: from <= i < n && i != hole ==> Node(s, n, i, lt))
    && (hole > 0 && from <= Parent(hole) ==>
         (Left(hole) < n ==> !lt(s[Left(hole)], s[Parent(hole)]))
           && (Right(hole) < n ==> !lt(s[Right(hole)], s[Parent(hole)])))
  }

  // ------------------------------------------------------------------ sifting down

  // Of i and its children, the one that is to come first
  function First<T>(s: seq<T>, n: nat, i: nat, lt: Less<T>): (m: nat)
    requires i < n <= |s|
    ensures m < n && (m == i || m == Left(i) || m == Right(i))
  {
    var m := if Left(i) < n && lt(s[Left(i)], s[i]) then Left(i) else i;
    if Right(i) < n && lt(s[Right(i)], s[m]) then Right(i) else m
  }

  function SiftDown<T>(s: seq<T>, n: nat, i: nat, lt: Less<T>): (r: seq<T>)
    requires i < n <= |s|
    ensures |r| == |s|
    decreases n - i
  {
    var m := First(s, n, i, lt);
    if m == i then s else SiftDown(Swap(s, i, m), n, m, lt)
  }

  lemma {:induction false} SiftDownMoves<T>(s: seq<T>, n: nat, i: nat, lt: Less<T>)
    requires i < n <= |s|
    ensures forall k :: 0 <= k < i || n <= k < |s| ==> SiftDown(s, n, i, lt)[k] == s[k]
    ensures multiset(SiftDown(s, n, i, lt)[..n]) == multiset(s[..n])
    decreases n - i
  {
    var m := First(s, n, i, lt);
    if m != i { SwapKeepsMultiset(s, i, m, n); SiftDownMoves(Swap(s, i, m), n, m, lt); }
  }

  // One exchange moves the hole down to the child that came up.
  lemma HoleMovesDown<T(!new)>(s: seq<T>, n: nat, from: nat, i: nat, lt: Less<T>)
    requires StrictPartialOrder(lt) && from <= i < n <= |s| && HeapBut(s, n, from, i, lt)
    ensures var m := First(s, n, i, lt); m != i ==> HeapBut(Swap(s, i, m), n, from, m, lt)
    ensures First(s, n, i, lt) == i ==> HeapFrom(s, n, from, lt)
  {
    var m := First(s, n, i, lt);
    if m != i {
      var t := Swap(s, i, m);
      assert Parent(m) == i && t[i] == s[m] && t[m] == s[i];
      assert Node(s, n, m, lt);
      forall k | from <= k < n && k != m ensures Node(t, n, k, lt) {
        if k != i { assert Node(s, n, k, lt); }
      }
    }
  }

  // Sifting down restores the order, for any strict partial order.
  lemma {:induction false} SiftDownRestores<T(!new)>(s: seq<T>, n: nat, from: nat, i: nat, lt: Less<T>)
    requires StrictPartialOrder(lt) && from <= i < n <= |s| && HeapBut(s, n, from, i, lt)
    ensures HeapFrom(SiftDown(s, n, i, lt), n, from, lt)
    decreases n - i
  {
    var m := First(s, n, i, lt);
    HoleMovesDown(s, n, from, i, lt);
    if m != i { SiftDownRestores(Swap(s, i, m), n, from, m, lt); }
  }

  // ------------------------------------------------------------------ sifting up

  function SiftUp<T>(s: seq<T>, i: nat, lt: Less<T>): (r: seq<T>)
    requires i < |s|
    ensures |r| == |s|
    decreases i
  {
    if i != 0 && lt(s[i], s[Parent(i)]) then SiftUp(Swap(s, i, Parent(i)), Parent(i), lt) else s
  }

  lemma {:induction false} SiftUpMoves<T>(s: seq<T>, n: nat, i: nat, lt: Less<T>)
    requires i < n <= |s|
    ensures forall k :: n <= k < |s| ==> SiftUp(s, i, lt)[k] == s[k]
    ensures multiset(SiftUp(s, i, lt)[..n]) == multiset(s[..n])
    decreases i
  {
    if i != 0 && lt(s[i], s[Parent(i)]) {
      SwapKeepsMultiset(s, i, Parent(i), n); SiftUpMoves(Swap(s, i, Parent(i)), n, Parent(i), lt);
    }
  }

  // Element k is not before its parent.
  ghost predicate Edge<T>(s: seq<T>, k: nat, lt: Less<T>)
    requires k < |s|
  {
    k > 0 ==> !lt(s[k], s[Parent(k)])
  }

  // Every element but i is in order with its parent, and if i is to rise, its children are with the parent of i.
  ghost predicate Rising<T>(s: seq<T>, n: nat, i: nat, lt: Less<T>)
    requires i < n <= |s|
  {
    && (forall k :: 0 <= k < n && k != i ==> Edge(s, k, lt))
    && (i > 0 && lt(s[i], s[Parent(i)]) ==> forall k :: 0 < k < n && Parent(k) == i ==> !lt(s[k], s[Parent(i)]))
  }

  lemma HoleMovesUp<T(!new)>(s: seq<T>, n: nat, i: nat, lt: Less<T>)
    requires StrictPartialOrder(lt) && PushSafe(lt)
    requires 0 < i < n <= |s| && Rising(s, n, i, lt) && lt(s[i], s[Parent(i)])
    ensures Rising(Swap(s, i, Parent(i)), n, Parent(i), lt)
  {
    var p, t := Parent(i), Swap(s, i, Parent(i));
    assert t[i] == s[p] && t[p] == s[i] && Edge(s, p, lt);
    forall k | 0 <= k < n && k != p ensures Edge(t, k, lt) {
      assert k != i ==> Edge(s, k, lt);
    }
    if p > 0 && lt(t[p], t[Parent(p)]) {
      forall k | 0 < k < n && Parent(k) == p ensures !lt(t[k], t[Parent(p)]) {
        assert k != i ==> Edge(s, k, lt);
      }
    }
  }

  lemma EdgesAreHeap<T>(s: seq<T>, n: nat, lt: Less<T>)
    requires n <= |s|
    ensures HeapFrom(s, n, 0, lt) <==> forall k :: 0 <= k < n ==> Edge(s, k, lt)
  {
    if HeapFrom(s, n, 0, lt) {
      forall k | 0 <= k < n ensures Edge(s, k, lt) { if k > 0 { assert Node(s, n, Parent(k), lt); } }
    }
    if forall k :: 0 <= k < n ==> Edge(s, k, lt) {
      forall i | 0 <= i < n ensures Node(s, n, i, lt) {
        assert Left(i) < n ==> Edge(s, Left(i), lt);
        assert Right(i) < n ==> Edge(s, Right(i), lt);
      }
    }
  }

  lemma {:induction false} SiftUpRestores<T(!new)>(s: seq<T>, n: nat, i: nat, lt: Less<T>)
    requires StrictPartialOrder(lt) && PushSafe(lt) && i < n <= |s| && Rising(s, n, i, lt)
    ensures HeapFrom(SiftUp(s, i, lt), n, 0, lt)
    decreases i
  {
    if i != 0 && lt(s[i], s[Parent(i)]) {
      HoleMovesUp(s, n, i, lt);
      SiftUpRestores(Swap(s, i, Parent(i)), n, Parent(i), lt);
    } else {
      EdgesAreHeap(s, n, lt);
    }
  }

  // ------------------------------------------------------------------ what the order gives

  // Nothing in a heap is before its root.
  lemma {:induction false} RootComesFirst<T(!new)>(s: seq<T>, n: nat, k: nat, lt: Less<T>)
    requires StrictWeakOrder(lt) && k < n <= |s| && HeapFrom(s, n, 0, lt)
    ensures !lt(s[k], s[0])
  {
    if k > 0 {
      var p := Parent(k);
      RootComesFirst(s, n, p, lt);
      assert Node(s, n, p, lt);
      assert !lt(s[k], s[p]) && !lt(s[p], s[0]);
    }
  }

  ghost predicate RootsComeFirst<T(!new)>(lt: Less<T>) {
    forall s: seq<T>, k: nat :: k < |s| && HeapFrom(s, |s|, 0, lt) ==> !lt(s[k], s[0])
  }

  // A strict partial order gives heaps with the first element at the root exactly if it is a strict weak order.
  lemma RootsComeFirstIffWeak<T(!new)>(lt: Less<T>)
    requires StrictPartialOrder(lt)
    ensures RootsComeFirst(lt) <==> Weak(lt)
  {
    if Weak(lt) {
      forall s: seq<T>, k: nat | k < |s| && HeapFrom(s, |s|, 0, lt)
        ensures !lt(s[k], s[0])
      {
        RootComesFirst(s, |s|, k, lt);
      }
    }
    if RootsComeFirst(lt) {
      forall a, b, c | lt(a, c) ensures lt(a, b) || lt(b, c) {
        var s := [c, b, c, a];
        assert Node(s, 4, 2, lt) && Node(s, 4, 3, lt);
        assert Node(s, 4, 0, lt) && Node(s, 4, 1, lt) ==> !lt(s[3], s[0]);
      }
    }
  }

  // ------------------------------------------------------------------ which orders a push is safe for

  // A new last element leaves nothing else out of order.
  lemma LastRises<T>(s: seq<T>, n: nat, lt: Less<T>)
    requires n < |s| && HeapFrom(s, n, 0, lt)
    ensures Rising(s, n + 1, n, lt)
  {
    EdgesAreHeap(s, n, lt);
  }

  // Whatever is pushed onto whatever heap, a heap results.
  ghost predicate PushesKeepHeaps<T(!new)>(lt: Less<T>) {
    forall s: seq<T> :: s != [] && HeapFrom(s, |s| - 1, 0, lt) ==> HeapFrom(SiftUp(s, |s| - 1, lt), |s|, 0, lt)
  }

  // Where the condition fails, pushing x onto [g, p, g, a] leaves a below g.
  lemma UnsafePush<T(!new)>(a: T, g: T, p: T, x: T, lt: Less<T>)
    requires StrictPartialOrder(lt) && lt(x, p) && lt(x, g) && lt(a, g) && !lt(a, p) && !lt(p, g)
    ensures HeapFrom([g, p, g, a, x], 4, 0, lt) && !HeapFrom(SiftUp([g, p, g, a, x], 4, lt), 5, 0, lt)
  {
    var s := [g, p, g, a, x];
    var t := Swap(s, 4, 1);
    assert SiftUp(s, 4, lt) == SiftUp(t, 1, lt) == SiftUp(Swap(t, 1, 0), 0, lt);
    assert Swap(t, 1, 0) == [x, g, g, a, p];
    assert !Node(Swap(t, 1, 0), 5, 1, lt);
  }

  // A strict partial order keeps all heaps under pushes exactly if it is safe in this sense.
  lemma PushesKeepHeapsIffSafe<T(!new)>(lt: Less<T>)
    requires StrictPartialOrder(lt)
    ensures PushesKeepHeaps(lt) <==> PushSafe(lt)
  {
    if PushSafe(lt) {
      forall s: seq<T> | s != [] && HeapFrom(s, |s| - 1, 0, lt) ensures HeapFrom(SiftUp(s, |s| - 1, lt), |s|, 0, lt) {
        LastRises(s, |s| - 1, lt);
        SiftUpRestores(s, |s|, |s| - 1, lt);
      }
    }
    if !PushSafe(lt) {
      var a, g, p, x :| lt(x, p) && lt(x, g) && lt(a, g) && !lt(a, p) && !lt(p, g);
      UnsafePush(a, g, p, x, lt);
      var s := [g, p, g, a, x];
      assert HeapFrom(s, |s| - 1, 0, lt);
    }
  }

  lemma WeakIsSafe<T(!new)>(lt: Less<T>)
    requires Weak(lt)
    ensures PushSafe(lt)
  {}

  datatype Item = W | X | Y | Z

  // Two strict partial orders that are not weak: W before X and Y, Z before X; and W before X only
  function PartialLess(a: Item, b: Item): bool { (a == W && (b == X || b == Y)) || (a == Z && b == X) }

  function SparseLess(a: Item, b: Item): bool { a == W && b == X }

  // With the first, a push can leave a child before its parent.
  lemma PartialOrderBreaksPush()
    ensures StrictPartialOrder(PartialLess)
    ensures HeapFrom([X, Y, X, Z, W], 4, 0, PartialLess)
    ensures !HeapFrom(SiftUp([X, Y, X, Z, W], 4, PartialLess), 5, 0, PartialLess)
  {
    UnsafePush(Z, X, Y, W, PartialLess);
  }

  // With the second, no push can.
  lemma SafeNeedNotBeWeak()
    ensures StrictPartialOrder(SparseLess) && !Weak(SparseLess) && PushesKeepHeaps(SparseLess)
  {
    PushesKeepHeapsIffSafe(SparseLess);
    assert SparseLess(W, X) && !SparseLess(W, Y) && !SparseLess(Y, X);
  }
}
