/** What an inverse is, and the invariant of Gauss-Jordan elimination in place. */
module InversionSpec {
  import opened Sequences
  import opened GaloisField
  import opened Matrices

  ghost function Zeros(k: nat): (z: Vector)
    ensures |z| == k
  {
    seq(k, i => 0)
  }

  ghost function Unit(k: nat, p: nat): (z: Vector)
    requires p < k
    ensures |z| == k
  {
    Zeros(k)[p := 1]
  }

  // s undoes a, and a undoes s.
  ghost predicate IsInverse(a: Matrix, s: Matrix, k: nat)
    requires Square(a, k) && Square(s, k)
  {
    forall x: Vector, y: Vector {:trigger Maps(a, x, y, k)} {:trigger Maps(s, y, x, k)} ::
      |x| == k && |y| == k ==> (Maps(a, x, y, k) <==> Maps(s, y, x, k))
  }

  // a sends the nonzero vector x to zero.
  ghost predicate Annihilates(a: Matrix, x: Vector, k: nat)
    requires Square(a, k)
  {
    |x| == k && x != Zeros(k) && Maps(a, x, Zeros(k), k)
  }

  ghost predicate Singular(a: Matrix, k: nat)
    requires Square(a, k)
  {
    exists x :: Annihilates(a, x, k)
  }

  lemma ZeroToZero(a: Matrix, k: nat)
    requires Square(a, k)
    ensures Maps(a, Zeros(k), Zeros(k), k)
  {
    forall i | 0 <= i < k ensures Dot(a[i], Zeros(k), k) == 0 { DotZero(a[i], Zeros(k), k); }
  }

  // A matrix has an inverse only if it is not singular.
  lemma InvertibleIsNotSingular(a: Matrix, s: Matrix, k: nat)
    requires Square(a, k) && Square(s, k) && IsInverse(a, s, k)
    ensures !Singular(a, k)
  {
    forall x | |x| == k && Maps(a, x, Zeros(k), k) ensures x == Zeros(k) {
      ZeroToZero(s, k);
      assert Maps(s, Zeros(k), x, k);
    }
  }

  ghost function Column(a: Matrix, j: nat, k: nat): (y: Vector)
    requires Square(a, k) && j < k
    ensures |y| == k
  {
    seq(k, i requires 0 <= i < k => a[i][j])
  }

  lemma DotUnit(a: Vector, p: nat, k: nat)
    requires |a| == k && p < k
    ensures Dot(a, Unit(k, p), k) == a[p]
  {
    var z := Unit(k, p);
    DotSplit(a, z, p, k);
    DotZero(a[p := 0], z, k);
    MulOneRight(a[p]); AddZero(a[p]);
  }

  // Entry by entry, the product of the inverse and the matrix is the identity.
  lemma InverseTimesMatrix(a: Matrix, s: Matrix, k: nat, i: nat, j: nat)
    requires Square(a, k) && Square(s, k) && IsInverse(a, s, k) && i < k && j < k
    ensures Dot(s[i], Column(a, j, k), k) == if i == j then 1 else 0
    ensures Dot(a[i], Column(s, j, k), k) == if i == j then 1 else 0
  {
    forall r | 0 <= r < k ensures Dot(a[r], Unit(k, j), k) == a[r][j] && Dot(s[r], Unit(k, j), k) == s[r][j] {
      DotUnit(a[r], j, k); DotUnit(s[r], j, k);
    }
    assert Maps(a, Unit(k, j), Column(a, j, k), k);
    assert Maps(s, Unit(k, j), Column(s, j, k), k);
    assert Maps(s, Column(a, j, k), Unit(k, j), k);
    assert Maps(a, Column(s, j, k), Unit(k, j), k);
  }

  // y after the first n of the recorded row swaps
  ghost function Swapped(y: Vector, rows: seq<int>, cols: seq<int>, n: nat): (r: Vector)
    requires n <= |rows| && n <= |cols|
    requires forall t :: 0 <= t < n ==> 0 <= rows[t] < |y| && 0 <= cols[t] < |y|
    ensures |r| == |y|
  {
    if n == 0 then y else Swap(Swapped(y, rows, cols, n - 1), rows[n - 1], cols[n - 1])
  }

  // One side of the system: x at the positions in d, y elsewhere
  ghost function Mix(x: Vector, y: Vector, d: set<int>): (r: Vector)
    requires |x| == |y|
    ensures |r| == |x| && forall i :: 0 <= i < |x| ==> r[i] == if i in d then x[i] else y[i]
  {
    seq(|x|, i requires 0 <= i < |x| => if i in d then x[i] else y[i])
  }

  ghost predicate Recorded(rows: seq<int>, cols: seq<int>, n: nat, k: nat) {
    n <= |rows| && n <= |cols| && forall t :: 0 <= t < n ==> 0 <= rows[t] < k && 0 <= cols[t] < k
  }

  // With the pivots in d used, s computes from (y at d, x elsewhere) exactly what a computes from x.
  ghost predicate Exchanged(a: Matrix, s: Matrix, d: set<int>, rows: seq<int>, cols: seq<int>, n: nat, k: nat)
    requires Square(a, k) && Square(s, k) && Recorded(rows, cols, n, k)
  {
    forall x: Vector, y: Vector {:trigger Maps(a, x, y, k)} :: |x| == k && |y| == k ==>
      var y' := Swapped(y, rows, cols, n);
      (Maps(a, x, y, k) <==> Maps(s, Mix(y', x, d), Mix(x, y', d), k))
  }

  lemma ExchangedStart(a: Matrix, rows: seq<int>, cols: seq<int>, k: nat)
    requires Square(a, k)
    ensures Exchanged(a, a, {}, rows, cols, 0, k)
  {
    forall x: Vector, y: Vector | |x| == k && |y| == k
      ensures Mix(y, x, {}) == x && Mix(x, y, {}) == y
    {}
  }

  lemma {:induction false} SwappedSame(y: Vector, rows: seq<int>, cols: seq<int>, rows': seq<int>, cols': seq<int>,
                                       n: nat)
    requires Recorded(rows, cols, n, |y|) && Recorded(rows', cols', n, |y|)
    requires forall t :: 0 <= t < n ==> rows[t] == rows'[t] && cols[t] == cols'[t]
    ensures Swapped(y, rows, cols, n) == Swapped(y, rows', cols', n)
  {
    if n > 0 { SwappedSame(y, rows, cols, rows', cols', n - 1); }
  }

  // Swapping the rows of two unused pivots keeps the system; the swap is recorded.
  lemma ExchangedSwap(a: Matrix, s: Matrix, d: set<int>, rows: seq<int>, cols: seq<int>, rows': seq<int>,
                      cols': seq<int>, n: nat, k: nat)
    requires Square(a, k) && Square(s, k) && Recorded(rows, cols, n, k) && Exchanged(a, s, d, rows, cols, n, k)
    requires Recorded(rows', cols', n + 1, k)
    requires forall t :: 0 <= t < n ==> rows[t] == rows'[t] && cols[t] == cols'[t]
    requires rows'[n] !in d && cols'[n] !in d
    ensures Square(Swap(s, rows'[n], cols'[n]), k)
    ensures Exchanged(a, Swap(s, rows'[n], cols'[n]), d, rows', cols', n + 1, k)
  {
    var r, c := rows'[n], cols'[n];
    var s' := Swap(s, r, c);
    forall x: Vector, y: Vector | |x| == k && |y| == k
      ensures var y' := Swapped(y, rows', cols', n + 1);
              Maps(a, x, y, k) <==> Maps(s', Mix(y', x, d), Mix(x, y', d), k)
    {
      var y0 := Swapped(y, rows, cols, n);
      SwappedSame(y, rows, cols, rows', cols', n);
      var y' := Swap(y0, r, c);
      assert Mix(y', x, d) == Mix(y0, x, d);
      assert Mix(x, y', d) == Swap(Mix(x, y0, d), r, c);
      SwapRowsPreservesSystem(s, r, c, k, Mix(y0, x, d), Mix(x, y0, d));
    }
  }

  // Using p as a pivot adds it to d.
  lemma ExchangedPivot(a: Matrix, s: Matrix, s': Matrix, p: nat, d: set<int>, rows: seq<int>, cols: seq<int>, n: nat,
                       k: nat)
    requires Square(a, k) && Square(s, k) && Square(s', k) && Recorded(rows, cols, n, k)
    requires Exchanged(a, s, d, rows, cols, n, k)
    requires p < k && p !in d && IsPivot(s, s', p, k)
    ensures Exchanged(a, s', d + {p}, rows, cols, n, k)
  {
    forall x: Vector, y: Vector | |x| == k && |y| == k
      ensures var y' := Swapped(y, rows, cols, n);
              Maps(a, x, y, k) <==> Maps(s', Mix(y', x, d + {p}), Mix(x, y', d + {p}), k)
    {
      var y' := Swapped(y, rows, cols, n);
      var z, w := Mix(y', x, d), Mix(x, y', d);
      assert Mix(y', x, d + {p}) == z[p := w[p]];
      assert Mix(x, y', d + {p}) == w[p := z[p]];
      PivotPreservesSystem(s, s', p, k, z, w);
    }
  }

  // No pivot left in the rows and columns outside d: then a is singular.
  lemma NoPivotIsSingular(a: Matrix, s: Matrix, d: set<int>, rows: seq<int>, cols: seq<int>, n: nat, k: nat, q: nat)
    requires Square(a, k) && Square(s, k) && Recorded(rows, cols, n, k)
    requires Exchanged(a, s, d, rows, cols, n, k)
    requires q < k && q !in d
    requires forall i :: 0 <= i < k && i !in d ==> s[i][q] == 0
    ensures Singular(a, k)
  {
    var y := Zeros(k);
    var x := seq(k, i requires 0 <= i < k => if i == q then 1 else if i in d then s[i][q] else 0);
    SwappedZeros(rows, cols, n, k);
    var z, w := Mix(y, x, d), Mix(x, y, d);
    assert z == Unit(k, q);
    forall i | 0 <= i < k ensures w[i] == Dot(s[i], z, k) {
      DotUnit(s[i], q, k);
    }
    assert Maps(s, z, w, k);
    assert Maps(a, x, y, k);
    assert x[q] == 1;
    assert Annihilates(a, x, k);
  }

  lemma {:induction false} SwappedZeros(rows: seq<int>, cols: seq<int>, n: nat, k: nat)
    requires Recorded(rows, cols, n, k)
    ensures Swapped(Zeros(k), rows, cols, n) == Zeros(k)
  {
    if n > 0 { SwappedZeros(rows, cols, n - 1, k); }
  }

  // All pivots used: what is left is to undo the row swaps in the columns, last swap first.
  ghost predicate Unscrambled(a: Matrix, s: Matrix, rows: seq<int>, cols: seq<int>, n: nat, k: nat)
    requires Square(a, k) && Square(s, k) && Recorded(rows, cols, n, k)
  {
    forall x: Vector, y: Vector {:trigger Maps(a, x, y, k)} :: |x| == k && |y| == k ==>
      (Maps(a, x, y, k) <==> Maps(s, Swapped(y, rows, cols, n), x, k))
  }

  lemma AllExchanged(a: Matrix, s: Matrix, d: set<int>, rows: seq<int>, cols: seq<int>, n: nat, k: nat)
    requires Square(a, k) && Square(s, k) && Recorded(rows, cols, n, k)
    requires Exchanged(a, s, d, rows, cols, n, k)
    requires forall i :: 0 <= i < k ==> i in d
    ensures Unscrambled(a, s, rows, cols, n, k)
  {
    forall x: Vector, y: Vector | |x| == k && |y| == k
      ensures Maps(a, x, y, k) <==> Maps(s, Swapped(y, rows, cols, n), x, k)
    {
      var y' := Swapped(y, rows, cols, n);
      assert Mix(y', x, d) == y' && Mix(x, y', d) == x;
    }
  }

  lemma UnscrambleStep(a: Matrix, s: Matrix, s': Matrix, rows: seq<int>, cols: seq<int>, n: nat, k: nat)
    requires Square(a, k) && Square(s, k) && Recorded(rows, cols, n, k) && n > 0
    requires Unscrambled(a, s, rows, cols, n, k)
    requires ColumnsSwapped(s, s', rows[n - 1], cols[n - 1], k)
    ensures Unscrambled(a, s', rows, cols, n - 1, k)
  {
    forall x: Vector, y: Vector | |x| == k && |y| == k
      ensures Maps(a, x, y, k) <==> Maps(s', Swapped(y, rows, cols, n - 1), x, k)
    {
      SwapColumnsPreservesSystem(s, s', rows[n - 1], cols[n - 1], k, Swapped(y, rows, cols, n - 1), x);
    }
  }

  // a sends some nonzero vector supported on the first q + 1 positions to one that is zero there.
  ghost predicate LeadingSingular(a: Matrix, q: nat, k: nat)
    requires Square(a, k) && q < k
  {
    exists x :: AnnihilatesLeading(a, x, q, k)
  }

  ghost predicate AnnihilatesLeading(a: Matrix, x: Vector, q: nat, k: nat)
    requires Square(a, k) && q < k
  {
    && |x| == k && x != Zeros(k) && (forall i :: q < i < k ==> x[i] == 0)
    && (forall i :: 0 <= i <= q ==> Dot(a[i], x, k) == 0)
  }

  lemma {:induction false} NoSwaps(y: Vector, rows: seq<int>, cols: seq<int>, n: nat)
    requires Recorded(rows, cols, n, |y|) && forall t :: 0 <= t < n ==> rows[t] == cols[t]
    ensures Swapped(y, rows, cols, n) == y
  {
    if n > 0 { NoSwaps(y, rows, cols, n - 1); }
  }

  // Without row swaps so far, a zero on the diagonal shows in the leading part of a.
  lemma ZeroDiagonalIsLeadingSingular(a: Matrix, s: Matrix, d: set<int>, rows: seq<int>, cols: seq<int>, q: nat, k: nat)
    requires Square(a, k) && Square(s, k) && q < k && Recorded(rows, cols, q, k)
    requires Exchanged(a, s, d, rows, cols, q, k)
    requires forall t :: 0 <= t < q ==> rows[t] == cols[t]
    requires forall i :: 0 <= i < k ==> (i in d <==> i < q)
    requires s[q][q] == 0
    ensures LeadingSingular(a, q, k)
  {
    var x := seq(k, i requires 0 <= i < k => if i == q then 1 else if i in d then s[i][q] else 0);
    var y := seq(k, i requires 0 <= i < k => if i in d then 0 else s[i][q]);
    NoSwaps(y, rows, cols, q);
    var z, w := Mix(y, x, d), Mix(x, y, d);
    assert z == Unit(k, q);
    forall i | 0 <= i < k ensures w[i] == Dot(s[i], z, k) {
      DotUnit(s[i], q, k);
    }
    assert Maps(s, z, w, k);
    assert Maps(a, x, y, k);
    assert x[q] == 1;
    assert AnnihilatesLeading(a, x, q, k);
  }
}
