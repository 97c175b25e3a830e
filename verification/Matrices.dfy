/** Vectors and square matrices over GF(2^8), and the exchange step behind in-place Gauss-Jordan inversion. */
module Matrices {
  import opened Sequences
  import opened GaloisField

  type Vector = seq<bv8>
  type Matrix = seq<seq<bv8>>

  ghost predicate Square(m: Matrix, k: nat) {
    |m| == k && forall i :: 0 <= i < k ==> |m[i]| == k
  }

  // The scalar product of the first n entries
  ghost function Dot(a: Vector, z: Vector, n: nat): bv8
    requires n <= |a| && n <= |z|
  {
    if n == 0 then 0 else Add(Dot(a, z, n - 1), Mul(a[n - 1], z[n - 1]))
  }

  // w = m z
  ghost predicate Maps(m: Matrix, z: Vector, w: Vector, k: nat)
    requires Square(m, k) && |z| == k && |w| == k
  {
    forall i :: 0 <= i < k ==> w[i] == Dot(m[i], z, k)
  }

  lemma {:induction false} DotSame(a: Vector, z: Vector, b: Vector, y: Vector, n: nat)
    requires n <= |a| && n <= |z| && n <= |b| && n <= |y|
    requires forall j :: 0 <= j < n ==> a[j] == b[j] && z[j] == y[j]
    ensures Dot(a, z, n) == Dot(b, y, n)
  {
    if n > 0 { DotSame(a, z, b, y, n - 1); }
  }

  lemma {:induction false} DotZero(a: Vector, z: Vector, n: nat)
    requires n <= |a| && n <= |z|
    requires forall j :: 0 <= j < n ==> a[j] == 0 || z[j] == 0
    ensures Dot(a, z, n) == 0
  {
    if n > 0 {
      DotZero(a, z, n - 1);
      MulZero(a[n - 1]); MulZero(z[n - 1]); AddZero(0);
    }
  }

  lemma {:induction false} DotAdd(a: Vector, b: Vector, c: Vector, z: Vector, n: nat)
    requires n <= |a| && n <= |b| && n <= |c| && n <= |z|
    requires forall j :: 0 <= j < n ==> c[j] == Add(a[j], b[j])
    ensures Dot(c, z, n) == Add(Dot(a, z, n), Dot(b, z, n))
  {
    if n == 0 { AddZero(0); } else {
      DotAdd(a, b, c, z, n - 1);
      MulAddLeft(a[n - 1], b[n - 1], z[n - 1]);
      AddSwap(Dot(a, z, n - 1), Dot(b, z, n - 1), Mul(a[n - 1], z[n - 1]), Mul(b[n - 1], z[n - 1]));
    }
  }

  lemma {:induction false} DotScale(a: Vector, c: bv8, b: Vector, z: Vector, n: nat)
    requires n <= |a| && n <= |b| && n <= |z|
    requires forall j :: 0 <= j < n ==> b[j] == Mul(c, a[j])
    ensures Dot(b, z, n) == Mul(c, Dot(a, z, n))
  {
    if n == 0 { MulZero(c); } else {
      DotScale(a, c, b, z, n - 1);
      MulAssoc(c, a[n - 1], z[n - 1]);
      MulAddRight(c, Dot(a, z, n - 1), Mul(a[n - 1], z[n - 1]));
    }
  }

  // Taking the term at p out of a scalar product
  lemma {:induction false} DotSplit(a: Vector, z: Vector, p: nat, n: nat)
    requires p < n && n <= |a| && n <= |z|
    ensures Dot(a, z, n) == Add(Dot(a[p := 0], z, n), Mul(a[p], z[p]))
  {
    var b := a[p := 0];
    if p == n - 1 {
      DotSame(a, z, b, z, n - 1);
      MulZero(z[p]); AddZero(Dot(b, z, n - 1));
    } else {
      DotSplit(a, z, p, n - 1);
      AddRotate(Dot(b, z, n - 1), Mul(a[p], z[p]), Mul(a[n - 1], z[n - 1]));
    }
  }

  lemma AddRotate(a: bv8, b: bv8, c: bv8)
    ensures Add(Add(a, b), c) == Add(Add(a, c), b)
  {
    AddAssoc(a, b, c); AddAssoc(a, c, b); AddCommutes(b, c);
  }

  // The entry that the step with pivot p leaves at (i, j)
  ghost function PivotEntry(m: Matrix, p: nat, i: nat, j: nat, k: nat): bv8
    requires Square(m, k) && p < k && i < k && j < k
  {
    var c := Inv(m[p][p]);
    if i == p then if j == p then c else Mul(c, m[p][j])
    else if j == p then Mul(m[i][p], c) else Add(m[i][j], Mul(m[i][p], Mul(c, m[p][j])))
  }

  ghost predicate IsPivot(m: Matrix, r: Matrix, p: nat, k: nat)
    requires Square(m, k) && Square(r, k) && p < k
  {
    m[p][p] != 0 && forall i, j :: 0 <= i < k && 0 <= j < k ==> r[i][j] == PivotEntry(m, p, i, j, k)
  }

  // A pivot step exchanges the input and the output at p.
  lemma PivotExchanges(m: Matrix, r: Matrix, p: nat, k: nat, z: Vector, w: Vector)
    requires Square(m, k) && Square(r, k) && p < k && IsPivot(m, r, p, k)
    requires |z| == k && |w| == k && Maps(m, z, w, k)
    ensures Maps(r, z[p := w[p]], w[p := z[p]], k)
  {
    var c := Inv(m[p][p]);
    var u := z[p := w[p]];
    PivotRowSolves(m, r, p, k, z, w);
    forall i | 0 <= i < k && i != p ensures w[i] == Dot(r[i], u, k) {
      PivotOtherRow(m, r, p, i, k, z, w);
    }
  }

  lemma PivotRowSolves(m: Matrix, r: Matrix, p: nat, k: nat, z: Vector, w: Vector)
    requires Square(m, k) && Square(r, k) && p < k && IsPivot(m, r, p, k)
    requires |z| == k && |w| == k && Maps(m, z, w, k)
    ensures Dot(r[p], z[p := w[p]], k) == z[p]
  {
    var c := Inv(m[p][p]);
    var u := z[p := w[p]];
    var a, b := m[p][p := 0], r[p][p := 0];
    var rest := Dot(a, z, k);
    MulZero(c);
    DotScale(a, c, b, z, k);
    ZeroedPrefix(b, z, u, p, k);
    DotSplit(r[p], u, p, k);
    DotSplit(m[p], z, p, k);
    // w[p] + rest = m[p][p] z[p]
    MulAddRight(c, rest, w[p]);
    AddCancel(rest, Mul(m[p][p], z[p]));
    MulAssoc(c, m[p][p], z[p]); MulCommutes(c, m[p][p]); MulOneLeft(z[p]);
  }

  lemma {:induction false} ZeroedPrefix(b: Vector, z: Vector, u: Vector, p: nat, n: nat)
    requires n <= |b| && n <= |z| && n <= |u| && p < |b| && b[p] == 0
    requires forall j :: 0 <= j < n && j != p ==> z[j] == u[j]
    ensures Dot(b, z, n) == Dot(b, u, n)
  {
    if n > 0 {
      ZeroedPrefix(b, z, u, p, n - 1);
      MulZero(z[n - 1]); MulZero(u[n - 1]);
    }
  }

  lemma AddCancel(a: bv8, b: bv8)
    ensures Add(a, Add(a, b)) == b
  {
    AddAssoc(a, a, b); AddSelf(a, a); AddZero(b);
  }

  lemma PivotOtherRow(m: Matrix, r: Matrix, p: nat, i: nat, k: nat, z: Vector, w: Vector)
    requires Square(m, k) && Square(r, k) && p < k && i < k && i != p && IsPivot(m, r, p, k)
    requires |z| == k && |w| == k && Maps(m, z, w, k)
    ensures w[i] == Dot(r[i], z[p := w[p]], k)
  {
    var d := m[i][p];
    var u := z[p := w[p]];
    var a := m[i][p := 0];
    var s := seq(k, j requires 0 <= j < k => Mul(d, r[p][j]));
    MulZero(d);
    forall j | 0 <= j < k ensures r[i][j] == Add(a[j], s[j]) {
      AddZero(s[j]);
    }
    DotAdd(a, s, r[i], u, k);
    DotScale(r[p], d, s, u, k);
    PivotRowSolves(m, r, p, k, z, w);
    ZeroedPrefix(a, z, u, p, k);
    DotSplit(m[i], z, p, k);
  }

  lemma InvInv(a: bv8)
    requires a != 0
    ensures Inv(a) != 0 && Inv(Inv(a)) == a
  {
    MulCommutes(a, Inv(a));
    InverseUnique(Inv(a), a);
  }

  // A pivot step undoes itself.
  lemma PivotIsInvolution(m: Matrix, r: Matrix, p: nat, k: nat)
    requires Square(m, k) && Square(r, k) && p < k && IsPivot(m, r, p, k)
    ensures IsPivot(r, m, p, k)
  {
    var q := m[p][p];
    var c := Inv(q);
    InvInv(q);
    forall i, j | 0 <= i < k && 0 <= j < k ensures m[i][j] == PivotEntry(r, p, i, j, k) {
      assert r[p][p] == c;
      var d, e := m[i][p], m[p][j];
      assert r[i][j] == PivotEntry(m, p, i, j, k);
      if i == p {
        if j != p { CancelInverse(q, e); }
      } else if j == p {
        assert r[i][p] == Mul(d, c);
        CancelInverse(q, d); MulCommutes(d, c); MulCommutes(Mul(d, c), q);
      } else {
        assert r[i][p] == Mul(d, c) && r[p][j] == Mul(c, e);
        // r[i][p] * (q * r[p][j]) = d * (c * e)
        CancelInverse(q, e); MulAssoc(d, c, e);
        AddAssoc(m[i][j], Mul(d, Mul(c, e)), Mul(d, Mul(c, e)));
        AddSelf(Mul(d, Mul(c, e)), Mul(d, Mul(c, e)));
        AddZero(m[i][j]);
      }
    }
  }

  lemma CancelInverse(q: bv8, e: bv8)
    requires q != 0
    ensures Mul(q, Mul(Inv(q), e)) == e
  {
    MulAssoc(q, Inv(q), e); MulOneLeft(e);
  }

  // So the system before the step and the one after it have the same solutions.
  lemma PivotPreservesSystem(m: Matrix, r: Matrix, p: nat, k: nat, z: Vector, w: Vector)
    requires Square(m, k) && Square(r, k) && p < k && IsPivot(m, r, p, k)
    requires |z| == k && |w| == k
    ensures Maps(m, z, w, k) <==> Maps(r, z[p := w[p]], w[p := z[p]], k)
  {
    var u, v := z[p := w[p]], w[p := z[p]];
    if Maps(m, z, w, k) { PivotExchanges(m, r, p, k, z, w); }
    if Maps(r, u, v, k) {
      PivotIsInvolution(m, r, p, k);
      PivotExchanges(r, m, p, k, u, v);
      assert u[p := v[p]] == z && v[p := u[p]] == w;
    }
  }

  lemma SwapRowsPreservesSystem(m: Matrix, a: nat, b: nat, k: nat, z: Vector, w: Vector)
    requires Square(m, k) && a < k && b < k && |z| == k && |w| == k
    ensures Square(Swap(m, a, b), k)
    ensures Maps(m, z, w, k) <==> Maps(Swap(m, a, b), z, Swap(w, a, b), k)
  {
    var r, v := Swap(m, a, b), Swap(w, a, b);
    if Maps(r, z, v, k) {
      forall i | 0 <= i < k ensures w[i] == Dot(m[i], z, k) {
        var j := if i == a then b else if i == b then a else i;
        assert r[j] == m[i] && v[j] == w[i];
      }
    }
  }

  ghost predicate ColumnsSwapped(m: Matrix, r: Matrix, a: nat, b: nat, k: nat)
    requires Square(m, k) && a < k && b < k
  {
    Square(r, k) && forall i :: 0 <= i < k ==> r[i] == Swap(m[i], a, b)
  }

  lemma SwapColumnsPreservesSystem(m: Matrix, r: Matrix, a: nat, b: nat, k: nat, z: Vector, w: Vector)
    requires Square(m, k) && a < k && b < k && |z| == k && |w| == k && ColumnsSwapped(m, r, a, b, k)
    ensures Maps(m, Swap(z, a, b), w, k) <==> Maps(r, z, w, k)
  {
    forall i | 0 <= i < k ensures Dot(m[i], Swap(z, a, b), k) == Dot(r[i], z, k) {
      DotSwap(m[i], Swap(z, a, b), a, b, k);
      assert Swap(Swap(z, a, b), a, b) == z;
    }
  }

  lemma DotSwap(x: Vector, z: Vector, a: nat, b: nat, k: nat)
    requires |x| == k && |z| == k && a < k && b < k
    ensures Dot(x, z, k) == Dot(Swap(x, a, b), Swap(z, a, b), k)
  {
    if a == b {
      assert Swap(x, a, b) == x && Swap(z, a, b) == z;
    } else {
      var x', z' := Swap(x, a, b), Swap(z, a, b);
      DotSplit(x, z, a, k); DotSplit(x[a := 0], z, b, k);
      DotSplit(x', z', a, k); DotSplit(x'[a := 0], z', b, k);
      assert x[a := 0][b := 0] == x'[a := 0][b := 0];
      TwiceZeroed(x[a := 0][b := 0], z, z', a, b, k);
      var d := Dot(x[a := 0][b := 0], z, k);
      AddRotate(d, Mul(x[b], z[b]), Mul(x[a], z[a]));
    }
  }

  lemma {:induction false} TwiceZeroed(x: Vector, z: Vector, u: Vector, a: nat, b: nat, n: nat)
    requires n <= |x| && n <= |z| && n <= |u| && a < |x| && b < |x| && x[a] == 0 && x[b] == 0
    requires forall j :: 0 <= j < n && j != a && j != b ==> z[j] == u[j]
    ensures Dot(x, z, n) == Dot(x, u, n)
  {
    if n > 0 {
      TwiceZeroed(x, z, u, a, b, n - 1);
      MulZero(z[n - 1]); MulZero(u[n - 1]);
    }
  }
}
