/** Cauchy matrices 1 / (a_i + b_j) are never singular. */
module Cauchy {
  import opened GaloisField
  import opened Matrices
  import opened InversionSpec

  // The points that define the matrix: rows apart, columns apart, rows apart from columns
  ghost predicate Points(a: Vector, b: Vector, n: nat) {
    && n <= |a| && n <= |b|
    && (forall i, j :: 0 <= i < j < n ==> a[i] != a[j] && b[i] != b[j])
    && (forall i, j :: 0 <= i < n && 0 <= j < n ==> a[i] != b[j])
  }

  // The first n terms of the row at x applied to v
  ghost function Sum(x: bv8, b: Vector, v: Vector, n: nat): bv8
    requires n <= |b| && n <= |v|
  {
    if n == 0 then 0 else Add(Sum(x, b, v, n - 1), Mul(Inv(Add(x, b[n - 1])), v[n - 1]))
  }

  // v (p + r) / p = v + v r / p
  lemma SplitQuotient(p: bv8, r: bv8, v: bv8)
    requires p != 0
    ensures Mul(Add(p, r), Mul(Inv(p), v)) == Add(v, Mul(r, Mul(Inv(p), v)))
  {
    var w := Mul(Inv(p), v);
    MulAddLeft(p, r, w);
    MulAssoc(p, Inv(p), v); MulOneLeft(v);
  }

  // v r / p + v r / q = (p + q) u / p, where u = v r / q
  lemma CombineQuotients(p: bv8, q: bv8, r: bv8, v: bv8)
    requires p != 0 && q != 0
    ensures Add(Mul(r, Mul(Inv(p), v)), Mul(r, Mul(Inv(q), v))) == Mul(Add(p, q), Mul(Inv(p), Mul(r, Mul(Inv(q), v))))
  {
    var u := Mul(r, Mul(Inv(q), v));
    var w := Mul(Inv(p), u);
    // (p + q) u / p = u + q u / p, and q u / p = r v / p
    MulAddLeft(p, q, w);
    MulAssoc(p, Inv(p), u); MulOneLeft(u);
    SwapFactors(q, Inv(p), u);
    SwapFactors(q, r, Mul(Inv(q), v));
    MulAssoc(q, Inv(q), v); MulOneLeft(v);
    SwapFactors(Inv(p), r, v);
    AddCommutes(u, Mul(r, Mul(Inv(p), v)));
  }

  lemma SwapFactors(a: bv8, b: bv8, c: bv8)
    ensures Mul(a, Mul(b, c)) == Mul(b, Mul(a, c))
  {
    MulAssoc(a, b, c); MulAssoc(b, a, c); MulCommutes(a, b);
  }

  // One term of the elimination of column n with row m
  lemma TermEliminated(x: bv8, y: bv8, b: bv8, last: bv8, v: bv8)
    requires x != b && y != b
    ensures Add(Mul(Add(x, last), Mul(Inv(Add(x, b)), v)), Mul(Add(y, last), Mul(Inv(Add(y, b)), v)))
         == Mul(Add(x, y), Mul(Inv(Add(x, b)), Mul(Add(b, last), Mul(Inv(Add(y, b)), v))))
  {
    var p, q, r := Add(x, b), Add(y, b), Add(b, last);
    AddSelf(x, b); AddSelf(y, b);
    AddVia(x, b, last); AddVia(y, b, last); AddVia(x, b, y); AddCommutes(b, y);
    SplitQuotient(p, r, v); SplitQuotient(q, r, v);
    var s, t := Mul(r, Mul(Inv(p), v)), Mul(r, Mul(Inv(q), v));
    AddSwap(v, s, v, t); AddSelf(v, v); AddZero(Add(s, t));
    CombineQuotients(p, q, r, v);
  }

  // x + z = (x + y) + (y + z)
  lemma AddVia(x: bv8, y: bv8, z: bv8)
    ensures Add(x, z) == Add(Add(x, y), Add(y, z))
  {
    AddAssoc(x, y, Add(y, z)); AddCancel(y, z);
  }

  ghost function Eliminate(b: Vector, v: Vector, y: bv8, last: bv8): (u: Vector)
    requires |b| == |v|
    ensures |u| == |v|
  {
    seq(|v|, i requires 0 <= i < |v| => Mul(Add(b[i], last), Mul(Inv(Add(y, b[i])), v[i])))
  }

  lemma {:induction false} SumEliminated(x: bv8, y: bv8, b: Vector, v: Vector, last: bv8, n: nat)
    requires |b| == |v| && n <= |b| && forall i :: 0 <= i < n ==> x != b[i] && y != b[i]
    ensures Add(Mul(Add(x, last), Sum(x, b, v, n)), Mul(Add(y, last), Sum(y, b, v, n)))
         == Mul(Add(x, y), Sum(x, b, Eliminate(b, v, y, last), n))
  {
    var u := Eliminate(b, v, y, last);
    if n == 0 {
      MulZero(Add(x, last)); MulZero(Add(y, last)); MulZero(Add(x, y)); AddZero(0);
    } else {
      var m := n - 1;
      SumEliminated(x, y, b, v, last, m);
      var tx, ty, tu := Mul(Inv(Add(x, b[m])), v[m]), Mul(Inv(Add(y, b[m])), v[m]), Mul(Inv(Add(x, b[m])), u[m]);
      MulAddRight(Add(x, last), Sum(x, b, v, m), tx);
      MulAddRight(Add(y, last), Sum(y, b, v, m), ty);
      MulAddRight(Add(x, y), Sum(x, b, u, m), tu);
      AddSwap(Mul(Add(x, last), Sum(x, b, v, m)), Mul(Add(x, last), tx), Mul(Add(y, last), Sum(y, b, v, m)),
              Mul(Add(y, last), ty));
      TermEliminated(x, y, b[m], last, v[m]);
    }
  }

  // A vector that every row sends to zero is zero.
  lemma {:induction false} KernelIsZero(a: Vector, b: Vector, v: Vector, n: nat)
    requires Points(a, b, n) && |b| == |v|
    requires forall j :: 0 <= j < n ==> Sum(a[j], b, v, n) == 0
    ensures forall i :: 0 <= i < n ==> v[i] == 0
    decreases n
  {
    if n > 0 {
      var m := n - 1;
      var y, last := a[m], b[m];
      var u := Eliminate(b, v, y, last);
      forall j | 0 <= j < m ensures Sum(a[j], b, u, m) == 0 {
        RowEliminated(a[j], y, b, v, m);
      }
      KernelIsZero(a, b, u, m);
      BackSubstituted(b, v, y, last, m);
      SumOfZeros(y, b, v, m);
      LastTerm(y, b, v, m); MulZero(Add(y, last));
    }
  }

  lemma BackSubstituted(b: Vector, v: Vector, y: bv8, last: bv8, m: nat)
    requires |b| == |v| && m <= |v| && forall i :: 0 <= i < m ==> b[i] != last && b[i] != y
    requires forall i :: 0 <= i < m ==> Eliminate(b, v, y, last)[i] == 0
    ensures forall i :: 0 <= i < m ==> v[i] == 0
  {
    forall i | 0 <= i < m ensures v[i] == 0 {
      assert Eliminate(b, v, y, last)[i] == Mul(Add(b[i], last), Mul(Inv(Add(y, b[i])), v[i]));
      AddSelf(b[i], last); AddSelf(y, b[i]);
      ZeroQuotient(Add(b[i], last), Add(y, b[i]), v[i]);
    }
  }

  // r v / q = 0 only for v = 0
  lemma ZeroQuotient(r: bv8, q: bv8, v: bv8)
    requires r != 0 && q != 0 && Mul(r, Mul(Inv(q), v)) == 0
    ensures v == 0
  {
    MulNonzero(r, Mul(Inv(q), v)); MulNonzero(Inv(q), v); InvNonzero(q);
  }

  lemma {:induction false} SumOfZeros(x: bv8, b: Vector, v: Vector, n: nat)
    requires n <= |b| && n <= |v| && forall i :: 0 <= i < n ==> v[i] == 0
    ensures Sum(x, b, v, n) == 0
  {
    if n > 0 { SumOfZeros(x, b, v, n - 1); MulZero(Inv(Add(x, b[n - 1]))); AddZero(0); }
  }

  lemma RowEliminated(x: bv8, y: bv8, b: Vector, v: Vector, m: nat)
    requires |b| == |v| && m < |b| && forall i :: 0 <= i <= m ==> x != b[i] && y != b[i]
    requires Sum(x, b, v, m + 1) == 0 && Sum(y, b, v, m + 1) == 0 && x != y
    ensures Sum(x, b, Eliminate(b, v, y, b[m]), m) == 0
  {
    var last := b[m];
    SumEliminated(x, y, b, v, last, m);
    LastTerm(x, b, v, m); LastTerm(y, b, v, m);
    AddSelf(v[m], v[m]); AddSelf(x, y);
    MulNonzero(Add(x, y), Sum(x, b, Eliminate(b, v, y, last), m));
  }

  // When the row at x sends v to zero, its first m terms times (x + b[m]) are v[m].
  lemma LastTerm(x: bv8, b: Vector, v: Vector, m: nat)
    requires m < |b| && m < |v| && x != b[m] && Sum(x, b, v, m + 1) == 0
    ensures Mul(Add(x, b[m]), Sum(x, b, v, m)) == v[m]
  {
    var s, t := Sum(x, b, v, m), Mul(Inv(Add(x, b[m])), v[m]);
    AddSelf(s, t); AddSelf(x, b[m]);
    CancelInverse(Add(x, b[m]), v[m]);
  }

  ghost function CauchyMatrix(a: Vector, b: Vector, k: nat): (c: Matrix)
    requires k <= |a| && k <= |b|
    ensures Square(c, k)
  {
    seq(k, j requires 0 <= j < k => seq(k, i requires 0 <= i < k => Inv(Add(a[j], b[i]))))
  }

  lemma {:induction false} DotIsSum(a: Vector, b: Vector, v: Vector, k: nat, j: nat, n: nat)
    requires k <= |a| && k <= |b| && j < k && n <= k && n <= |v|
    ensures Dot(CauchyMatrix(a, b, k)[j], v, n) == Sum(a[j], b, v, n)
  {
    if n > 0 { DotIsSum(a, b, v, k, j, n - 1); }
  }

  lemma LeadingKernelIsZero(a: Vector, b: Vector, k: nat, q: nat, x: Vector)
    requires |a| == k && |b| == k && Points(a, b, k) && q < k
    requires |x| == k && forall i :: q < i < k ==> x[i] == 0
    requires forall j :: 0 <= j <= q ==> Dot(CauchyMatrix(a, b, k)[j], x, k) == 0
    ensures x == Zeros(k)
  {
    forall j | 0 <= j < q + 1 ensures Sum(a[j], b, x, q + 1) == 0 {
      LeadingSum(a, b, k, q, x, j);
    }
    KernelIsZero(a, b, x, q + 1);
  }

  lemma LeadingSum(a: Vector, b: Vector, k: nat, q: nat, x: Vector, j: nat)
    requires k <= |a| && k <= |b| && j <= q < k && |x| == k && forall i :: q < i < k ==> x[i] == 0
    ensures Sum(a[j], b, x, q + 1) == Dot(CauchyMatrix(a, b, k)[j], x, k)
  {
    DotTail(CauchyMatrix(a, b, k)[j], x, q + 1, k);
    DotIsSum(a, b, x, k, j, q + 1);
  }

  // Neither the matrix nor any leading part of it is singular.
  lemma CauchyIsRegular(a: Vector, b: Vector, k: nat, q: nat)
    requires |a| == k && |b| == k && Points(a, b, k) && q < k
    ensures !LeadingSingular(CauchyMatrix(a, b, k), q, k)
  {
    if LeadingSingular(CauchyMatrix(a, b, k), q, k) {
      var x :| AnnihilatesLeading(CauchyMatrix(a, b, k), x, q, k);
      LeadingKernelIsZero(a, b, k, q, x);
      assert false;
    }
  }

  lemma {:induction false} DotTail(a: Vector, z: Vector, m: nat, n: nat)
    requires m <= n && n <= |a| && n <= |z| && forall i :: m <= i < n ==> z[i] == 0
    ensures Dot(a, z, m) == Dot(a, z, n)
  {
    if m < n { DotTail(a, z, m, n - 1); MulZero(a[n - 1]); AddZero(Dot(a, z, n - 1)); }
  }
}
