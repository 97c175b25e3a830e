/** The systematic code: what a FEC block holds, and why any lost blocks come back. */
module ErasureCodeSpec {
  import opened GaloisField
  import opened Matrices
  import opened InversionSpec
  import opened Cauchy

  type Block = seq<bv8>

  const MAX_BLOCKS := 128

  // The coefficient of data block c in FEC block r
  ghost function Coefficient(r: nat, c: nat): bv8 { Inv(Add(Byte(128 + r), Byte(c))) }

  // It is the inverse of the difference of the two numbers as bytes, with 128 added to that of the FEC block.
  lemma CoefficientInverts(r: nat, c: nat)
    requires r < MAX_BLOCKS && c < MAX_BLOCKS
    ensures Mul(((128 + r) as bv8) ^ (c as bv8), Coefficient(r, c)) == 1
  {
    var a, b := Byte(128 + r), Byte(c);
    IndexOfByte(128 + r); IndexOfByte(c);
    AddSelf(a, b);
    ByteIsBv(128 + r); ByteIsBv(c); AddIsXor(a, b);
  }

  // Byte p of FEC block r, summed over the first n data blocks
  ghost function Parity(data: seq<Block>, r: nat, p: nat, n: nat): bv8
    requires n <= |data| && forall c :: 0 <= c < n ==> p < |data[c]|
  {
    if n == 0 then 0 else Add(Parity(data, r, p, n - 1), Mul(Coefficient(r, n - 1), data[n - 1][p]))
  }

  ghost predicate Sized(blocks: seq<Block>, size: nat) {
    forall i :: 0 <= i < |blocks| ==> |blocks[i]| == size
  }

  // Erased block numbers: strictly increasing, below n
  ghost predicate Erasures(erased: seq<nat>, n: nat) {
    && (forall i, j :: 0 <= i < j < |erased| ==> erased[i] < erased[j])
    && (forall i :: 0 <= i < |erased| ==> erased[i] < n)
  }

  ghost predicate FecNumbers(nos: seq<nat>) {
    && (forall i, j :: 0 <= i < j < |nos| ==> nos[i] != nos[j])
    && (forall i :: 0 <= i < |nos| ==> nos[i] < MAX_BLOCKS)
  }

  // The part of the sum that comes from the blocks that are not erased
  ghost function Kept(data: seq<Block>, erased: seq<nat>, r: nat, p: nat, n: nat): bv8
    requires n <= |data| && forall c :: 0 <= c < n ==> p < |data[c]|
  {
    if n == 0 then 0
    else if n - 1 in erased then Kept(data, erased, r, p, n - 1)
    else Add(Kept(data, erased, r, p, n - 1), Mul(Coefficient(r, n - 1), data[n - 1][p]))
  }

  // The part that comes from the first m erased blocks
  ghost function Lost(data: seq<Block>, erased: seq<nat>, r: nat, p: nat, m: nat): bv8
    requires m <= |erased| && forall i :: 0 <= i < m ==> erased[i] < |data| && p < |data[erased[i]]|
  {
    if m == 0 then 0
    else Add(Lost(data, erased, r, p, m - 1), Mul(Coefficient(r, erased[m - 1]), data[erased[m - 1]][p]))
  }

  lemma {:induction false} ParitySplit(data: seq<Block>, erased: seq<nat>, size: nat, r: nat, p: nat, n: nat, m: nat)
    requires n <= |data| && Sized(data, size) && p < size && Erasures(erased, |data|)
    requires m <= |erased| && (forall i :: 0 <= i < m ==> erased[i] < n)
             && (forall i :: m <= i < |erased| ==> n <= erased[i])
    ensures Parity(data, r, p, n) == Add(Kept(data, erased, r, p, n), Lost(data, erased, r, p, m))
  {
    if n == 0 {
      AddZero(0);
    } else {
      var term := Mul(Coefficient(r, n - 1), data[n - 1][p]);
      if m > 0 && erased[m - 1] == n - 1 {
        ParitySplit(data, erased, size, r, p, n - 1, m - 1);
        AddAssoc(Kept(data, erased, r, p, n - 1), Lost(data, erased, r, p, m - 1), term);
      } else {
        ParitySplit(data, erased, size, r, p, n - 1, m);
        AddRotate(Kept(data, erased, r, p, n - 1), Lost(data, erased, r, p, m), term);
      }
    }
  }

  lemma {:induction false} KeptSame(x: seq<Block>, y: seq<Block>, erased: seq<nat>, r: nat, p: nat, n: nat)
    requires n <= |x| && n <= |y| && forall c :: 0 <= c < n ==> p < |x[c]| && p < |y[c]|
    requires forall c :: 0 <= c < n && c !in erased ==> x[c][p] == y[c][p]
    ensures Kept(x, erased, r, p, n) == Kept(y, erased, r, p, n)
  {
    if n > 0 { KeptSame(x, y, erased, r, p, n - 1); }
  }

  // The two sets of points behind the small matrix
  ghost function RowPoints(nos: seq<nat>): (v: Vector) { seq(|nos|, j requires 0 <= j < |nos| => Byte(128 + nos[j])) }

  ghost function ColumnPoints(erased: seq<nat>): (v: Vector) {
    seq(|erased|, i requires 0 <= i < |erased| => Byte(erased[i]))
  }

  lemma PointsApart(nos: seq<nat>, erased: seq<nat>, n: nat)
    requires |nos| == |erased| && FecNumbers(nos) && Erasures(erased, n) && n <= MAX_BLOCKS
    ensures Points(RowPoints(nos), ColumnPoints(erased), |nos|)
  {
    forall j | 0 <= j < |nos|
      ensures Index(RowPoints(nos)[j]) == 128 + nos[j] && Index(ColumnPoints(erased)[j]) == erased[j]
    {
      IndexOfByte(128 + nos[j]); IndexOfByte(erased[j]);
    }
  }

  // The matrix that takes the erased blocks to the reduced FEC blocks
  ghost function SmallMatrix(nos: seq<nat>, erased: seq<nat>): (m: Matrix)
    requires |nos| == |erased|
    ensures Square(m, |nos|)
  {
    CauchyMatrix(RowPoints(nos), ColumnPoints(erased), |nos|)
  }

  lemma SmallMatrixIsRegular(nos: seq<nat>, erased: seq<nat>, n: nat, q: nat)
    requires |nos| == |erased| && FecNumbers(nos) && Erasures(erased, n) && n <= MAX_BLOCKS && q < |nos|
    ensures !LeadingSingular(SmallMatrix(nos, erased), q, |nos|)
  {
    PointsApart(nos, erased, n);
    CauchyIsRegular(RowPoints(nos), ColumnPoints(erased), |nos|, q);
  }

  // Byte p of the erased blocks
  ghost function LostColumn(data: seq<Block>, erased: seq<nat>, p: nat): (v: Vector)
    requires forall i :: 0 <= i < |erased| ==> erased[i] < |data| && p < |data[erased[i]]|
    ensures |v| == |erased|
  {
    seq(|erased|, i requires 0 <= i < |erased| => data[erased[i]][p])
  }

  lemma {:induction false} LostIsDot(data: seq<Block>, nos: seq<nat>, erased: seq<nat>, p: nat, j: nat, m: nat)
    requires |nos| == |erased| && j < |nos| && m <= |erased|
    requires forall i :: 0 <= i < |erased| ==> erased[i] < |data| && p < |data[erased[i]]|
    ensures Lost(data, erased, nos[j], p, m) == Dot(SmallMatrix(nos, erased)[j], LostColumn(data, erased, p), m)
  {
    if m > 0 { LostIsDot(data, nos, erased, p, j, m - 1); }
  }

  // Two sets of data blocks that agree outside the erasures and in the chosen FEC blocks
  ghost predicate SameReceived(x: seq<Block>, y: seq<Block>, size: nat, nos: seq<nat>, erased: seq<nat>) {
    && |x| == |y| && Sized(x, size) && Sized(y, size)
    && (forall c :: 0 <= c < |x| && c !in erased ==> x[c] == y[c])
    && (forall j, p :: 0 <= j < |nos| && 0 <= p < size ==> Parity(x, nos[j], p, |x|) == Parity(y, nos[j], p, |x|))
  }

  // As many distinct FEC blocks as there are erasures determine the data.
  lemma ErasedDetermined(x: seq<Block>, y: seq<Block>, size: nat, nos: seq<nat>, erased: seq<nat>)
    requires |x| <= MAX_BLOCKS && |nos| == |erased| && FecNumbers(nos) && Erasures(erased, |x|)
    requires SameReceived(x, y, size, nos, erased)
    ensures x == y
  {
    forall c | 0 <= c < |x| ensures x[c] == y[c] {
      if c in erased {
        var i :| 0 <= i < |erased| && erased[i] == c;
        forall p | 0 <= p < size ensures x[c][p] == y[c][p] {
          ColumnDetermined(x, y, size, nos, erased, p);
          assert LostColumn(x, erased, p)[i] == LostColumn(y, erased, p)[i];
        }
      }
    }
  }

  lemma ColumnDetermined(x: seq<Block>, y: seq<Block>, size: nat, nos: seq<nat>, erased: seq<nat>, p: nat)
    requires |x| <= MAX_BLOCKS && |nos| == |erased| && FecNumbers(nos) && Erasures(erased, |x|)
    requires SameReceived(x, y, size, nos, erased) && p < size
    ensures LostColumn(x, erased, p) == LostColumn(y, erased, p)
  {
    var k := |nos|;
    var u, v := LostColumn(x, erased, p), LostColumn(y, erased, p);
    var w := seq(k, i requires 0 <= i < k => Add(u[i], v[i]));
    var m := SmallMatrix(nos, erased);
    forall j | 0 <= j < k ensures Dot(m[j], w, k) == 0 {
      ParitySplit(x, erased, size, nos[j], p, |x|, k); ParitySplit(y, erased, size, nos[j], p, |x|, k);
      KeptSame(x, y, erased, nos[j], p, |x|);
      LostIsDot(x, nos, erased, p, j, k); LostIsDot(y, nos, erased, p, j, k);
      AddCancel(Kept(x, erased, nos[j], p, |x|), Dot(m[j], u, k));
      AddCancel(Kept(x, erased, nos[j], p, |x|), Dot(m[j], v, k));
      DotAddRight(m[j], u, v, w, k); AddSelf(Dot(m[j], u, k), Dot(m[j], v, k));
    }
    if k > 0 {
      PointsApart(nos, erased, |x|);
      LeadingKernelIsZero(RowPoints(nos), ColumnPoints(erased), k, k - 1, w);
    }
    forall i | 0 <= i < k ensures u[i] == v[i] {
      AddSelf(u[i], v[i]);
      assert w[i] == Zeros(k)[i];
    }
  }

  lemma {:induction false} DotAddRight(a: Vector, x: Vector, y: Vector, z: Vector, n: nat)
    requires n <= |a| && n <= |x| && n <= |y| && n <= |z|
    requires forall j :: 0 <= j < n ==> z[j] == Add(x[j], y[j])
    ensures Dot(a, z, n) == Add(Dot(a, x, n), Dot(a, y, n))
  {
    if n == 0 { AddZero(0); } else {
      DotAddRight(a, x, y, z, n - 1);
      MulAddRight(a[n - 1], x[n - 1], y[n - 1]);
      AddSwap(Dot(a, x, n - 1), Dot(a, y, n - 1), Mul(a[n - 1], x[n - 1]), Mul(a[n - 1], y[n - 1]));
    }
  }

  // The executable index computations name the same coefficients.
  lemma HighBit(r: int)
    requires 0 <= r < 128
    ensures Byte(128 + r) == Add(Byte(128), Byte(r))
  {
    IndexOfByte(r); ByteIsBv(r); ByteIsBv(128); IndexIsInt(Byte(r));
    AddIsXor(Byte(128), Byte(r));
    HighBitSet(Byte(r));
    IndexIsInt(0x80 ^ Byte(r)); ByteOfIndex(0x80 ^ Byte(r));
  }

  lemma HighBitSet(x: bv8)
    requires x as int < 128
    ensures (0x80 ^ x) as int == 128 + x as int
  {
    assert x < 0x80;
  }
}
