/** A k by k matrix stored row after row in one array. */
module FlatMatrix {
  import opened Sequences
  import opened Matrices

  lemma RowFits(i: nat, k: nat)
    requires i < k
    ensures 0 <= i * k && i * k + k <= k * k
  {
    assert (i + 1) * k <= k * k;
  }

  lemma RowsApart(i: nat, j: nat, k: nat)
    requires i < j
    ensures i * k + k <= j * k
  {
    assert (i + 1) * k <= j * k;
  }

  ghost function Row(s: seq<bv8>, k: nat, i: nat): (v: Vector)
    requires |s| == k * k && i < k
    ensures |v| == k
  {
    RowFits(i, k);
    s[i * k..i * k + k]
  }

  ghost function RowsOf(s: seq<bv8>, k: nat): (m: Matrix)
    requires |s| == k * k
    ensures Square(m, k) && forall i :: 0 <= i < k ==> m[i] == Row(s, k, i)
  {
    seq(k, i requires 0 <= i < k => Row(s, k, i))
  }

  lemma CellOf(s: seq<bv8>, k: nat, i: nat, j: nat)
    requires |s| == k * k && i < k && j < k
    ensures 0 <= i * k + j < |s| && RowsOf(s, k)[i][j] == s[i * k + j]
  {
    RowFits(i, k);
  }

  // Only row i differs.
  ghost predicate OnlyRow(s: seq<bv8>, t: seq<bv8>, k: nat, i: nat)
    requires |s| == k * k && |t| == k * k
  {
    forall q :: 0 <= q < |s| && !(i * k <= q < i * k + k) ==> t[q] == s[q]
  }

  lemma RowWritten(s: seq<bv8>, t: seq<bv8>, k: nat, i: nat)
    requires |s| == k * k && |t| == k * k && i < k && OnlyRow(s, t, k, i)
    ensures RowsOf(t, k) == RowsOf(s, k)[i := Row(t, k, i)]
  {
    forall j | 0 <= j < k && j != i ensures Row(t, k, j) == Row(s, k, j) {
      RowFits(j, k);
      if j < i { RowsApart(j, i, k); } else { RowsApart(i, j, k); }
    }
  }

  // The n entries at o1 and the n entries at o2 exchanged, nothing else.
  ghost predicate RangesSwapped(s: seq<bv8>, t: seq<bv8>, o1: nat, o2: nat, n: nat)
    requires o1 + n <= |s| && o2 + n <= |s|
  {
    && |t| == |s|
    && forall q {:trigger t[q]} :: 0 <= q < |s| ==>
         t[q] == (if o1 <= q < o1 + n then s[o2 + (q - o1)] else if o2 <= q < o2 + n then s[o1 + (q - o2)] else s[q])
  }

  lemma RangesExchanged(s: seq<bv8>, t: seq<bv8>, o1: nat, o2: nat, n: nat)
    requires o1 + n <= |s| && o2 + n <= |s| && (o1 + n <= o2 || o2 + n <= o1) && RangesSwapped(s, t, o1, o2, n)
    ensures t[o1..o1 + n] == s[o2..o2 + n] && t[o2..o2 + n] == s[o1..o1 + n]
  {}

  lemma RangesKept(s: seq<bv8>, t: seq<bv8>, o1: nat, o2: nat, n: nat, o: nat)
    requires o1 + n <= |s| && o2 + n <= |s| && RangesSwapped(s, t, o1, o2, n)
    requires o + n <= |s| && (o + n <= o1 || o1 + n <= o) && (o + n <= o2 || o2 + n <= o)
    ensures t[o..o + n] == s[o..o + n]
  {}

  lemma OtherRowKept(s: seq<bv8>, t: seq<bv8>, k: nat, r: nat, c: nat, j: nat, o1: nat, o2: nat)
    requires |s| == k * k && |t| == k * k && r < k && c < k && j < k && j != r && j != c
    requires o1 == r * k && o2 == c * k && o1 + k <= |s| && o2 + k <= |s|
    requires RangesSwapped(s, t, o1, o2, k)
    ensures Row(t, k, j) == Row(s, k, j)
  {
    RowFits(j, k);
    var o := j * k;
    if j < r { RowsApart(j, r, k); } else { RowsApart(r, j, k); }
    if j < c { RowsApart(j, c, k); } else { RowsApart(c, j, k); }
    RangesKept(s, t, o1, o2, k, o);
  }

  lemma RowsSwapped(s: seq<bv8>, t: seq<bv8>, k: nat, r: nat, c: nat)
    requires |s| == k * k && |t| == k * k && r < k && c < k && r != c
    requires r * k + k <= k * k && c * k + k <= k * k
    requires RangesSwapped(s, t, r * k, c * k, k)
    ensures RowsOf(t, k) == Swap(RowsOf(s, k), r, c)
  {
    if r < c { RowsApart(r, c, k); } else { RowsApart(c, r, k); }
    RangesExchanged(s, t, r * k, c * k, k);
    assert Row(t, k, r) == Row(s, k, c);
    assert Row(t, k, c) == Row(s, k, r);
    forall j | 0 <= j < k && j != r && j != c ensures Row(t, k, j) == Row(s, k, j) {
      OtherRowKept(s, t, k, r, c, j, r * k, c * k);
    }
  }
}
