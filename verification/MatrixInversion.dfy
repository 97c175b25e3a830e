/** invert_mat: Gauss-Jordan elimination in place, with full pivoting. */
module MatrixInversion {
  import opened Sequences
  import opened GaloisField
  import opened GaloisTables
  import opened GaloisVectors
  import opened Matrices
  import opened InversionSpec
  import opened FlatMatrix

  // The pivots used so far
  ghost predicate Used(ipiv: seq<int>, d: set<int>) {
    && (forall i :: 0 <= i < |ipiv| ==> ipiv[i] == if i in d then 1 else 0)
    && (forall i :: i in d ==> 0 <= i < |ipiv|)
  }

  method SwapRows(src: array<bv8>, k: nat, r: nat, c: nat)
    requires src.Length == k * k && r < k && c < k && r != c
    modifies src
    ensures RowsOf(src[..], k) == Swap(RowsOf(old(src[..]), k), r, c)
  {
    RowFits(r, k); RowFits(c, k);
    if r < c { RowsApart(r, c, k); } else { RowsApart(c, r, k); }
    var o1, o2 := r * k, c * k;
    ghost var before := src[..];
    for ix := 0 to k
      invariant RangesSwapped(before, src[..], o1, o2, ix)
    {
      src[o1 + ix], src[o2 + ix] := src[o2 + ix], src[o1 + ix];
    }
    RowsSwapped(before, src[..], k, r, c);
  }

  // First the diagonal, then anywhere in the rows and columns not used yet; -1 when there is nothing.
  method FindPivot(src: array<bv8>, k: nat, ipiv: array<int>, col: nat, ghost d: set<int>)
    returns (irow: int, icol: int)
    requires src.Length == k * k && ipiv.Length == k && col < k && Used(ipiv[..], d)
    ensures irow == -1 ==>
              icol == -1 && forall i, j :: 0 <= i < k && 0 <= j < k && i !in d && j !in d ==>
                RowsOf(src[..], k)[i][j] == 0
    ensures irow != -1 ==>
              0 <= irow < k && 0 <= icol < k && irow !in d && icol !in d && RowsOf(src[..], k)[irow][icol] != 0
    ensures col !in d && RowsOf(src[..], k)[col][col] != 0 ==> irow == col && icol == col
  {
    ghost var m := RowsOf(src[..], k);
    CellOf(src[..], k, col, col);
    if ipiv[col] != 1 && src[col * k + col] != 0 {
      return col, col;
    }
    for row := 0 to k
      invariant forall i, j :: 0 <= i < row && 0 <= j < k && i !in d && j !in d ==> m[i][j] == 0
    {
      if ipiv[row] != 1 {
        for ix := 0 to k
          invariant forall j :: 0 <= j < ix && j !in d ==> m[row][j] == 0
        {
          CellOf(src[..], k, row, ix);
          // the test for ipiv[ix] > 1 never holds
          assert ipiv[ix] <= 1;
          if ipiv[ix] == 0 {
            if src[row * k + ix] != 0 {
              return row, ix;
            }
          }
        }
      }
    }
    return -1, -1;
  }

  // The pivot row divided by its pivot, the pivot's own place holding the inverse
  ghost predicate RowNormalized(m: Matrix, r: Matrix, p: nat, k: nat)
    requires Square(m, k) && Square(r, k) && p < k
  {
    && (forall j :: 0 <= j < k ==> r[p][j] == PivotEntry(m, p, p, j, k))
    && (forall i :: 0 <= i < k && i != p ==> r[i] == m[i])
  }

  method ScaleCells(t: Tables, src: array<bv8>, o: nat, k: nat, c: bv8)
    requires t.Valid() && src !in t.Arrays() && o + k <= src.Length
    modifies src
    ensures forall q {:trigger src[q]} :: 0 <= q < src.Length ==>
              src[q] == if o <= q < o + k then Mul(c, old(src[q])) else old(src[q])
  {
    for ix := 0 to k
      invariant forall q {:trigger src[q]} :: 0 <= q < src.Length ==>
        src[q] == if o <= q < o + ix then Mul(c, old(src[q])) else old(src[q])
    {
      src[o + ix] := t.GfMul(c, src[o + ix]);
    }
  }

  method NormalizeRow(t: Tables, src: array<bv8>, k: nat, p: nat)
    requires t.Valid() && src !in t.Arrays()
    requires src.Length == k * k && p < k && RowsOf(src[..], k)[p][p] != 0
    modifies src
    ensures RowNormalized(RowsOf(old(src[..]), k), RowsOf(src[..], k), p, k)
  {
    ghost var before := src[..];
    ghost var m := RowsOf(before, k);
    RowFits(p, k);
    CellOf(before, k, p, p);
    var o := p * k;
    var c := src[o + p];
    // the test for a zero pivot never holds
    assert c != 0;
    if c != 1 {
      c := t.GfInverse(c);
      src[o + p] := 1;
      ScaleCells(t, src, o, k, c);
      RowWritten(before, src[..], k, p);
      MulOneRight(c);
    } else {
      InverseOfOne();
      forall j | 0 <= j < k ensures Mul(1, m[p][j]) == m[p][j] { MulOneLeft(m[p][j]); }
    }
  }

  // memcmp of the pivot row with the row of the identity
  method IsIdentityRow(src: array<bv8>, k: nat, p: nat, idRow: array<bv8>) returns (same: bool)
    requires src.Length == k * k && p < k && idRow.Length == k
    ensures same <==> RowsOf(src[..], k)[p] == idRow[..]
  {
    RowFits(p, k);
    for ix := 0 to k
      invariant forall j :: 0 <= j < ix ==> RowsOf(src[..], k)[p][j] == idRow[j]
    {
      CellOf(src[..], k, p, ix);
      if src[p * k + ix] != idRow[ix] {
        assert RowsOf(src[..], k)[p][ix] != idRow[..][ix];
        return false;
      }
    }
    return true;
  }

  // One other row: its entry at the pivot column cleared, then a multiple of the pivot row added
  ghost predicate RowCleared(m: Matrix, r: Matrix, p: nat, i: nat, k: nat)
    requires Square(m, k) && Square(r, k) && p < k && i < k
  {
    && (forall j :: 0 <= j < k ==> r[i][j] == Add(if j == p then 0 else m[i][j], Mul(m[i][p], m[p][j])))
    && (forall h :: 0 <= h < k && h != i ==> r[h] == m[h])
  }

  method ClearRow(t: Tables, src: array<bv8>, k: nat, p: nat, i: nat)
    requires t.Valid() && src !in t.Arrays()
    requires src.Length == k * k && p < k && i < k && i != p
    modifies src
    ensures RowCleared(RowsOf(old(src[..]), k), RowsOf(src[..], k), p, i, k)
  {
    ghost var before := src[..];
    RowFits(p, k); RowFits(i, k);
    if i < p { RowsApart(i, p, k); } else { RowsApart(p, i, k); }
    CellOf(before, k, i, p);
    var c := src[i * k + p];
    src[i * k + p] := 0;
    AddMul(t, src, i * k, src, p * k, c, k);
    RowWritten(before, src[..], k, i);
  }

  // What the loop over the other rows leaves when all rows below n are done
  ghost predicate RowsCleared(m: Matrix, r: Matrix, p: nat, n: nat, k: nat)
    requires Square(m, k) && Square(r, k) && p < k && n <= k
  {
    && (forall i, j :: 0 <= i < n && i != p && 0 <= j < k ==>
         r[i][j] == Add(if j == p then 0 else m[i][j], Mul(m[i][p], m[p][j])))
    && r[p] == m[p] && (forall i :: n <= i < k ==> r[i] == m[i])
  }

  method ClearRows(t: Tables, src: array<bv8>, k: nat, p: nat)
    requires t.Valid() && src !in t.Arrays()
    requires src.Length == k * k && p < k
    modifies src
    ensures RowsCleared(RowsOf(old(src[..]), k), RowsOf(src[..], k), p, k, k)
  {
    ghost var m := RowsOf(src[..], k);
    for ix := 0 to k
      invariant RowsCleared(m, RowsOf(src[..], k), p, ix, k)
    {
      if ix != p {
        ClearRow(t, src, k, p, ix);
      }
    }
  }

  lemma ClearedIsPivot(m: Matrix, n: Matrix, r: Matrix, p: nat, k: nat)
    requires Square(m, k) && Square(n, k) && Square(r, k) && p < k && m[p][p] != 0
    requires RowNormalized(m, n, p, k) && RowsCleared(n, r, p, k, k)
    ensures IsPivot(m, r, p, k)
  {
    forall i, j | 0 <= i < k && 0 <= j < k ensures r[i][j] == PivotEntry(m, p, i, j, k) {
      assert n[p][j] == PivotEntry(m, p, p, j, k) && r[p] == n[p];
      if i != p {
        assert n[i] == m[i];
        AddZero(Mul(m[i][p], n[p][j]));
      }
    }
  }

  // With the identity as pivot row there is nothing to add to the other rows.
  lemma IdentityRowIsPivot(m: Matrix, n: Matrix, p: nat, k: nat)
    requires Square(m, k) && Square(n, k) && p < k && m[p][p] != 0
    requires RowNormalized(m, n, p, k) && n[p] == Unit(k, p)
    ensures IsPivot(m, n, p, k)
  {
    assert n[p][p] == 1 == PivotEntry(m, p, p, p, k);
    forall i, j | 0 <= i < k && 0 <= j < k ensures n[i][j] == PivotEntry(m, p, i, j, k) {
      if i != p {
        assert n[p][j] == (if j == p then 1 else 0) == PivotEntry(m, p, p, j, k);
        assert n[i] == m[i];
        MulOneRight(m[i][p]); MulZero(m[i][p]); AddZero(m[i][j]);
      }
    }
  }

  method PivotStep(t: Tables, src: array<bv8>, k: nat, p: nat, idRow: array<bv8>)
    requires t.Valid() && src !in t.Arrays() && idRow !in t.Arrays() && src != idRow
    requires src.Length == k * k && p < k && RowsOf(src[..], k)[p][p] != 0
    requires idRow.Length == k && idRow[..] == Zeros(k)
    modifies src, idRow
    ensures idRow[..] == Zeros(k)
    ensures IsPivot(RowsOf(old(src[..]), k), RowsOf(src[..], k), p, k)
  {
    ghost var m := RowsOf(src[..], k);
    NormalizeRow(t, src, k, p);
    ghost var n := RowsOf(src[..], k);
    idRow[p] := 1;
    assert idRow[..] == Unit(k, p);
    var same := IsIdentityRow(src, k, p, idRow);
    if !same {
      ClearRows(t, src, k, p);
      ClearedIsPivot(m, n, RowsOf(src[..], k), p, k);
    } else {
      IdentityRowIsPivot(m, n, p, k);
    }
    idRow[p] := 0;
    assert idRow[..] == Zeros(k);
  }

  method SwapCells(src: array<bv8>, k: nat, row: nat, a: nat, b: nat)
    requires src.Length == k * k && row < k && a < k && b < k
    modifies src
    ensures RowsOf(src[..], k) == RowsOf(old(src[..]), k)[row := Swap(RowsOf(old(src[..]), k)[row], a, b)]
  {
    ghost var before := src[..];
    CellOf(before, k, row, a); CellOf(before, k, row, b);
    RowFits(row, k);
    src[row * k + a], src[row * k + b] := src[row * k + b], src[row * k + a];
    RowWritten(before, src[..], k, row);
  }

  method SwapColumns(src: array<bv8>, k: nat, a: nat, b: nat)
    requires src.Length == k * k && a < k && b < k
    modifies src
    ensures ColumnsSwapped(RowsOf(old(src[..]), k), RowsOf(src[..], k), a, b, k)
  {
    ghost var m := RowsOf(src[..], k);
    for row := 0 to k
      invariant forall i :: 0 <= i < row ==> RowsOf(src[..], k)[i] == Swap(m[i], a, b)
      invariant forall i :: row <= i < k ==> RowsOf(src[..], k)[i] == m[i]
    {
      SwapCells(src, k, row, a, b);
    }
  }

  // No pivot left although some index is unused
  lemma SearchFailed(a: Matrix, s: Matrix, d: set<int>, rows: seq<int>, cols: seq<int>, n: nat, k: nat)
    requires Square(a, k) && Square(s, k) && Recorded(rows, cols, n, k) && Exchanged(a, s, d, rows, cols, n, k)
    requires (forall i :: i in d ==> 0 <= i < k) && |d| < k
    requires forall i, j :: 0 <= i < k && 0 <= j < k && i !in d && j !in d ==> s[i][j] == 0
    ensures Singular(a, k)
  {
    var q := UnusedIndex(d, k);
    NoPivotIsSingular(a, s, d, rows, cols, n, k, q);
  }

  lemma {:induction false} UnusedIndex(d: set<int>, k: nat) returns (q: nat)
    requires (forall i :: i in d ==> 0 <= i < k) && |d| < k
    ensures q < k && q !in d
  {
    if k - 1 in d {
      assert |d - {k - 1}| == |d| - 1;
      q := UnusedIndex(d - {k - 1}, k - 1);
    } else {
      q := k - 1;
    }
  }

  lemma {:induction false} AllUsed(d: set<int>, k: nat)
    requires (forall i :: i in d ==> 0 <= i < k) && |d| == k
    ensures forall i :: 0 <= i < k ==> i in d
  {
    forall i | 0 <= i < k ensures i in d {
      if i !in d {
        FewerThan(d + {i}, k);
      }
    }
  }

  lemma {:induction false} FewerThan(d: set<int>, k: nat)
    requires forall i :: i in d ==> 0 <= i < k
    ensures |d| <= k
  {
    if k == 0 {
      assert forall i :: i !in d;
      assert d == {};
    } else {
      FewerThan(d - {k - 1}, k - 1);
    }
  }

  // The state of the elimination after n columns
  ghost predicate Eliminated(a: Matrix, s: Matrix, d: set<int>, ipiv: seq<int>, rows: seq<int>, cols: seq<int>, n: nat,
                             k: nat)
    requires Square(a, k)
  {
    && Square(s, k) && |ipiv| == k && |rows| == k && |cols| == k && n <= k
    && Used(ipiv, d) && |d| == n
    && Recorded(rows, cols, n, k) && Exchanged(a, s, d, rows, cols, n, k)
  }

  // Every pivot so far was found on the diagonal.
  ghost predicate OnDiagonal(d: set<int>, rows: seq<int>, cols: seq<int>, n: nat, k: nat)
    requires n <= |rows| && n <= |cols|
  {
    && (forall t :: 0 <= t < n ==> rows[t] == t && cols[t] == t)
    && (forall i :: 0 <= i < k ==> (i in d <==> i < n))
  }

  ghost predicate Separate(t: Tables, src: array<bv8>, idRow: array<bv8>, ipiv: array<int>, indxr: array<int>,
                           indxc: array<int>) {
    var bytes: set<object> := {src, idRow};
    var ints: set<object> := {ipiv, indxr, indxc};
    && src != idRow && ipiv != indxr && ipiv != indxc && indxr != indxc
    && bytes !! ints && bytes !! t.Arrays() && ints !! t.Arrays()
  }

  // Marks the pivot used, moves its row to the diagonal and records the move.
  method PlacePivot(src: array<bv8>, k: nat, col: nat, irow: nat, icol: nat, ipiv: array<int>, indxr: array<int>,
                    indxc: array<int>)
    requires src.Length == k * k && ipiv.Length == k && indxr.Length == k && indxc.Length == k
    requires ipiv != indxr && ipiv != indxc && indxr != indxc
    requires src as object != ipiv && src as object != indxr && src as object != indxc
    requires col < k && irow < k && icol < k
    modifies src, ipiv, indxr, indxc
    ensures RowsOf(src[..], k) == Swap(RowsOf(old(src[..]), k), irow, icol)
    ensures ipiv[..] == old(ipiv[..])[icol := old(ipiv[icol]) + 1]
    ensures indxr[..] == old(indxr[..])[col := irow] && indxc[..] == old(indxc[..])[col := icol]
  {
    ipiv[icol] := ipiv[icol] + 1;
    if irow != icol {
      SwapRows(src, k, irow, icol);
    }
    indxr[col] := irow;
    indxc[col] := icol;
  }

  lemma ColumnEliminated(a: Matrix, s: Matrix, s': Matrix, d: set<int>, ipiv: seq<int>, rows: seq<int>, cols: seq<int>,
                         n: nat, k: nat, irow: nat, icol: nat)
    requires Square(a, k) && n < k && Eliminated(a, s, d, ipiv, rows, cols, n, k)
    requires irow < k && icol < k && irow !in d && icol !in d && Square(s', k)
    requires IsPivot(Swap(s, irow, icol), s', icol, k)
    ensures Eliminated(a, s', d + {icol}, ipiv[icol := ipiv[icol] + 1], rows[n := irow], cols[n := icol], n + 1, k)
  {
    var rows', cols' := rows[n := irow], cols[n := icol];
    UsedNext(ipiv, d, icol);
    assert Recorded(rows', cols', n + 1, k);
    ExchangedSwap(a, s, d, rows, cols, rows', cols', n, k);
    ExchangedPivot(a, Swap(s, irow, icol), s', icol, d, rows', cols', n + 1, k);
  }

  lemma UsedNext(ipiv: seq<int>, d: set<int>, p: nat)
    requires Used(ipiv, d) && p < |ipiv| && p !in d
    ensures Used(ipiv[p := ipiv[p] + 1], d + {p}) && |d + {p}| == |d| + 1
  {}

  // A pivot on the diagonal continues a run of them; away from it the leading part of a is singular.
  lemma DiagonalKept(a: Matrix, s: Matrix, d: set<int>, rows: seq<int>, cols: seq<int>, n: nat, k: nat, irow: nat,
                     icol: nat)
    requires Square(a, k) && Square(s, k) && n < k && n < |rows| && n < |cols| && irow < k && icol < k
    requires Recorded(rows, cols, n, k) && Exchanged(a, s, d, rows, cols, n, k)
    requires OnDiagonal(d, rows, cols, n, k) && !LeadingSingular(a, n, k)
    requires n !in d && s[n][n] != 0 ==> irow == n && icol == n
    ensures OnDiagonal(d + {icol}, rows[n := irow], cols[n := icol], n + 1, k)
  {
    if s[n][n] == 0 {
      ZeroDiagonalIsLeadingSingular(a, s, d, rows, cols, n, k);
      assert false;
    }
  }

  // One round of the main loop
  method EliminateColumn(t: Tables, src: array<bv8>, k: nat, col: nat, ipiv: array<int>, indxr: array<int>,
                         indxc: array<int>, idRow: array<bv8>, ghost a: Matrix,
                         ghost d: set<int>) returns (found: bool, ghost d': set<int>)
    requires t.Valid() && Separate(t, src, idRow, ipiv, indxr, indxc)
    requires src.Length == k * k && idRow.Length == k && ipiv.Length == k && indxr.Length == k && indxc.Length == k
    requires col < k && idRow[..] == Zeros(k) && Square(a, k)
    requires Eliminated(a, RowsOf(src[..], k), d, ipiv[..], indxr[..], indxc[..], col, k)
    modifies src, idRow, ipiv, indxr, indxc
    ensures idRow[..] == Zeros(k)
    ensures !found ==> Singular(a, k)
    ensures found ==> Eliminated(a, RowsOf(src[..], k), d', ipiv[..], indxr[..], indxc[..], col + 1, k)
    ensures found && OnDiagonal(d, old(indxr[..]), old(indxc[..]), col, k) && !LeadingSingular(a, col, k)
      ==> OnDiagonal(d', indxr[..], indxc[..], col + 1, k)
  {
    ghost var s, piv, rows, cols := RowsOf(src[..], k), ipiv[..], indxr[..], indxc[..];
    var irow, icol := FindPivot(src, k, ipiv, col, d);
    if irow == -1 {
      SearchFailed(a, s, d, rows, cols, col, k);
      return false, d;
    }
    PlacePivot(src, k, col, irow, icol, ipiv, indxr, indxc);
    PivotStep(t, src, k, icol, idRow);
    ColumnEliminated(a, s, RowsOf(src[..], k), d, piv, rows, cols, col, k, irow, icol);
    if OnDiagonal(d, rows, cols, col, k) && !LeadingSingular(a, col, k) {
      DiagonalKept(a, s, d, rows, cols, col, k, irow, icol);
    }
    return true, d + {icol};
  }

  // Undoes the recorded row swaps in the columns, the last one first.
  method Unscramble(src: array<bv8>, k: nat, indxr: array<int>, indxc: array<int>, ghost a: Matrix)
    requires src.Length == k * k && indxr.Length == k && indxc.Length == k && Square(a, k)
    requires src as object != indxr && src as object != indxc
    requires Recorded(indxr[..], indxc[..], k, k) && Unscrambled(a, RowsOf(src[..], k), indxr[..], indxc[..], k, k)
    modifies src
    ensures IsInverse(a, RowsOf(src[..], k), k)
  {
    ghost var rows, cols := indxr[..], indxc[..];
    for col := k downto 0
      invariant indxr[..] == rows && indxc[..] == cols
      invariant Unscrambled(a, RowsOf(src[..], k), rows, cols, col, k)
    {
      ghost var s := RowsOf(src[..], k);
      // the tests for recorded indices out of range never hold
      assert 0 <= rows[col] < k && 0 <= cols[col] < k;
      if indxr[col] != indxc[col] {
        SwapColumns(src, k, indxr[col], indxc[col]);
      }
      UnscrambleStep(a, s, RowsOf(src[..], k), rows, cols, col + 1, k);
    }
  }

  ghost predicate LeadingRegular(a: Matrix, n: nat, k: nat)
    requires Square(a, k) && n <= k
  {
    forall q: nat :: q < n ==> !LeadingSingular(a, q, k)
  }

  method EliminateAll(t: Tables, src: array<bv8>, k: nat, ipiv: array<int>, indxr: array<int>, indxc: array<int>,
                      idRow: array<bv8>, ghost a: Matrix) returns (found: bool, ghost d: set<int>)
    requires t.Valid() && Separate(t, src, idRow, ipiv, indxr, indxc)
    requires src.Length == k * k && idRow.Length == k && ipiv.Length == k && indxr.Length == k && indxc.Length == k
    requires idRow[..] == Zeros(k) && a == RowsOf(src[..], k)
    requires Eliminated(a, a, {}, ipiv[..], indxr[..], indxc[..], 0, k)
    modifies src, idRow, ipiv, indxr, indxc
    ensures !found ==> Singular(a, k)
    ensures found ==> Eliminated(a, RowsOf(src[..], k), d, ipiv[..], indxr[..], indxc[..], k, k)
    ensures found && LeadingRegular(a, k, k) ==> OnDiagonal(d, indxr[..], indxc[..], k, k)
  {
    d := {};
    var col := 0;
    while col < k
      invariant 0 <= col <= k && idRow[..] == Zeros(k)
      invariant Eliminated(a, RowsOf(src[..], k), d, ipiv[..], indxr[..], indxc[..], col, k)
      invariant LeadingRegular(a, col, k) ==> OnDiagonal(d, indxr[..], indxc[..], col, k)
    {
      found, d := EliminateColumn(t, src, k, col, ipiv, indxr, indxc, idRow, a, d);
      if !found {
        return;
      }
      col := col + 1;
    }
    found := true;
  }

  lemma SingularIsLeadingSingular(a: Matrix, k: nat)
    requires Square(a, k) && Singular(a, k)
    ensures k > 0 && LeadingSingular(a, k - 1, k)
  {
    var x :| Annihilates(a, x, k);
    assert k > 0;
    assert AnnihilatesLeading(a, x, k - 1, k);
  }

  /** Returns 0 and leaves the inverse exactly when the matrix is not singular; when no leading part of
      it is singular, no row is ever swapped. */
  method InvertMat(t: Tables, src: array<bv8>, k: nat) returns (error: int, ghost swapped: bool)
    requires t.Valid() && src !in t.Arrays() && src.Length == k * k
    modifies src
    ensures error == 0 || error == 1
    ensures error == 0 <==> !Singular(RowsOf(old(src[..]), k), k)
    ensures error == 0 ==> IsInverse(RowsOf(old(src[..]), k), RowsOf(src[..], k), k)
    ensures LeadingRegular(RowsOf(old(src[..]), k), k, k) ==> error == 0 && !swapped
  {
    ghost var a := RowsOf(src[..], k);
    var indxc := new int[k](_ => 0);
    var indxr := new int[k](_ => 0);
    var ipiv := new int[k](_ => 0);
    var idRow := new bv8[k](_ => 0);
    ExchangedStart(a, indxr[..], indxc[..], k);
    assert idRow[..] == Zeros(k);
    var found, d := EliminateAll(t, src, k, ipiv, indxr, indxc, idRow, a);
    if !found {
      SingularIsLeadingSingular(a, k);
      return 1, true;
    }
    AllUsed(d, k);
    AllExchanged(a, RowsOf(src[..], k), d, indxr[..], indxc[..], k, k);
    swapped := exists n :: 0 <= n < k && indxr[n] != indxc[n];
    Unscramble(src, k, indxr, indxc, a);
    InvertibleIsNotSingular(a, RowsOf(src[..], k), k);
    error := 0;
  }
}
