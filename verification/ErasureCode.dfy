/** fec_encode and fec_decode over block buffers. */
module ErasureCode {
  import Memory
  import opened GaloisField
  import opened GaloisTables
  import opened GaloisVectors
  import opened Matrices
  import opened InversionSpec
  import opened FlatMatrix
  import opened MatrixInversion
  import opened Cauchy
  import opened ErasureCodeSpec

  ghost predicate Fits(blocks: seq<array<bv8>>, size: nat) {
    forall i :: 0 <= i < |blocks| ==> size <= blocks[i].Length
  }

  // The first size bytes of every block
  ghost function Contents(blocks: seq<array<bv8>>, size: nat): (c: seq<Block>)
    requires Fits(blocks, size)
    reads blocks
    ensures |c| == |blocks| && Sized(c, size)
    ensures forall i :: 0 <= i < |blocks| ==> c[i] == blocks[i][..size]
  {
    seq(|blocks|, i requires 0 <= i < |blocks| && size <= blocks[i].Length reads blocks => blocks[i][..size])
  }

  // Separate buffers, none of them one of the tables
  ghost predicate Buffers(t: Tables, data: seq<array<bv8>>, fec: seq<array<bv8>>, size: nat) {
    && Fits(data, size) && Fits(fec, size)
    && (forall i, j :: 0 <= i < j < |data| ==> data[i] != data[j])
    && (forall i, j :: 0 <= i < j < |fec| ==> fec[i] != fec[j])
    && (forall i, j :: 0 <= i < |data| && 0 <= j < |fec| ==> data[i] != fec[j])
    && (forall i :: 0 <= i < |data| ==> data[i] !in t.Arrays())
    && (forall i :: 0 <= i < |fec| ==> fec[i] !in t.Arrays())
  }

  lemma FirstIndex(row: nat)
    requires row < 128
    ensures Coefficient(row, 0) == Inv(Add(Byte(128), Byte(row)))
  {
    HighBit(row); ByteIsBv(0); AddZero(Byte(128 + row));
  }

  lemma NextIndex(row: nat, c: nat)
    requires row < 128 && c < 128
    ensures Coefficient(row, c) == Inv(Add(Byte(row), Byte(128 + c)))
  {
    HighBit(c); HighBit(row);
    AddAssoc(Byte(row), Byte(128), Byte(c)); AddCommutes(Byte(row), Byte(128));
  }

  lemma ReduceIndex(blno: nat, col: nat)
    requires blno < 128 && col < 128
    ensures Coefficient(blno, col) == Inv(Add(Add(Byte(blno), Byte(col)), Byte(128)))
  {
    HighBit(blno);
    AddRotate(Byte(blno), Byte(col), Byte(128)); AddCommutes(Byte(blno), Byte(128));
  }

  // The xor of two table indices
  method XorIndex(a: nat, b: nat) returns (r: nat)
    requires a < 256 && b < 256
    ensures r < 256 && Byte(r) == Add(Byte(a), Byte(b))
  {
    ByteIsBv(a); ByteIsBv(b); AddIsXor(Byte(a), Byte(b));
    var x := (a as bv8) ^ (b as bv8);
    IndexIsInt(x); ByteOfIndex(x);
    r := x as int;
  }

  // FEC block r holds its sum over the first n data blocks.
  ghost predicate Summed(block: seq<bv8>, data: seq<Block>, r: nat, n: nat, size: nat)
    requires size <= |block| && n <= |data| && Sized(data, size)
  {
    forall p :: 0 <= p < size ==> block[p] == Parity(data, r, p, n)
  }

  // Every FEC block holds its sum over the first n data blocks.
  ghost predicate AllSummed(fec: seq<array<bv8>>, d: seq<Block>, n: nat, size: nat, from: nat, to: nat)
    requires Fits(fec, size) && n <= |d| && Sized(d, size) && to <= |fec|
    reads fec
  {
    forall r :: from <= r < to ==> Summed(fec[r][..], d, r, n, size)
  }

  ghost predicate Holds(data: seq<array<bv8>>, d: seq<Block>, size: nat)
    requires Fits(data, size)
    reads data
  {
    |d| == |data| && Sized(d, size) && forall i :: 0 <= i < |data| ==> data[i][..size] == d[i]
  }

  method FirstTerm(t: Tables, size: nat, src: array<bv8>, dst: array<bv8>, row: nat, ghost d: seq<Block>)
    requires t.Valid() && dst !in t.Arrays() && src != dst && size <= src.Length && size <= dst.Length
    requires row < 128 && |d| > 0 && Sized(d, size) && src[..size] == d[0]
    modifies dst
    ensures Summed(dst[..], d, row, 1, size)
  {
    FirstIndex(row);
    ghost var from := src[..];
    var i := XorIndex(128, row);
    MulBlock(t, dst, 0, src, 0, t.inverse[i], size);
    forall p | 0 <= p < size ensures dst[p] == Parity(d, row, p, 1) {
      AddZero(Mul(Coefficient(row, 0), d[0][p]));
      assert from[p] == src[..size][p];
    }
  }

  method NextTerm(t: Tables, size: nat, src: array<bv8>, c: nat, dst: array<bv8>, row: nat, ghost d: seq<Block>)
    requires t.Valid() && dst !in t.Arrays() && src != dst && size <= src.Length && size <= dst.Length
    requires row < 128 && c < 128 && c < |d| && Sized(d, size) && src[..size] == d[c]
    requires Summed(dst[..], d, row, c, size)
    modifies dst
    ensures Summed(dst[..], d, row, c + 1, size)
  {
    NextIndex(row, c);
    ghost var from := src[..];
    var i := XorIndex(row, 128 + c);
    AddMul(t, dst, 0, src, 0, t.inverse[i], size);
    forall p | 0 <= p < size ensures dst[p] == Parity(d, row, p, c + 1) {
      assert from[p] == src[..size][p];
    }
  }

  method FirstColumn(t: Tables, size: nat, data: seq<array<bv8>>, fec: seq<array<bv8>>, ghost d: seq<Block>)
    requires t.Valid() && Buffers(t, data, fec, size) && 0 < |data| && |fec| <= MAX_BLOCKS && Holds(data, d, size)
    modifies fec
    ensures AllSummed(fec, d, 1, size, 0, |fec|)
  {
    for row := 0 to |fec|
      invariant data[0][..size] == d[0] && AllSummed(fec, d, 1, size, 0, row)
    {
      FirstTerm(t, size, data[0], fec[row], row, d);
    }
  }

  method NextColumn(t: Tables, size: nat, data: seq<array<bv8>>, c: nat, fec: seq<array<bv8>>, ghost d: seq<Block>)
    requires t.Valid() && Buffers(t, data, fec, size) && c < |data| <= MAX_BLOCKS && |fec| <= MAX_BLOCKS
             && Holds(data, d, size)
    requires AllSummed(fec, d, c, size, 0, |fec|)
    modifies fec
    ensures AllSummed(fec, d, c + 1, size, 0, |fec|)
  {
    for row := 0 to |fec|
      invariant data[c][..size] == d[c]
      invariant AllSummed(fec, d, c + 1, size, 0, row) && AllSummed(fec, d, c, size, row, |fec|)
    {
      NextTerm(t, size, data[c], c, fec[row], row, d);
    }
  }

  /** Column by column: each data block is added to all FEC blocks before the next one is read. */
  method FecEncode(t: Tables, size: nat, data: seq<array<bv8>>, fec: seq<array<bv8>>)
    requires t.Valid() && Buffers(t, data, fec, size)
    requires |data| <= MAX_BLOCKS && |fec| <= MAX_BLOCKS
    modifies fec
    ensures |data| > 0 ==> AllSummed(fec, Contents(data, size), |data|, size, 0, |fec|)
    ensures |data| == 0 ==> forall r :: 0 <= r < |fec| ==> fec[r][..] == old(fec[r][..])
  {
    if |data| == 0 {
      return;
    }
    ghost var d := Contents(data, size);
    FirstColumn(t, size, data, fec, d);
    for blockNo := 1 to |data|
      invariant t.Valid() && Holds(data, d, size)
      invariant AllSummed(fec, d, blockNo, size, 0, |fec|)
    {
      NextColumn(t, size, data, blockNo, fec, d);
    }
    assert Contents(data, size) == d;
  }

  // Block j less what the blocks below n that are not erased contribute to it
  ghost predicate Reduced(block: seq<bv8>, before: seq<bv8>, d: seq<Block>, erased: seq<nat>, r: nat, n: nat, size: nat)
    requires size <= |block| && size <= |before| && n <= |d| && Sized(d, size)
  {
    forall p :: 0 <= p < size ==> block[p] == Add(before[p], Kept(d, erased, r, p, n))
  }

  ghost predicate AllReduced(fec: seq<array<bv8>>, f: seq<Block>, d: seq<Block>, nos: seq<nat>, erased: seq<nat>,
                             n: nat, size: nat, from: nat, to: nat)
    requires Fits(fec, size) && n <= |d| && Sized(d, size) && to <= |fec| == |nos| == |f| && Sized(f, size)
    reads fec
  {
    forall j :: from <= j < to ==> Reduced(fec[j][..], f[j], d, erased, nos[j], n, size)
  }

  method ReduceTerm(t: Tables, size: nat, src: array<bv8>, col: nat, dst: array<bv8>, blno: nat, ghost before: seq<bv8>,
                    ghost d: seq<Block>, ghost erased: seq<nat>)
    requires t.Valid() && dst !in t.Arrays() && src != dst && size <= src.Length && size <= dst.Length
             && size == |before|
    requires blno < 128 && col < 128 && col < |d| && Sized(d, size) && src[..size] == d[col] && col !in erased
    requires Reduced(dst[..], before, d, erased, blno, col, size)
    modifies dst
    ensures Reduced(dst[..], before, d, erased, blno, col + 1, size)
  {
    ReduceIndex(blno, col);
    ghost var from := src[..];
    var i := XorIndex(blno, col);
    i := XorIndex(i, 128);
    AddMul(t, dst, 0, src, 0, t.inverse[i], size);
    forall p | 0 <= p < size ensures dst[p] == Add(before[p], Kept(d, erased, blno, p, col + 1)) {
      AddAssoc(before[p], Kept(d, erased, blno, p, col), Mul(Coefficient(blno, col), d[col][p]));
      assert from[p] == src[..size][p];
    }
  }

  method ReduceColumn(t: Tables, size: nat, data: seq<array<bv8>>, col: nat, fec: seq<array<bv8>>, nos: seq<nat>,
                      ghost f: seq<Block>, ghost d: seq<Block>, ghost erased: seq<nat>)
    requires t.Valid() && Buffers(t, data, fec, size) && Holds(data, d, size)
    requires |fec| == |nos| == |f| && Sized(f, size) && FecNumbers(nos) && col < |data| <= MAX_BLOCKS && col !in erased
    requires AllReduced(fec, f, d, nos, erased, col, size, 0, |fec|)
    modifies fec
    ensures AllReduced(fec, f, d, nos, erased, col + 1, size, 0, |fec|)
  {
    for j := 0 to |fec|
      invariant data[col][..size] == d[col]
      invariant AllReduced(fec, f, d, nos, erased, col + 1, size, 0, j)
                && AllReduced(fec, f, d, nos, erased, col, size, j, |fec|)
    {
      ReduceTerm(t, size, data[col], col, fec[j], nos[j], f[j], d, erased);
    }
  }

  /** Takes the blocks that are not erased out of the FEC blocks, walking the erasures alongside. */
  method Reduce(t: Tables, size: nat, data: seq<array<bv8>>, fec: seq<array<bv8>>, nos: seq<nat>, erased: seq<nat>,
                ghost f: seq<Block>, ghost d: seq<Block>)
    requires t.Valid() && Buffers(t, data, fec, size) && Holds(data, d, size) && Holds(fec, f, size)
    requires |fec| == |nos| == |erased| && FecNumbers(nos) && |data| <= MAX_BLOCKS && Erasures(erased, |data|)
    modifies fec
    ensures AllReduced(fec, f, d, nos, erased, |data|, size, 0, |fec|)
  {
    var erasedIdx := 0;
    StartReduced(fec, f, d, nos, erased, size);
    for col := 0 to |data|
      invariant Passed(erased, col, erasedIdx) && t.Valid() && Holds(data, d, size)
      invariant AllReduced(fec, f, d, nos, erased, col, size, 0, |fec|)
    {
      PassColumn(erased, |data|, col, erasedIdx);
      if erasedIdx < |fec| && erased[erasedIdx] == col {
        erasedIdx := erasedIdx + 1;
        SkipReduced(fec, f, d, nos, erased, col, size);
      } else {
        ReduceColumn(t, size, data, col, fec, nos, f, d, erased);
      }
    }
    AllPassed(erased, |data|, erasedIdx);
    assert erasedIdx == |fec|;
  }

  // The first idx erasures are the ones below column col.
  ghost predicate Passed(erased: seq<nat>, col: nat, idx: nat) {
    && idx <= |erased| && (forall i :: 0 <= i < idx ==> erased[i] < col)
    && (forall i :: idx <= i < |erased| ==> col <= erased[i])
  }

  lemma PassColumn(erased: seq<nat>, n: nat, col: nat, idx: nat)
    requires Erasures(erased, n) && Passed(erased, col, idx)
    ensures idx < |erased| && erased[idx] == col ==> col in erased && Passed(erased, col + 1, idx + 1)
    ensures !(idx < |erased| && erased[idx] == col) ==> col !in erased && Passed(erased, col + 1, idx)
  {}

  lemma AllPassed(erased: seq<nat>, n: nat, idx: nat)
    requires Erasures(erased, n) && Passed(erased, n, idx)
    ensures idx == |erased|
  {
    if idx < |erased| { NotAllPassed(erased, n, idx); }
  }

  lemma NotAllPassed(erased: seq<nat>, n: nat, idx: nat)
    requires Erasures(erased, n) && idx < |erased|
    ensures !Passed(erased, n, idx)
  {
    assert erased[idx] < n;
  }

  lemma StartReduced(fec: seq<array<bv8>>, f: seq<Block>, d: seq<Block>, nos: seq<nat>, erased: seq<nat>, size: nat)
    requires Fits(fec, size) && Holds(fec, f, size) && |fec| == |nos| && Sized(d, size)
    ensures AllReduced(fec, f, d, nos, erased, 0, size, 0, |fec|)
  {
    forall j, p | 0 <= j < |fec| && 0 <= p < size ensures fec[j][p] == Add(f[j][p], 0) {
      assert fec[j][..size][p] == f[j][p];
      AddZero(f[j][p]);
    }
  }

  lemma SkipReduced(fec: seq<array<bv8>>, f: seq<Block>, d: seq<Block>, nos: seq<nat>, erased: seq<nat>, col: nat,
                    size: nat)
    requires Fits(fec, size) && |fec| == |nos| == |f| && Sized(f, size) && Sized(d, size) && col < |d| && col in erased
    requires AllReduced(fec, f, d, nos, erased, col, size, 0, |fec|)
    ensures AllReduced(fec, f, d, nos, erased, col + 1, size, 0, |fec|)
  {}

  // The submatrix with the columns of the erased blocks and the rows of the FEC blocks at hand
  method BuildMatrix(t: Tables, nos: seq<nat>, erased: seq<nat>, ghost n: nat) returns (matrix: array<bv8>)
    requires t.Valid() && |nos| == |erased| && FecNumbers(nos) && Erasures(erased, n) && n <= MAX_BLOCKS
    ensures fresh(matrix) && matrix.Length == |nos| * |nos| && RowsOf(matrix[..], |nos|) == SmallMatrix(nos, erased)
  {
    var k := |nos|;
    ghost var m := SmallMatrix(nos, erased);
    matrix := new bv8[k * k](_ => 0);
    var ptr := 0;
    for row := 0 to k
      invariant ptr == row * k && t.Valid()
      invariant forall i :: 0 <= i < row ==> RowsOf(matrix[..], k)[i] == m[i]
    {
      ptr := BuildRow(t, matrix, nos, erased, n, row, ptr);
    }
  }

  method BuildRow(t: Tables, matrix: array<bv8>, nos: seq<nat>, erased: seq<nat>, ghost n: nat, row: nat, start: nat)
    returns (ptr: nat)
    requires t.Valid() && matrix !in t.Arrays() && |nos| == |erased| && matrix.Length == |nos| * |nos|
    requires FecNumbers(nos) && Erasures(erased, n) && n <= MAX_BLOCKS && row < |nos| && start == row * |nos|
    modifies matrix
    ensures ptr == (row + 1) * |nos|
    ensures RowsOf(matrix[..], |nos|) == RowsOf(old(matrix[..]), |nos|)[row := SmallMatrix(nos, erased)[row]]
  {
    var k := |nos|;
    ghost var before := RowsOf(matrix[..], k);
    ghost var m := SmallMatrix(nos, erased);
    ptr := start;
    for col := 0 to k
      invariant ptr == row * k + col
      invariant forall i :: 0 <= i < k && i != row ==> RowsOf(matrix[..], k)[i] == before[i]
      invariant forall j :: 0 <= j < col ==> RowsOf(matrix[..], k)[row][j] == m[row][j]
    {
      StoreCell(t, matrix, k, row, col, ptr, 128 + nos[row], erased[col]);
      ptr := ptr + 1;
    }
    assert RowsOf(matrix[..], k)[row] == m[row];
  }

  method StoreCell(t: Tables, matrix: array<bv8>, k: nat, row: nat, col: nat, ptr: nat, irow: nat, icol: nat)
    requires t.Valid() && matrix !in t.Arrays() && matrix.Length == k * k
    requires row < k && col < k && ptr == row * k + col && irow < 256 && icol < 256
    modifies matrix
    ensures RowsOf(matrix[..], k) ==
      RowsOf(old(matrix[..]), k)[row := RowsOf(old(matrix[..]), k)[row][col := Inv(Add(Byte(irow), Byte(icol)))]]
  {
    ghost var before := matrix[..];
    RowFits(row, k);
    var i := XorIndex(irow, icol);
    matrix[ptr] := t.inverse[i];
    RowWritten(before, matrix[..], k, row);
  }

  // Byte p of every block
  ghost function AcrossBlocks(f: seq<Block>, p: nat): (v: Vector)
    requires forall j :: 0 <= j < |f| ==> p < |f[j]|
    ensures |v| == |f|
  {
    seq(|f|, j requires 0 <= j < |f| => f[j][p])
  }

  // The block holds the first n terms of row times the blocks f.
  ghost predicate Combined(block: seq<bv8>, row: Vector, f: seq<Block>, n: nat, size: nat)
    requires size <= |block| && |row| == |f| && Sized(f, size) && n <= |f|
  {
    forall p :: 0 <= p < size ==> block[p] == Dot(row, AcrossBlocks(f, p), n)
  }

  method CombineFirst(t: Tables, size: nat, target: array<bv8>, src: array<bv8>, c: bv8, ghost row: Vector,
                      ghost f: seq<Block>)
    requires t.Valid() && target !in t.Arrays() && src != target && size <= src.Length && size <= target.Length
    requires |row| == |f| > 0 && Sized(f, size) && src[..size] == f[0] && row[0] == c
    modifies target
    ensures Combined(target[..], row, f, 1, size)
  {
    ghost var from := src[..];
    MulBlock(t, target, 0, src, 0, c, size);
    forall p | 0 <= p < size ensures target[p] == Dot(row, AcrossBlocks(f, p), 1) {
      AddZero(Mul(c, f[0][p]));
      assert from[p] == src[..size][p];
    }
  }

  method CombineNext(t: Tables, size: nat, target: array<bv8>, src: array<bv8>, c: bv8, col: nat, ghost row: Vector,
                     ghost f: seq<Block>)
    requires t.Valid() && target !in t.Arrays() && src != target && size <= src.Length && size <= target.Length
    requires |row| == |f| && col < |f| && Sized(f, size) && src[..size] == f[col] && row[col] == c
    requires Combined(target[..], row, f, col, size)
    modifies target
    ensures Combined(target[..], row, f, col + 1, size)
  {
    ghost var from := src[..];
    AddMul(t, target, 0, src, 0, c, size);
    forall p | 0 <= p < size ensures target[p] == Dot(row, AcrossBlocks(f, p), col + 1) {
      assert from[p] == src[..size][p];
    }
  }

  method CombineRow(t: Tables, size: nat, target: array<bv8>, fec: seq<array<bv8>>, matrix: array<bv8>, row: nat,
                    ghost f: seq<Block>)
    requires t.Valid() && target !in t.Arrays() && target != matrix && size <= target.Length
    requires Fits(fec, size) && Holds(fec, f, size) && forall j :: 0 <= j < |fec| ==> fec[j] != target
    requires matrix.Length == |fec| * |fec| && row < |fec|
    modifies target
    ensures Combined(target[..], RowsOf(matrix[..], |fec|)[row], f, |fec|, size)
  {
    var k := |fec|;
    ghost var v := RowsOf(matrix[..], k)[row];
    RowFits(row, k);
    CellOf(matrix[..], k, row, 0);
    var ptr := row * k;
    CombineFirst(t, size, target, fec[0], matrix[ptr], v, f);
    ptr := ptr + 1;
    for col := 1 to k
      invariant ptr == row * k + col && t.Valid() && Holds(fec, f, size)
      invariant Combined(target[..], v, f, col, size)
    {
      CellOf(matrix[..], k, row, col);
      CombineNext(t, size, target, fec[col], matrix[ptr], col, v, f);
      ptr := ptr + 1;
    }
  }

  // The erased blocks hold the matrix times the reduced FEC blocks.
  ghost predicate AllCombined(data: seq<array<bv8>>, erased: seq<nat>, r: Matrix, f: seq<Block>, n: nat, size: nat)
    requires Fits(data, size) && Erasures(erased, |data|) && Square(r, |f|) && |f| == |erased| && Sized(f, size)
             && n <= |f|
    reads data
  {
    forall i :: 0 <= i < n ==> Combined(data[erased[i]][..], r[i], f, |f|, size)
  }

  method Resolve(t: Tables, size: nat, data: seq<array<bv8>>, fec: seq<array<bv8>>, nos: seq<nat>, erased: seq<nat>,
                 ghost f: seq<Block>)
    returns (ghost r: Matrix)
    requires t.Valid() && Buffers(t, data, fec, size) && Holds(fec, f, size)
    requires |fec| == |nos| == |erased| && FecNumbers(nos) && |data| <= MAX_BLOCKS && Erasures(erased, |data|)
    modifies data
    ensures forall c :: 0 <= c < |data| && c !in erased ==> data[c][..] == old(data[c][..])
    ensures Square(r, |fec|) && IsInverse(SmallMatrix(nos, erased), r, |fec|)
    ensures AllCombined(data, erased, r, f, |fec|, size)
  {
    var k := |fec|;
    var matrix, _ := BuildInverse(t, nos, erased, |data|);
    r := RowsOf(matrix[..], k);
    CombineRows(t, size, data, fec, matrix, erased, f, r);
  }

  // Every erased block becomes a row of the inverse times the FEC blocks.
  method CombineRows(t: Tables, size: nat, data: seq<array<bv8>>, fec: seq<array<bv8>>, matrix: array<bv8>,
                     erased: seq<nat>, ghost f: seq<Block>, ghost r: Matrix)
    requires t.Valid() && Buffers(t, data, fec, size) && Holds(fec, f, size) && Erasures(erased, |data|)
             && |fec| == |erased|
    requires matrix.Length == |fec| * |fec| && r == RowsOf(matrix[..], |fec|) && Square(r, |fec|)
    requires matrix !in data && matrix !in fec && matrix !in t.Arrays()
    modifies data
    ensures forall c :: 0 <= c < |data| && c !in erased ==> data[c][..] == old(data[c][..])
    ensures AllCombined(data, erased, r, f, |fec|, size)
  {
    var k := |fec|;
    for row := 0 to k
      invariant t.Valid() && Holds(fec, f, size) && RowsOf(matrix[..], k) == r
      invariant forall c :: 0 <= c < |data| && c !in erased ==> data[c][..] == old(data[c][..])
      invariant AllCombined(data, erased, r, f, row, size)
    {
      CombineRow(t, size, data[erased[row]], fec, matrix, row, f);
    }
  }

  // The inverse of the submatrix; inverting it never fails and never swaps rows.
  method BuildInverse(t: Tables, nos: seq<nat>, erased: seq<nat>, ghost n: nat)
    returns (matrix: array<bv8>, ghost swapped: bool)
    requires t.Valid() && |nos| == |erased| && FecNumbers(nos) && Erasures(erased, n) && n <= MAX_BLOCKS
    ensures fresh(matrix) && matrix.Length == |nos| * |nos| && Square(RowsOf(matrix[..], |nos|), |nos|)
    ensures IsInverse(SmallMatrix(nos, erased), RowsOf(matrix[..], |nos|), |nos|) && !swapped
  {
    var k := |nos|;
    matrix := BuildMatrix(t, nos, erased, n);
    forall q: nat | q < k ensures !LeadingSingular(SmallMatrix(nos, erased), q, k) {
      SmallMatrixIsRegular(nos, erased, n, q);
    }
    var error;
    error, swapped := InvertMat(t, matrix, k);
    assert error == 0;
  }

  lemma ResolvedColumn(d': seq<Block>, f': seq<Block>, nos: seq<nat>, erased: seq<nat>, r: Matrix, p: nat)
    requires |f'| == |nos| == |erased| && Square(r, |nos|) && IsInverse(SmallMatrix(nos, erased), r, |nos|)
    requires forall i :: 0 <= i < |erased| ==> erased[i] < |d'| && p < |d'[erased[i]]| && p < |f'[i]|
    requires forall i :: 0 <= i < |nos| ==> d'[erased[i]][p] == Dot(r[i], AcrossBlocks(f', p), |nos|)
    ensures forall j :: 0 <= j < |nos| ==>
              f'[j][p] == Dot(SmallMatrix(nos, erased)[j], LostColumn(d', erased, p), |nos|)
  {
    var x, y := LostColumn(d', erased, p), AcrossBlocks(f', p);
    assert Maps(r, y, x, |nos|);
    assert Maps(SmallMatrix(nos, erased), x, y, |nos|);
  }

  // With the erased part of the sum equal to the reduced FEC byte, the whole sum is the FEC byte itself.
  lemma ParityRestored(d: seq<Block>, d': seq<Block>, erased: seq<nat>, size: nat, no: nat, p: nat, f: bv8)
    requires |d| == |d'| && Sized(d, size) && Sized(d', size) && Erasures(erased, |d|) && p < size
    requires forall c :: 0 <= c < |d| && c !in erased ==> d[c] == d'[c]
    requires Lost(d', erased, no, p, |erased|) == Add(f, Kept(d, erased, no, p, |d|))
    ensures Parity(d', no, p, |d|) == f
  {
    var kept := Kept(d, erased, no, p, |d|);
    ParitySplit(d', erased, size, no, p, |d|, |erased|);
    KeptSame(d, d', erased, no, p, |d|);
    AddCommutes(f, kept);
    AddCancel(kept, f);
  }

  // What a decoder is given: some data blocks, and the FEC blocks of the original ones
  ghost predicate Received(x: seq<Block>, d: seq<Block>, f: seq<Block>, size: nat, nos: seq<nat>, erased: seq<nat>) {
    && |x| == |d| && |f| == |nos| && Sized(x, size) && Sized(f, size)
    && (forall c :: 0 <= c < |x| && c !in erased ==> x[c] == d[c])
    && (forall j, p :: 0 <= j < |nos| && 0 <= p < size ==> f[j][p] == Parity(x, nos[j], p, |x|))
  }

  /** Whatever the erased buffers held, they now hold the one choice of blocks whose FEC blocks are those
      received; the other data blocks keep every byte. */
  method FecDecode(t: Tables, size: nat, data: seq<array<bv8>>, fec: seq<array<bv8>>, nos: seq<nat>, erased: seq<nat>)
    requires t.Valid() && Buffers(t, data, fec, size)
    requires |fec| == |nos| == |erased| && FecNumbers(nos) && |data| <= MAX_BLOCKS && Erasures(erased, |data|)
    modifies data, fec
    ensures forall c :: 0 <= c < |data| && c !in erased ==> data[c][..] == old(data[c][..])
    ensures Received(Contents(data, size), old(Contents(data, size)), old(Contents(fec, size)), size, nos, erased)
    ensures forall x | Received(x, old(Contents(data, size)), old(Contents(fec, size)), size, nos, erased) ::
              Contents(data, size) == x
  {
    ghost var d, f := Contents(data, size), Contents(fec, size);
    Reduce(t, size, data, fec, nos, erased, f, d);
    ghost var f' := Contents(fec, size);
    ghost var r := Resolve(t, size, data, fec, nos, erased, f');
    ghost var d' := Contents(data, size);
    DecodedIsReceived(d, d', f, f', size, nos, erased, r);
  }

  lemma DecodedIsReceived(d: seq<Block>, d': seq<Block>, f: seq<Block>, f': seq<Block>, size: nat, nos: seq<nat>,
                          erased: seq<nat>, r: Matrix)
    requires |d| == |d'| <= MAX_BLOCKS && |f| == |f'| == |nos| == |erased|
    requires Sized(d, size) && Sized(d', size) && Sized(f, size) && Sized(f', size)
    requires FecNumbers(nos) && Erasures(erased, |d|)
    requires Square(r, |nos|) && IsInverse(SmallMatrix(nos, erased), r, |nos|)
    requires forall c :: 0 <= c < |d| && c !in erased ==> d[c] == d'[c]
    requires forall i :: 0 <= i < |nos| ==> Reduced(f'[i], f[i], d, erased, nos[i], |d|, size)
    requires forall i :: 0 <= i < |nos| ==> Combined(d'[erased[i]], r[i], f', |nos|, size)
    ensures Received(d', d, f, size, nos, erased)
    ensures forall x :: Received(x, d, f, size, nos, erased) ==> d' == x
  {
    forall j, p | 0 <= j < |nos| && 0 <= p < size ensures f[j][p] == Parity(d', nos[j], p, |d|) {
      ResolvedColumn(d', f', nos, erased, r, p);
      LostIsDot(d', nos, erased, p, j, |nos|);
      ParityRestored(d, d', erased, size, nos[j], p, f[j][p]);
    }
    forall x | Received(x, d, f, size, nos, erased) ensures d' == x {
      ErasedDetermined(x, d', size, nos, erased);
    }
  }

  // ------------------------------------------------------------------ encode, lose, decode

  // The buffers with these numbers
  function Pick(arrays: seq<array<bv8>>, nos: seq<nat>): (r: seq<array<bv8>>)
    requires forall k :: 0 <= k < |nos| ==> nos[k] < |arrays|
    ensures |r| == |nos| && forall k :: 0 <= k < |nos| ==> r[k] == arrays[nos[k]]
  {
    seq(|nos|, k requires 0 <= k < |nos| => arrays[nos[k]])
  }

  lemma PickedBuffers(t: Tables, data: seq<array<bv8>>, fec: seq<array<bv8>>, length: nat, size: nat, nos: seq<nat>)
    requires Buffers(t, data, fec, length) && size <= length
    requires forall k :: 0 <= k < |nos| ==> nos[k] < |fec|
    requires forall i, k :: 0 <= i < k < |nos| ==> nos[i] != nos[k]
    ensures Buffers(t, data, Pick(fec, nos), size)
  {}

  // The erased buffers hold whatever junk says.
  method Lose(data: seq<array<bv8>>, size: nat, erased: seq<nat>, junk: seq<seq<bv8>>)
    requires Fits(data, size) && Erasures(erased, |data|) && |junk| == |erased| && Sized(junk, size)
    requires forall i, j :: 0 <= i < j < |data| ==> data[i] != data[j]
    modifies data
    ensures forall c :: 0 <= c < |data| && c !in erased ==> data[c][..] == old(data[c][..])
  {
    for i := 0 to |erased|
      invariant forall c :: 0 <= c < |data| && c !in erased ==> data[c][..] == old(data[c][..])
    {
      Memory.Copy(junk[i], data[erased[i]], 0);
    }
  }

  lemma OriginalIsReceived(x: seq<Block>, d: seq<Block>, f: seq<Block>, size: nat, nos: seq<nat>, erased: seq<nat>)
    requires |x| == |d| && Sized(x, size) && |f| == |nos| && Sized(f, size)
    requires forall c :: 0 <= c < |d| && c !in erased ==> x[c] == d[c]
    requires forall j :: 0 <= j < |nos| ==> Summed(f[j], x, nos[j], |x|, size)
    ensures Received(x, d, f, size, nos, erased)
  {}

  // The FEC blocks picked, as the encoder left them
  lemma PickedSums(fec: seq<array<bv8>>, x: seq<Block>, size: nat, nos: seq<nat>)
    requires Fits(fec, size) && Sized(x, size) && AllSummed(fec, x, |x|, size, 0, |fec|)
    requires forall k :: 0 <= k < |nos| ==> nos[k] < |fec|
    ensures Fits(Pick(fec, nos), size)
    ensures forall j :: 0 <= j < |nos| ==> Summed(Contents(Pick(fec, nos), size)[j], x, nos[j], |x|, size)
  {
    forall j | 0 <= j < |nos| ensures Summed(Contents(Pick(fec, nos), size)[j], x, nos[j], |x|, size) {
      assert Summed(fec[nos[j]][..], x, nos[j], |x|, size);
    }
  }

  /** Any data blocks can be lost: any equally many FEC blocks bring all of them back. */
  method EncodeLoseDecode(t: Tables, size: nat, data: seq<array<bv8>>, fec: seq<array<bv8>>, nos: seq<nat>,
                          erased: seq<nat>, junk: seq<seq<bv8>>)
    requires t.Valid() && Buffers(t, data, fec, size) && 0 < |data| <= MAX_BLOCKS && |fec| <= MAX_BLOCKS
    requires Erasures(erased, |data|) && FecNumbers(nos) && |nos| == |erased|
             && forall k :: 0 <= k < |nos| ==> nos[k] < |fec|
    requires |junk| == |erased| && Sized(junk, size)
    modifies data, fec
    ensures Contents(data, size) == old(Contents(data, size))
  {
    ghost var x := Contents(data, size);
    FecEncode(t, size, data, fec);
    Lose(data, size, erased, junk);
    var chosen := Pick(fec, nos);
    PickedBuffers(t, data, fec, size, size, nos);
    PickedSums(fec, x, size, nos);
    OriginalIsReceived(x, Contents(data, size), Contents(chosen, size), size, nos, erased);
    FecDecode(t, size, data, chosen, nos, erased);
  }
}
