/** The lookup tables of the erasure code and the loops that fill them. */
module GaloisTables {
  import opened GaloisField

  const GF_SIZE := 255

  // Coefficients of the primitive polynomial, constant term first.
  const PRIMITIVE: string := "101110001"

  ghost predicate ExpFilled(t: seq<bv8>, n: nat)
    requires n <= |t|
  {
    forall i :: 0 <= i < n ==> t[i] == Exp(i)
  }

  // The powers of alpha below n are indexed by the logarithm table.
  ghost predicate LogFilled(t: seq<int>, n: nat)
    requires |t| == 256
  {
    forall i {:trigger Exp(i)} :: 0 <= i < n ==> 0 <= Index(Exp(i)) < 256 && t[Index(Exp(i))] == i
  }

  lemma LogStep(t: seq<int>, n: nat)
    requires |t| == 256 && n < 255 && LogFilled(t, n) && 0 <= Index(Exp(n)) < 256
    ensures LogFilled(t[Index(Exp(n)) := n], n + 1)
  {
    var u := t[Index(Exp(n)) := n];
    forall i {:trigger Exp(i)} | 0 <= i < n + 1 ensures 0 <= Index(Exp(i)) < 256 && u[Index(Exp(i))] == i {
      ByteOfIndex(Exp(i)); ByteOfIndex(Exp(n));
      if i < n && Exp(i) == Exp(n) { ExpInjective(i, n); }
    }
  }

  // x % 255 without a division
  method Modnn(x: nat) returns (r: nat)
    ensures r == x % GF_SIZE
  {
    r := x;
    while r >= GF_SIZE
      invariant r % GF_SIZE == x % GF_SIZE
    {
      var y := r - GF_SIZE;
      assert y % GF_SIZE == r % GF_SIZE;
      FoldMod(y);
      r := y / 256 + y % 256;
    }
  }

  lemma FoldMod(y: nat)
    ensures (y / 256 + y % 256) % 255 == y % 255
    ensures y / 256 + y % 256 <= y
  {
    var q, s := y / 256, y % 256;
    assert y == 255 * q + (q + s);
    ModShift(q + s, q);
  }

  lemma {:induction false} ModShift(a: nat, q: nat)
    ensures (255 * q + a) % 255 == a % 255
  {
    if q > 0 {
      ModShift(a, q - 1);
      assert 255 * q + a == 255 * (q - 1) + a + 255;
    }
  }

  lemma NextPower(i: nat, x: bv8)
    requires Exp(i) == x
    ensures Exp(i + 1) == if x >= 0x80 then 0x1D ^ ((x ^ 0x80) << 1) else x << 1
  {
    AlphaIsShift(x);
  }

  const LOW_POWERS: seq<bv8> := [1, 2, 4, 8, 16, 32, 64, 128]

  // The sum of the terms of x^8 that the primitive polynomial has below degree n
  function Tail(n: nat): bv8
    requires n <= 8
  {
    if n == 0 then 0 else if PRIMITIVE[n - 1] == '1' then Tail(n - 1) ^ LOW_POWERS[n - 1] else Tail(n - 1)
  }

  lemma LowPowerStep(i: nat)
    requires i < 7
    ensures LOW_POWERS[i] << 1 == LOW_POWERS[i + 1] && LOW_POWERS[i] < 0x80
  {
    if i == 0 {} else if i == 1 {} else if i == 2 {} else if i == 3 {} else if i == 4 {} else if i == 5 {} else {}
  }

  lemma {:induction false} LowPowers(i: nat)
    requires i < 8
    ensures Exp(i) == LOW_POWERS[i]
  {
    if i > 0 { LowPowers(i - 1); LowPowerStep(i - 1); NextPower(i - 1, Exp(i - 1)); }
  }

  lemma TailValue()
    ensures Tail(8) == 0x1D
  {}

  lemma TailIsEighthPower(n: nat)
    requires n == 8
    ensures Tail(n) == Exp(n)
  {
    TailValue(); LowPowers(n - 1); NextPower(n - 1, Exp(n - 1));
  }

  lemma OnePeriodLater(i: nat)
    ensures Exp(i + GF_SIZE) == Exp(i)
  {
    PowersBy15(17);
    var p := 15 * 17;
    ExpPeriod(p, 1, i);
  }

  // What the tables hold once they are filled.
  ghost predicate ExpTable(t: seq<bv8>) {
    |t| == 2 * GF_SIZE && forall i :: 0 <= i < 2 * GF_SIZE ==> t[i] == Exp(i)
  }

  ghost predicate LogTable(t: seq<int>) {
    |t| == 256 && t[0] == GF_SIZE && forall i :: 0 < i < 256 ==> Byte(i) != 0 && t[i] == Log(Byte(i))
  }

  ghost predicate InverseTable(t: seq<bv8>) {
    |t| == 256 && forall i :: 0 <= i < 256 ==> t[i] == Inv(Byte(i))
  }

  ghost predicate MulTable(t: seq<bv8>) {
    |t| == 65536 && forall k :: 0 <= k < 65536 ==> t[k] == Mul(Byte(k / 256), Byte(k % 256))
  }

  lemma ByteNonzero(i: int)
    requires 0 <= i < 256
    ensures Byte(i) == 0 <==> i == 0
  {
    IndexOfByte(i); ByteIsBv(0); IndexOfByte(0);
  }

  lemma LogTableComplete(t: seq<int>)
    requires |t| == 256 && LogFilled(t, 255)
    ensures LogTable(t[0 := GF_SIZE])
  {
    forall i | 0 < i < 256 ensures Byte(i) != 0 && t[i] == Log(Byte(i)) {
      ByteNonzero(i); IndexOfByte(i);
      assert Exp(Log(Byte(i))) == Byte(i);
    }
  }

  lemma LogEntry(t: seq<int>, i: int)
    requires LogTable(t) && 0 < i < 256
    ensures Byte(i) != 0 && t[i] == Log(Byte(i))
  {}

  lemma InverseOfOne()
    ensures Inv(0) == 0 && Inv(1) == 1
  {
    MulOneLeft(1); InverseUnique(1, 1);
  }

  lemma InverseEntry(i: int)
    requires 2 <= i < 256 && Byte(i) != 0
    ensures 0 < Log(Byte(i)) && Inv(Byte(i)) == Exp(255 - Log(Byte(i)))
  {
    IndexOfByte(i); ByteIsBv(1); IndexOfByte(1);
    ExpInverse(Byte(i)); InverseUnique(Byte(i), Exp(255 - Log(Byte(i))));
  }

  lemma ProductEntry(i: int, j: int)
    requires 0 < i < 256 && 0 < j < 256 && Byte(i) != 0 && Byte(j) != 0
    ensures Exp((Log(Byte(i)) + Log(Byte(j))) % GF_SIZE) == Mul(Byte(i), Byte(j))
  {
    var s := Log(Byte(i)) + Log(Byte(j));
    ExpMul(Log(Byte(i)), Byte(j), Log(Byte(j)));
    if s >= GF_SIZE { OnePeriodLater(s - GF_SIZE); }
  }

  ghost predicate NonzeroProducts(t: seq<bv8>, n: nat)
    requires n <= |t|
  {
    forall k :: 256 <= k < n && k % 256 != 0 ==> t[k] == Mul(Byte(k / 256), Byte(k % 256))
  }

  lemma ZeroProducts(t: seq<bv8>)
    requires |t| == 65536 && NonzeroProducts(t, 65536)
    requires forall k :: 0 <= k < 256 ==> t[k] == 0 && t[256 * k] == 0
    ensures MulTable(t)
  {
    forall k | 0 <= k < 65536 ensures t[k] == Mul(Byte(k / 256), Byte(k % 256)) {
      ByteIsBv(0); MulZero(Byte(k / 256)); MulZero(Byte(k % 256));
      if k % 256 == 0 { assert t[256 * (k / 256)] == 0; }
    }
  }

  class Tables {
    const gfExp: array<bv8>
    const gfLog: array<int>
    const inverse: array<bv8>
    const gfMulTable: array<bv8>

    ghost predicate Shape() {
      && gfExp.Length == 2 * GF_SIZE && gfLog.Length == 256
      && inverse.Length == 256 && gfMulTable.Length == 65536
      && gfExp != inverse && gfExp != gfMulTable && inverse != gfMulTable
      && gfLog as object != gfExp && gfLog as object != inverse && gfLog as object != gfMulTable
    }

    ghost predicate Valid()
      reads gfExp, gfLog, inverse, gfMulTable
    {
      && Shape()
      && ExpTable(gfExp[..]) && LogTable(gfLog[..]) && InverseTable(inverse[..]) && MulTable(gfMulTable[..])
    }

    // fec_init
    constructor ()
      ensures Valid()
    {
      gfExp := new bv8[2 * GF_SIZE](_ => 0);
      gfLog := new int[256](_ => 0);
      inverse := new bv8[256](_ => 0);
      gfMulTable := new bv8[65536](_ => 0);
      new;
      GenerateLowPowers();
      GenerateHighPowers();
      ExtendTables();
      GenerateInverses();
      InitMulTable();
    }

    method RecordLog(i: nat)
      requires Shape() && i < 255 && gfExp[i] == Exp(i) && LogFilled(gfLog[..], i)
      modifies gfLog
      ensures LogFilled(gfLog[..], i + 1)
    {
      IndexIsInt(gfExp[i]);
      ghost var before := gfLog[..];
      gfLog[gfExp[i] as int] := i;
      LogStep(before, i);
      assert gfLog[..] == before[Index(Exp(i)) := i];
    }

    method RecordLowPower(i: nat, mask: bv8)
      requires Shape() && i < 8 && mask == LOW_POWERS[i] && gfExp[8] == Tail(i)
      requires ExpFilled(gfExp[..], i) && LogFilled(gfLog[..], i)
      modifies gfExp, gfLog
      ensures gfExp[8] == Tail(i + 1) && ExpFilled(gfExp[..], i + 1) && LogFilled(gfLog[..], i + 1)
    {
      LowPowers(i);
      gfExp[i] := mask;
      RecordLog(i);
      if PRIMITIVE[i] == '1' {
        gfExp[8] := gfExp[8] ^ mask;
      }
    }

    // The first eight powers of alpha, and the ninth
    method GenerateLowPowers()
      requires Shape()
      modifies gfExp, gfLog
      ensures ExpFilled(gfExp[..], 9) && LogFilled(gfLog[..], 9)
    {
      var mask: bv8 := 1;
      gfExp[8] := 0;
      for i := 0 to 8
        invariant i < 8 ==> mask == LOW_POWERS[i]
        invariant gfExp[8] == Tail(i)
        invariant ExpFilled(gfExp[..], i) && LogFilled(gfLog[..], i)
      {
        RecordLowPower(i, mask);
        if i < 7 { LowPowerStep(i); }
        mask := mask << 1;
      }
      TailIsEighthPower(8);
      RecordLog(8);
    }

    // The remaining powers below alpha^255
    method GenerateHighPowers()
      requires Shape()
      requires ExpFilled(gfExp[..], 9) && LogFilled(gfLog[..], 9)
      modifies gfExp, gfLog
      ensures ExpFilled(gfExp[..], GF_SIZE) && LogFilled(gfLog[..], GF_SIZE)
    {
      var mask: bv8 := 0x80;
      TailIsEighthPower(8); TailValue();
      for i := 9 to GF_SIZE
        invariant gfExp[8] == 0x1D
        invariant ExpFilled(gfExp[..], i) && LogFilled(gfLog[..], i)
      {
        RecordHighPower(i, mask);
        RecordLog(i);
      }
    }

    method RecordHighPower(i: nat, mask: bv8)
      requires Shape() && 9 <= i < GF_SIZE && mask == 0x80 && gfExp[8] == 0x1D
      requires gfExp[i - 1] == Exp(i - 1)
      modifies gfExp
      ensures gfExp[i] == Exp(i) && forall k :: 0 <= k < gfExp.Length && k != i ==> gfExp[k] == old(gfExp[k])
    {
      NextPower(i - 1, gfExp[i - 1]);
      if gfExp[i - 1] >= mask {
        gfExp[i] := gfExp[8] ^ ((gfExp[i - 1] ^ mask) << 1);
      } else {
        gfExp[i] := gfExp[i - 1] << 1;
      }
    }

    // log(0), and a second period of the powers
    method ExtendTables()
      requires Shape()
      requires ExpFilled(gfExp[..], GF_SIZE) && LogFilled(gfLog[..], GF_SIZE)
      modifies gfExp, gfLog
      ensures ExpTable(gfExp[..]) && LogTable(gfLog[..])
    {
      LogTableComplete(gfLog[..]);
      ghost var logs := gfLog[..];
      gfLog[0] := GF_SIZE;
      assert gfLog[..] == logs[0 := GF_SIZE];
      ExtendPowers();
    }

    method ExtendPowers()
      requires Shape() && ExpFilled(gfExp[..], GF_SIZE)
      modifies gfExp
      ensures ExpTable(gfExp[..])
    {
      for i := 0 to GF_SIZE
        invariant ExpFilled(gfExp[..], GF_SIZE + i)
      {
        OnePeriodLater(i);
        gfExp[i + GF_SIZE] := gfExp[i];
      }
    }

    method GenerateInverses()
      requires Shape()
      requires ExpTable(gfExp[..]) && LogTable(gfLog[..])
      modifies inverse
      ensures InverseTable(inverse[..])
    {
      inverse[0] := 0;
      inverse[1] := 1;
      ByteIsBv(0); ByteIsBv(1); InverseOfOne();
      for i := 2 to GF_SIZE + 1
        invariant forall k :: 0 <= k < i ==> inverse[k] == Inv(Byte(k))
      {
        LogEntry(gfLog[..], i); InverseEntry(i);
        inverse[i] := gfExp[GF_SIZE - gfLog[i]];
      }
    }

    // Products of nonzero elements; the entries with a zero factor hold something else
    method FillProducts()
      requires Shape()
      requires ExpTable(gfExp[..]) && LogTable(gfLog[..])
      modifies gfMulTable
      ensures NonzeroProducts(gfMulTable[..], 65536)
    {
      for i := 0 to GF_SIZE + 1
        invariant NonzeroProducts(gfMulTable[..], 256 * i)
      {
        for j := 0 to GF_SIZE + 1
          invariant NonzeroProducts(gfMulTable[..], 256 * i + j)
        {
          FillProduct(i, j);
        }
      }
    }

    method FillProduct(i: nat, j: nat)
      requires Shape() && ExpTable(gfExp[..]) && LogTable(gfLog[..])
      requires i < 256 && j < 256 && NonzeroProducts(gfMulTable[..], 256 * i + j)
      modifies gfMulTable
      ensures NonzeroProducts(gfMulTable[..], 256 * i + j + 1)
    {
      ghost var before := gfMulTable[..];
      var m := Modnn(gfLog[i] + gfLog[j]);
      gfMulTable[256 * i + j] := gfExp[m];
      if i != 0 && j != 0 { LogEntry(gfLog[..], i); LogEntry(gfLog[..], j); ProductEntry(i, j); }
      assert gfMulTable[..] == before[256 * i + j := gfExp[m]];
    }

    method InitMulTable()
      requires Shape()
      requires ExpTable(gfExp[..]) && LogTable(gfLog[..])
      modifies gfMulTable
      ensures MulTable(gfMulTable[..])
    {
      FillProducts();
      for j := 0 to GF_SIZE + 1
        invariant NonzeroProducts(gfMulTable[..], 65536)
        invariant forall k :: 0 <= k < j ==> gfMulTable[k] == 0 && gfMulTable[256 * k] == 0
      {
        gfMulTable[256 * j] := 0;
        gfMulTable[j] := 0;
      }
      ZeroProducts(gfMulTable[..]);
    }

    ghost function Arrays(): set<object> { {gfExp as object, gfLog as object, inverse as object, gfMulTable as object} }

    // gf_mul
    function GfMul(x: bv8, y: bv8): (r: bv8)
      requires Valid()
      reads gfExp, gfLog, inverse, gfMulTable
      ensures r == Mul(x, y)
    {
      ProductIndex(x, y);
      gfMulTable[ProductCell(x, y)]
    }

    function GfInverse(x: bv8): (r: bv8)
      requires Valid()
      reads gfExp, gfLog, inverse, gfMulTable
      ensures r == Inv(x)
    {
      IndexIsInt(x); ByteOfIndex(x);
      inverse[x as int]
    }
  }

  function ProductCell(x: bv8, y: bv8): int { (x as int) * 256 + y as int }

  lemma ProductIndex(x: bv8, y: bv8)
    ensures 0 <= ProductCell(x, y) < 65536
    ensures Byte(ProductCell(x, y) / 256) == x && Byte(ProductCell(x, y) % 256) == y
  {
    ByteOfIndex(x); ByteOfIndex(y);
    ProductCellIs(x, y);
    Split256(Index(x), Index(y));
  }

  lemma ProductCellIs(x: bv8, y: bv8)
    ensures ProductCell(x, y) == Index(x) * 256 + Index(y)
  {
    IndexIsInt(x); IndexIsInt(y);
  }

  lemma Split256(a: int, b: int)
    requires 0 <= a < 256 && 0 <= b < 256
    ensures (a * 256 + b) / 256 == a && (a * 256 + b) % 256 == b
  {}
}
