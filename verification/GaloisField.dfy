/** GF(2^8) modulo x^8 + x^4 + x^3 + x^2 + 1. */
module GaloisField {
  import Bytes

  function Xor(a: bv8, b: bv8): bv8 { a ^ b }

  function TimesX(a: bv8): bv8 { (a << 1) ^ ((a >> 7) * 0x1D) }

  function AsIndex(a: bv8): int { a as int }

  function AsByte(n: int): bv8 { if 0 <= n < 256 then n as bv8 else 0 }

  datatype Ops = Ops(add: (bv8, bv8) -> bv8, alpha: bv8 -> bv8, index: bv8 -> int, byte: int -> bv8)

  ghost predicate Sealed(o: Ops) {
    && (forall a, b {:trigger Xor(a, b)} :: o.add(a, b) == Xor(a, b))
    && (forall a {:trigger TimesX(a)} :: o.alpha(a) == TimesX(a))
    && (forall a {:trigger AsIndex(a)} :: o.index(a) == AsIndex(a))
    && (forall n {:trigger AsByte(n)} :: o.byte(n) == AsByte(n))
  }

  lemma SealedExists()
    ensures exists o :: Sealed(o)
  {
    var o := Ops((a, b) => Xor(a, b), a => TimesX(a), a => AsIndex(a), n => AsByte(n));
    assert Sealed(o);
  }

  ghost function Machine(): (o: Ops)
    ensures Sealed(o)
  {
    SealedExists();
    var o :| Sealed(o); o
  }

  ghost function Add(a: bv8, b: bv8): bv8 { Machine().add(a, b) }

  ghost function Alpha(a: bv8): bv8 { Machine().alpha(a) }

  // The table index of a byte, and the byte with a given value
  ghost function Index(a: bv8): int { Machine().index(a) }

  ghost function Byte(n: int): bv8 { Machine().byte(n) }

  lemma IndexIsInt(a: bv8)
    ensures Index(a) == a as int && 0 <= Index(a) < 256
  {
    assert AsIndex(a) == a as int;
  }

  lemma ByteIsBv(n: int)
    requires 0 <= n < 256
    ensures Byte(n) == n as bv8
  {
    assert AsByte(n) == n as bv8;
  }

  lemma ByteOfIndex(a: bv8)
    ensures 0 <= Index(a) < 256 && Byte(Index(a)) == a
  {
    IndexIsInt(a); ByteIsBv(Index(a));
  }

  lemma IndexOfByte(n: int)
    requires 0 <= n < 256
    ensures Index(Byte(n)) == n
  {
    ByteIsBv(n); Bytes.IntRoundTrip(n); IndexIsInt(n as bv8);
  }

  lemma AddIsXor(a: bv8, b: bv8)
    ensures Add(a, b) == a ^ b
  {
    assert Xor(a, b) == a ^ b;
  }

  lemma AlphaIsShift(a: bv8)
    ensures Alpha(a) == (a << 1) ^ ((a >> 7) * 0x1D)
  {
    assert TimesX(a) == (a << 1) ^ ((a >> 7) * 0x1D);
  }

  lemma AddCommutes(a: bv8, b: bv8)
    ensures Add(a, b) == Add(b, a)
  {
    AddIsXor(a, b); AddIsXor(b, a);
  }

  lemma AddAssoc(a: bv8, b: bv8, c: bv8)
    ensures Add(Add(a, b), c) == Add(a, Add(b, c))
  {
    AddIsXor(a, b); AddIsXor(a ^ b, c); AddIsXor(b, c); AddIsXor(a, b ^ c);
  }

  lemma AddZero(a: bv8)
    ensures Add(a, 0) == a && Add(0, a) == a
  {
    AddIsXor(a, 0); AddIsXor(0, a);
  }

  lemma AddSelf(a: bv8, b: bv8)
    ensures Add(a, b) == 0 <==> a == b
  {
    AddIsXor(a, b);
  }

  lemma AddSwap(a: bv8, b: bv8, c: bv8, d: bv8)
    ensures Add(Add(a, b), Add(c, d)) == Add(Add(a, c), Add(b, d))
  {
    AddAssoc(a, b, Add(c, d)); AddAssoc(b, c, d); AddCommutes(b, c);
    AddAssoc(c, b, d); AddAssoc(a, c, Add(b, d));
  }

  lemma AlphaLinear(a: bv8, b: bv8)
    ensures Alpha(Add(a, b)) == Add(Alpha(a), Alpha(b))
  {
    AddIsXor(a, b); AlphaIsShift(a ^ b); AlphaIsShift(a); AlphaIsShift(b); AddIsXor(Alpha(a), Alpha(b));
  }

  lemma AlphaZero(a: bv8)
    ensures Alpha(a) == 0 <==> a == 0
  { AlphaIsShift(a); }

  lemma AlphaInjective(a: bv8, b: bv8)
    requires Alpha(a) == Alpha(b)
    ensures a == b
  { AlphaIsShift(a); AlphaIsShift(b); }

  ghost function Horner(a: bv8, bits: seq<bool>): bv8 {
    if bits == [] then 0 else Add(if bits[0] then a else 0, Alpha(Horner(a, bits[1..])))
  }

  lemma {:induction false} HornerLinear(a: bv8, c: bv8, bits: seq<bool>)
    ensures Horner(Add(a, c), bits) == Add(Horner(a, bits), Horner(c, bits))
  {
    AddZero(0);
    if bits != [] {
      var x, y := Horner(a, bits[1..]), Horner(c, bits[1..]);
      HornerLinear(a, c, bits[1..]);
      AlphaLinear(x, y);
      AddSwap(if bits[0] then a else 0, if bits[0] then c else 0, Alpha(x), Alpha(y));
    }
  }

  lemma {:induction false} HornerAlpha(a: bv8, bits: seq<bool>)
    ensures Horner(Alpha(a), bits) == Alpha(Horner(a, bits))
  {
    AlphaZero(0);
    if bits != [] {
      HornerAlpha(a, bits[1..]);
      AlphaLinear(if bits[0] then a else 0, Alpha(Horner(a, bits[1..])));
    }
  }

  function Bits(b: bv8): seq<bool> {
    [b & 1 != 0, b & 2 != 0, b & 4 != 0, b & 8 != 0, b & 16 != 0, b & 32 != 0, b & 64 != 0, b & 128 != 0]
  }

  ghost function Product(a: bv8, b: bv8): bv8 { Horner(a, Bits(b)) }

  ghost predicate Multiplies(m: (bv8, bv8) -> bv8) {
    forall a, b {:trigger Product(a, b)} :: m(a, b) == Product(a, b)
  }

  lemma MultiplierExists()
    ensures exists m :: Multiplies(m)
  {
    var m := (a, b) => Product(a, b);
    assert Multiplies(m);
  }

  ghost function Multiplier(): (m: (bv8, bv8) -> bv8)
    ensures Multiplies(m)
  {
    MultiplierExists();
    var m :| Multiplies(m); m
  }

  ghost function Mul(a: bv8, b: bv8): bv8 { Multiplier()(a, b) }

  lemma MulIsHorner(a: bv8, b: bv8)
    ensures Mul(a, b) == Horner(a, Bits(b))
  {
    assert Product(a, b) == Horner(a, Bits(b));
  }

  lemma MulAddLeft(a: bv8, c: bv8, b: bv8)
    ensures Mul(Add(a, c), b) == Add(Mul(a, b), Mul(c, b))
  {
    MulIsHorner(Add(a, c), b); MulIsHorner(a, b); MulIsHorner(c, b);
    HornerLinear(a, c, Bits(b));
  }

  lemma MulAlpha(a: bv8, b: bv8)
    ensures Mul(Alpha(a), b) == Alpha(Mul(a, b))
  {
    MulIsHorner(Alpha(a), b); MulIsHorner(a, b);
    HornerAlpha(a, Bits(b));
  }

  lemma {:induction false} HornerZero(bits: seq<bool>)
    ensures Horner(0, bits) == 0
  {
    AddZero(0); AlphaZero(0);
    if bits != [] { HornerZero(bits[1..]); }
  }

  lemma {:induction false} HornerFalse(a: bv8, bits: seq<bool>)
    requires forall i :: 0 <= i < |bits| ==> !bits[i]
    ensures Horner(a, bits) == 0
  {
    AddZero(0); AlphaZero(0);
    if bits != [] { HornerFalse(a, bits[1..]); }
  }

  lemma MulZero(a: bv8)
    ensures Mul(a, 0) == 0 && Mul(0, a) == 0
  {
    MulIsHorner(a, 0); MulIsHorner(0, a); HornerZero(Bits(a)); HornerFalse(a, Bits(0));
  }

  lemma MulOneRight(a: bv8)
    ensures Mul(a, 1) == a
  {
    MulIsHorner(a, 1); HornerFalse(a, Bits(1)[1..]); AlphaZero(0); AddZero(a);
  }

  lemma HornerOneStep(b: bv8, k: nat, bits: seq<bool>)
    requires bits != [] && k < 8
    requires bits[0] <==> (b >> k) & 1 != 0
    requires Horner(1, bits[1..]) == (b >> k) >> 1
    ensures Horner(1, bits) == b >> k
  {
    var h := b >> k;
    AlphaIsShift(h >> 1);
    AddIsXor(if bits[0] then 1 else 0, Alpha(h >> 1));
  }

  lemma BitAt(b: bv8, k: nat)
    requires k < 8
    ensures Bits(b)[k] <==> (b >> k) & 1 != 0
  {
    if k == 0 {} else if k == 1 {} else if k == 2 {} else if k == 3 {}
    else if k == 4 {} else if k == 5 {} else if k == 6 {} else {}
  }

  lemma ShiftOnce(b: bv8, k: nat)
    requires k < 8
    ensures (b >> k) >> 1 == b >> (k + 1)
  {
    if k == 0 {} else if k == 1 {} else if k == 2 {} else if k == 3 {}
    else if k == 4 {} else if k == 5 {} else if k == 6 {} else {}
  }

  lemma {:induction false} HornerOne(b: bv8, k: nat)
    requires k <= 8
    ensures Horner(1, Bits(b)[k..]) == b >> k
    decreases 8 - k
  {
    if k < 8 {
      HornerOne(b, k + 1); BitAt(b, k); ShiftOnce(b, k);
      var s := Bits(b)[k..];
      assert s[1..] == Bits(b)[k+1..];
      HornerOneStep(b, k, s);
    } else { ShiftAll(b); }
  }

  lemma ShiftAll(b: bv8) ensures b >> 8 == 0 && b >> 0 == b {}

  lemma MulOneLeft(b: bv8)
    ensures Mul(1, b) == b
  {
    MulIsHorner(1, b); ShiftAll(b); HornerOne(b, 0);
    assert Bits(b)[0..] == Bits(b);
  }

  ghost function Exp(i: nat): bv8 { if i == 0 then 1 else Alpha(Exp(i - 1)) }

  lemma {:induction false} ExpMul(i: nat, b: bv8, j: nat)
    requires b == Exp(j)
    ensures Mul(Exp(i), b) == Exp(i + j)
  {
    if i == 0 { MulOneLeft(b); } else { ExpMul(i - 1, b, j); MulAlpha(Exp(i - 1), b); }
  }

  // Three and fifteen multiplications by x
  function TimesX3(a: bv8): bv8 { TimesX(TimesX(TimesX(a))) }

  function TimesX15(a: bv8): bv8 { TimesX3(TimesX3(TimesX3(TimesX3(TimesX3(a))))) }

  lemma Exp3(i: nat)
    ensures Exp(i + 1) == TimesX(Exp(i))
    ensures Exp(i + 3) == TimesX3(Exp(i))
  {
    AlphaIsTimesX(Exp(i)); AlphaIsTimesX(Exp(i + 1)); AlphaIsTimesX(Exp(i + 2));
  }

  lemma Exp15(i: nat)
    ensures Exp(i + 15) == TimesX15(Exp(i))
  {
    Exp3(i); Exp3(i + 3); Exp3(i + 6); Exp3(i + 9); Exp3(i + 12);
  }

  lemma AlphaIsTimesX(a: bv8)
    ensures Alpha(a) == TimesX(a)
  {}

  // Every fifteenth power of alpha
  const FIFTEENTHS: seq<bv8> := [0x01, 0x26, 0x60, 0xc1, 0xb9, 0x0f, 0xdf, 0x1a, 0x3b, 0xa9, 0x55, 0x91, 0x96, 0x64,
                                 0x59, 0x24, 0x2c, 0x01]

  lemma FifteenthsStep(k: nat)
    requires k < 17
    ensures TimesX15(FIFTEENTHS[k]) == FIFTEENTHS[k + 1]
  {
    if k == 0 { assert TimesX15(0x01) == 0x26; }
    if k == 1 { assert TimesX15(0x26) == 0x60; }
    if k == 2 { assert TimesX15(0x60) == 0xc1; }
    if k == 3 { assert TimesX15(0xc1) == 0xb9; }
    if k == 4 { assert TimesX15(0xb9) == 0x0f; }
    if k == 5 { assert TimesX15(0x0f) == 0xdf; }
    if k == 6 { assert TimesX15(0xdf) == 0x1a; }
    if k == 7 { assert TimesX15(0x1a) == 0x3b; }
    if k == 8 { assert TimesX15(0x3b) == 0xa9; }
    if k == 9 { assert TimesX15(0xa9) == 0x55; }
    if k == 10 { assert TimesX15(0x55) == 0x91; }
    if k == 11 { assert TimesX15(0x91) == 0x96; }
    if k == 12 { assert TimesX15(0x96) == 0x64; }
    if k == 13 { assert TimesX15(0x64) == 0x59; }
    if k == 14 { assert TimesX15(0x59) == 0x24; }
    if k == 15 { assert TimesX15(0x24) == 0x2c; }
    if k == 16 { assert TimesX15(0x2c) == 0x01; }
  }

  lemma {:induction false} ExpFifteenths(k: nat)
    requires k <= 17
    ensures Exp(15 * k) == FIFTEENTHS[k]
  {
    if k > 0 {
      ExpFifteenths(k - 1); FifteenthsStep(k - 1); Exp15(15 * (k - 1));
    }
  }

  lemma {:induction false} ExpPeriod(p: nat, q: nat, r: nat)
    requires Exp(p) == 1
    ensures Exp(p * q + r) == Exp(r)
  {
    if q > 0 {
      ExpMul(p, Exp(p * (q - 1) + r), p * (q - 1) + r);
      MulOneLeft(Exp(p * (q - 1) + r));
      ExpPeriod(p, q - 1, r);
      assert p + (p * (q - 1) + r) == p * q + r;
    }
  }

  lemma PowersBy15(m: nat)
    requires m <= 17
    ensures Exp(15 * m) == 1 <==> m == 0 || m == 17
  {
    ExpFifteenths(m);
  }

  // alpha^51 = alpha^(15 * 3 + 6), and so on for 102, 153 and 204
  lemma PowersBy51(m: nat)
    requires 0 < m < 5
    ensures Exp(51 * m) != 1
  {
    var k := if m == 1 then 3 else if m == 2 then 6 else if m == 3 then 10 else 13;
    ExpFifteenths(k);
    Exp3(15 * k); Exp3(15 * k + 3); Exp3(15 * k + 6); Exp3(15 * k + 9);
  }

  lemma PowersBy85(m: nat)
    requires 0 < m < 3
    ensures Exp(85 * m) != 1
  {
    var k := if m == 1 then 5 else 11;
    ExpFifteenths(k);
    Exp3(15 * k); Exp3(15 * k + 3); Exp3(15 * k + 4); Exp3(15 * k + 6); Exp3(15 * k + 9);
  }

  lemma RootOfUnity(i: nat, m: nat, q: nat)
    requires Exp(i) == 1 && 0 < q && m * q == 255
    ensures Exp(m * (i % q)) == 1
  {
    PowersBy15(17);
    var p := 15 * 17;
    ExpPeriod(i, m, 0);
    ExpPeriod(p, i / q, m * (i % q));
    assert i * m == (m * q) * (i / q) + m * (i % q);
  }

  lemma NotMultipleOf255(i: nat)
    requires 0 < i < 255
    ensures i % 3 != 0 || i % 5 != 0 || i % 17 != 0
  {}

  lemma RootHasFactor3(i: nat)
    requires Exp(i) == 1
    ensures i % 3 == 0
  {
    var r := i % 3;
    RootOfUnity(i, 85, 3);
    if r != 0 { PowersBy85(r); }
  }

  lemma RootHasFactor5(i: nat)
    requires Exp(i) == 1
    ensures i % 5 == 0
  {
    var r := i % 5;
    RootOfUnity(i, 51, 5);
    if r != 0 { PowersBy51(r); }
  }

  lemma RootHasFactor17(i: nat)
    requires Exp(i) == 1
    ensures i % 17 == 0
  {
    var r := i % 17;
    RootOfUnity(i, 15, 17); PowersBy15(r);
  }

  // The order of alpha divides 255 = 3 * 5 * 17 and is none of its proper divisors.
  lemma AlphaHasOrder255(i: nat)
    requires 0 < i < 255
    ensures Exp(i) != 1
  {
    NotMultipleOf255(i);
    if Exp(i) == 1 {
      RootHasFactor3(i); RootHasFactor5(i); RootHasFactor17(i);
    }
  }

  lemma {:induction false} ExpCancel(i: nat, d: nat)
    requires Exp(i + d) == Exp(i)
    ensures Exp(d) == 1
  {
    if i > 0 {
      AlphaInjective(Exp(i - 1 + d), Exp(i - 1));
      ExpCancel(i - 1, d);
    }
  }

  lemma ExpInjective(i: nat, j: nat)
    requires i < 255 && j < 255 && Exp(i) == Exp(j)
    ensures i == j
  {
    if i != j {
      var lo, hi := if i < j then i else j, if i < j then j else i;
      ExpCancel(lo, hi - lo); AlphaHasOrder255(hi - lo);
    }
  }

  lemma {:induction false} ExpNonzero(i: nat)
    ensures Exp(i) != 0
  {
    if i > 0 { ExpNonzero(i - 1); AlphaZero(Exp(i - 1)); }
  }

  // Pigeonhole: the 255 distinct powers of alpha are all the nonzero bytes.
  ghost function Powers(n: nat): set<int> { set i | 0 <= i < n :: Index(Exp(i)) }

  lemma PowerIsNew(n: nat)
    requires n < 255
    ensures Index(Exp(n)) !in Powers(n)
  {
    forall i | 0 <= i < n ensures Index(Exp(i)) != Index(Exp(n)) {
      ByteOfIndex(Exp(i)); ByteOfIndex(Exp(n));
      if Exp(i) == Exp(n) { ExpInjective(i, n); }
    }
  }

  lemma {:induction false} PowersCount(n: nat)
    requires n <= 255
    ensures |Powers(n)| == n
  {
    if n > 0 {
      PowersCount(n - 1);
      assert Powers(n) == Powers(n - 1) + {Index(Exp(n - 1))};
      PowerIsNew(n - 1);
    }
  }

  // The integers 1 to n
  ghost function UpTo(n: nat): set<int> { if n == 0 then {} else UpTo(n - 1) + {n} }

  lemma {:induction false} UpToCount(n: nat)
    ensures |UpTo(n)| == n && forall k :: k in UpTo(n) <==> 1 <= k <= n
  {
    if n > 0 { UpToCount(n - 1); }
  }

  lemma SubsetSameSize(a: set<int>, b: set<int>)
    requires a <= b && |a| == |b|
    ensures a == b
  {
    assert b == a + (b - a);
    assert |b| == |a| + |b - a|;
  }

  lemma PowerInRange(i: nat)
    ensures 1 <= Index(Exp(i)) <= 255
  {
    ExpNonzero(i); ByteOfIndex(Exp(i)); ByteIsBv(0);
    assert Byte(Index(Exp(i))) != Byte(0);
  }

  lemma PowersAreNonzero(n: nat)
    requires n == 255
    ensures forall k :: k in Powers(n) <==> 1 <= k <= n
  {
    var r := UpTo(n);
    PowersCount(n); UpToCount(n);
    forall v | v in Powers(n) ensures v in r {
      var i :| 0 <= i < n && v == Index(Exp(i));
      PowerInRange(i);
    }
    SubsetSameSize(Powers(n), r);
  }

  lemma LogExists(x: bv8)
    requires x != 0
    ensures exists i: nat :: i < 255 && Exp(i) == x
  {
    var n := 255;
    PowersAreNonzero(n);
    ByteIsBv(0); ByteOfIndex(x);
    assert Index(x) in Powers(n);
    var i :| 0 <= i < n && Index(x) == Index(Exp(i));
    ByteOfIndex(Exp(i));
    assert Exp(i) == x;
  }

  ghost function Log(x: bv8): (i: nat)
    requires x != 0
    ensures i < 255 && Exp(i) == x
  {
    LogExists(x);
    var i: nat :| i < 255 && Exp(i) == x; i
  }

  lemma MulCommutes(a: bv8, b: bv8)
    ensures Mul(a, b) == Mul(b, a)
  {
    MulZero(a); MulZero(b);
    if a != 0 && b != 0 { ExpMul(Log(a), b, Log(b)); ExpMul(Log(b), a, Log(a)); }
  }

  lemma MulAssoc(a: bv8, b: bv8, c: bv8)
    ensures Mul(Mul(a, b), c) == Mul(a, Mul(b, c))
  {
    MulZero(a); MulZero(b); MulZero(c); MulZero(Mul(a, b)); MulZero(Mul(b, c));
    if a != 0 && b != 0 && c != 0 {
      var i, j, k := Log(a), Log(b), Log(c);
      ExpMul(i, b, j); ExpMul(j, c, k); ExpMul(i + j, c, k); ExpMul(i, Mul(b, c), j + k);
    }
  }

  lemma MulAddRight(a: bv8, b: bv8, c: bv8)
    ensures Mul(a, Add(b, c)) == Add(Mul(a, b), Mul(a, c))
  {
    MulCommutes(a, Add(b, c)); MulCommutes(a, b); MulCommutes(a, c); MulAddLeft(b, c, a);
  }

  lemma MulNonzero(a: bv8, b: bv8)
    ensures Mul(a, b) == 0 <==> a == 0 || b == 0
  {
    MulZero(a); MulZero(b);
    if a != 0 && b != 0 { ExpMul(Log(a), b, Log(b)); ExpNonzero(Log(a) + Log(b)); }
  }

  lemma ExpInverse(a: bv8)
    requires a != 0
    ensures Mul(a, Exp(255 - Log(a))) == 1
  {
    ExpMul(Log(a), Exp(255 - Log(a)), 255 - Log(a));
    var n := Log(a) + (255 - Log(a));
    PowersBy15(n / 15);
  }

  ghost predicate IsInverseByte(a: bv8, r: bv8) { if a == 0 then r == 0 else Mul(a, r) == 1 }

  lemma InverseExists(a: bv8)
    ensures exists r :: IsInverseByte(a, r)
  {
    if a == 0 {
      assert IsInverseByte(a, 0);
    } else {
      ExpInverse(a);
      assert IsInverseByte(a, Exp(255 - Log(a)));
    }
  }

  // The inverse of a; the code's table holds 0 for 0.
  ghost function Inv(a: bv8): (r: bv8)
    ensures if a == 0 then r == 0 else Mul(a, r) == 1
  {
    InverseExists(a);
    var r :| IsInverseByte(a, r); r
  }

  lemma InverseUnique(a: bv8, r: bv8)
    requires Mul(a, r) == 1
    ensures a != 0 && r == Inv(a)
  {
    MulZero(r);
    assert a != 0;
    var s := Inv(a);
    assert Mul(a, s) == 1;
    MulCommutes(a, s);
    MulAssoc(s, a, r);
    MulOneLeft(r); MulOneRight(s);
  }

  lemma InvNonzero(a: bv8)
    requires a != 0
    ensures Inv(a) != 0
  {
    MulZero(a);
  }
}
