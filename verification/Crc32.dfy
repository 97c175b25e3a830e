/** The 32 bit checksum over frames, and the errors it never misses. */
module Crc32 {
  import opened CrcSteps
  import opened CrcTable

  ghost function Word(b: bv8): bv32 { b as bv32 }

  // One byte of the message
  ghost function Update(crc: bv32, b: bv8): bv32 { Step8(Plus(crc, Word(b))) }

  ghost function State(crc: bv32, m: seq<bv8>): bv32 {
    if m == [] then crc else Update(State(crc, m[..|m| - 1]), m[|m| - 1])
  }

  const ALL_ONES: bv32 := 0xffff_ffff

  ghost function Checksum(m: seq<bv8>): bv32 { Plus(State(ALL_ONES, m), ALL_ONES) }

  // ------------------------------------------------------------------ the table-driven loop

  lemma LowFits(y: bv32)
    ensures y & 0xff < 256
  {}

  lemma HighHasNoLow(y: bv32)
    ensures (y & 0xffff_ff00) & 0xff == 0
  {}

  lemma LowAndHigh(y: bv32)
    ensures (y & 0xff) ^ (y & 0xffff_ff00) == y
  {}

  lemma HighMovesDown(y: bv32)
    ensures (y & 0xffff_ff00) >> 8 == y >> 8
  {}

  lemma ByteStaysLow(crc: bv32, b: bv8)
    ensures (crc ^ (b as bv32)) >> 8 == crc >> 8
  {}

  lemma Parts(y: bv32) returns (lo: bv32, hi: bv32)
    ensures lo == y & 0xff && lo < 256 && Plus(lo, hi) == y && Step8(hi) == y >> 8
  {
    lo, hi := y & 0xff, y & 0xffff_ff00;
    LowFits(y);
    assert Plus(lo, hi) == y by { PlusIsXor(lo, hi); LowAndHigh(y); }
    assert Step8(hi) == y >> 8 by { HighHasNoLow(y); Step8Shifts(hi); HighMovesDown(y); }
  }

  lemma ByteAdded(crc: bv32, b: bv8, y: bv32)
    requires y == crc ^ (b as bv32)
    ensures y == Plus(crc, Word(b))
  {
    PlusIsXor(crc, Word(b));
  }

  lemma UpdateParts(crc: bv32, b: bv8, y: bv32) returns (lo: bv32, up: bv32)
    requires y == Plus(crc, Word(b))
    ensures lo == y & 0xff && lo < 256 && up == y >> 8 && Update(crc, b) == Plus(Step8(lo), up)
  {
    var l, h := Parts(y);
    Step8Linear(l, h);
    lo, up := l, Step8(h);
  }

  lemma TableUpdates(crc: bv32, b: bv8, y: bv32, e: bv32)
    requires y == Plus(crc, Word(b)) && y & 0xff < 256 && e == TableEntry(y & 0xff)
    ensures Plus(e, y >> 8) == Update(crc, b)
  {
    var lo, up := UpdateParts(crc, b, y);
    TableIsStep8(lo);
  }

  // One round of the loop
  method Lookup(crc: bv32, b: bv8) returns (r: bv32)
    ensures r == Update(crc, b)
  {
    var y := crc ^ (b as bv32);
    LowFits(y);
    var e := TableEntry(y & 0xff);
    var up := crc >> 8;
    r := e ^ up;
    assert r == Update(crc, b) by {
      ByteAdded(crc, b, y);
      TableUpdates(crc, b, y, e);
      ByteStaysLow(crc, b);
      PlusIsXor(e, up);
    }
  }

  lemma StatePrefix(crc: bv32, m: seq<bv8>, i: nat)
    requires i < |m|
    ensures State(crc, m[..i + 1]) == Update(State(crc, m[..i]), m[i])
  {
    assert m[..i + 1][..i] == m[..i];
  }

  method ComputeCrc32(bytes: seq<bv8>) returns (r: bv32)
    ensures r == Checksum(bytes)
  {
    var crc := ALL_ONES;
    for i := 0 to |bytes|
      invariant crc == State(ALL_ONES, bytes[..i])
    {
      StatePrefix(ALL_ONES, bytes, i);
      crc := Lookup(crc, bytes[i]);
    }
    assert bytes[..|bytes|] == bytes;
    PlusIsXor(crc, ALL_ONES); Complement(crc);
    r := !crc;
  }

  lemma Complement(x: bv32)
    ensures !x == x ^ ALL_ONES
  {}

  lemma CheckByte(m: seq<bv8>, b: bv8, crc: bv32, e: bv32, r: bv32) returns (m': seq<bv8>)
    requires State(ALL_ONES, m) == crc && r == e ^ ((crc ^ (b as bv32)) >> 8)
    requires (crc ^ (b as bv32)) & 0xff < 256 && e == TableEntry((crc ^ (b as bv32)) & 0xff)
    ensures m' == m + [b] && State(ALL_ONES, m') == r
  {
    var y := crc ^ (b as bv32);
    m' := m + [b];
    assert m'[..|m|] == m;
    ByteAdded(crc, b, y);
    TableUpdates(crc, b, y, e);
    PlusIsXor(e, y >> 8);
  }

  lemma ThreeDigits() returns (m: seq<bv8>)
    ensures m == [49, 50, 51] && State(ALL_ONES, m) == 0x77b79c2d
  {
    m := [];
    m := CheckByte(m, 49, 0xffffffff, 0x7cdcefb7, 0x7c231048);
    m := CheckByte(m, 50, 0x7c231048, 0xb0d09822, 0xb0acbb32);
    m := CheckByte(m, 51, 0xb0acbb32, 0x77073096, 0x77b79c2d);
  }

  lemma SixDigits() returns (m: seq<bv8>)
    ensures m == [49, 50, 51, 52, 53, 54] && State(ALL_ONES, m) == 0xf68d2c9e
  {
    m := ThreeDigits();
    m := CheckByte(m, 52, 0x77b79c2d, 0x646ba8c0, 0x641c1f5c);
    m := CheckByte(m, 53, 0x641c1f5c, 0x346ed9fc, 0x340ac5e3);
    m := CheckByte(m, 54, 0x340ac5e3, 0xf6b9265b, 0xf68d2c9e);
  }

  // The check value of the code, for the digits 1 to 9
  lemma CheckValue(digits: seq<bv8>)
    requires digits == [49, 50, 51, 52, 53, 54, 55, 56, 57]
    ensures Checksum(digits) == 0xcbf43926
  {
    var m := SixDigits();
    m := CheckByte(m, 55, 0xf68d2c9e, 0xaf0a1b4c, 0xaffc9660);
    m := CheckByte(m, 56, 0xaffc9660, 0x65b0d9c6, 0x651f2550);
    m := CheckByte(m, 57, 0x651f2550, 0x346ed9fc, 0x340bc6d9);
    assert m == digits;
    PlusIsXor(0x340bc6d9, ALL_ONES);
  }

  // ------------------------------------------------------------------ bit by bit

  // Division by the polynomial, one message bit at a time: the polynomial is subtracted if the bit that falls out and
  // the message bit differ
  function BitStep(crc: bv32, bit: bool): bv32 {
    (crc >> 1) ^ (if (crc & 1 == 1) != bit then POLYNOMIAL else 0)
  }

  function DivideBits(crc: bv32, bits: seq<bool>): bv32 {
    if bits == [] then crc else BitStep(DivideBits(crc, bits[..|bits| - 1]), bits[|bits| - 1])
  }

  function BitOf(t: bv32): bool { t & 1 == 1 }

  // The bits of a byte, the least significant first
  function BitsOf(t: bv32): seq<bool> {
    [BitOf(t), BitOf(t >> 1), BitOf(t >> 2), BitOf(t >> 3), BitOf(t >> 4), BitOf(t >> 5), BitOf(t >> 6), BitOf(t >> 7)]
  }

  function MessageBits(m: seq<bv8>): seq<bool> {
    if m == [] then [] else MessageBits(m[..|m| - 1]) + BitsOf(m[|m| - 1] as bv32)
  }

  lemma DirectParts(s: bv32, bit: bool)
    ensures BitStep(s, bit) == Plus(Down(s), if BitOf(s) != bit then POLYNOMIAL else 0)
  {
    DownIsHalf(s); PlusIsXor(Down(s), if BitOf(s) != bit then POLYNOMIAL else 0);
  }

  lemma LowBitOfSum(s: bv32, t: bv32)
    ensures BitOf(s ^ t) <==> BitOf(s) != BitOf(t)
  {}

  lemma BackOfSum(s: bv32, t: bv32)
    ensures Back(Plus(s, t)) == if BitOf(s) != BitOf(t) then POLYNOMIAL else 0
  {
    PlusIsXor(s, t); LowBitOfSum(s, t); BackIsFeedback(s ^ t);
  }

  // Adding the rest of the byte before the step or after it makes no difference.
  lemma BitAfterBit(s: bv32, t: bv32, s': bv32, t': bv32)
    requires s' == BitStep(s, BitOf(t)) && t' == t >> 1
    ensures Plus(s', t') == Step(Plus(s, t))
  {
    var f := if BitOf(s) != BitOf(t) then POLYNOMIAL else 0;
    DirectParts(s, BitOf(t)); BackOfSum(s, t); StepParts(Plus(s, t)); DownLinear(s, t);
    assert t' == Down(t) by { DownIsHalf(t); }
    PlusAssoc(Down(s), f, t'); PlusCommutes(f, t'); PlusAssoc(Down(s), t', f);
  }

  lemma DivideNext(crc: bv32, bits: seq<bool>, bit: bool) returns (s: bv32)
    ensures s == DivideBits(crc, bits + [bit]) == BitStep(DivideBits(crc, bits), bit)
  {
    assert (bits + [bit])[..|bits|] == bits;
    s := DivideBits(crc, bits + [bit]);
  }

  // The low bit of t is divided; the rest of t is still to come.
  lemma OneBit(crc: bv32, done: seq<bool>, s: bv32, t: bv32, t': bv32) returns (s': bv32, done': seq<bool>)
    requires s == DivideBits(crc, done) && t' == t >> 1
    ensures done' == done + [BitOf(t)] && s' == DivideBits(crc, done') && Plus(s', t') == Step(Plus(s, t))
  {
    done' := done + [BitOf(t)];
    s' := DivideNext(crc, done, BitOf(t));
    BitAfterBit(s, t, s', t');
  }

  lemma ByteShifts(t: bv32) returns (t1: bv32, t2: bv32, t3: bv32, t4: bv32, t5: bv32, t6: bv32, t7: bv32)
    requires t < 256
    ensures t1 == t >> 1 && t2 == t1 >> 1 && t3 == t2 >> 1 && t4 == t3 >> 1 && t5 == t4 >> 1 && t6 == t5 >> 1
            && t7 == t6 >> 1
    ensures t7 >> 1 == 0
    ensures BitsOf(t) == [BitOf(t), BitOf(t1), BitOf(t2), BitOf(t3), BitOf(t4), BitOf(t5), BitOf(t6), BitOf(t7)]
  {
    t1, t2, t3, t4, t5, t6, t7 := t >> 1, t >> 2, t >> 3, t >> 4, t >> 5, t >> 6, t >> 7;
  }

  lemma EightAppends(b0: bool, b1: bool, b2: bool, b3: bool, b4: bool, b5: bool, b6: bool, b7: bool)
    ensures [] + [b0] + [b1] + [b2] + [b3] + [b4] + [b5] + [b6] + [b7] == [b0, b1, b2, b3, b4, b5, b6, b7]
  {}

  // A byte divided bit by bit is one update.
  lemma ByteDivides(crc: bv32, t: bv32)
    requires t < 256
    ensures DivideBits(crc, BitsOf(t)) == Step8(Plus(crc, t))
  {
    var t1, t2, t3, t4, t5, t6, t7 := ByteShifts(t);
    var s1, d1 := OneBit(crc, [], crc, t, t1);
    var s2, d2 := OneBit(crc, d1, s1, t1, t2);
    var s3, d3 := OneBit(crc, d2, s2, t2, t3);
    var s4, d4 := OneBit(crc, d3, s3, t3, t4);
    var s5, d5 := OneBit(crc, d4, s4, t4, t5);
    var s6, d6 := OneBit(crc, d5, s5, t5, t6);
    var s7, d7 := OneBit(crc, d6, s6, t6, t7);
    var s8, d8 := OneBit(crc, d7, s7, t7, 0);
    assert d8 == BitsOf(t) by {
      EightAppends(BitOf(t), BitOf(t1), BitOf(t2), BitOf(t3), BitOf(t4), BitOf(t5), BitOf(t6), BitOf(t7));
    }
    PlusCancels(s8, 0);
    Step8Is(Plus(crc, t));
  }

  lemma {:induction false} DivideAppend(crc: bv32, a: seq<bool>, b: seq<bool>)
    ensures DivideBits(crc, a + b) == DivideBits(DivideBits(crc, a), b)
  {
    if b == [] {
      assert a + b == a;
    } else {
      var init, last := b[..|b| - 1], b[|b| - 1];
      DivideAppend(crc, a, init);
      assert a + b == (a + init) + [last];
      var s := DivideNext(crc, a + init, last);
    }
  }

  lemma ByteIsSmall(b: bv8)
    ensures (b as bv32) < 256
  {}

  // The table-driven loop divides the message by the polynomial bit by bit.
  lemma {:induction false} StateDividesBits(crc: bv32, m: seq<bv8>)
    ensures State(crc, m) == DivideBits(crc, MessageBits(m))
  {
    if m != [] {
      var init, t := m[..|m| - 1], m[|m| - 1] as bv32;
      StateDividesBits(crc, init);
      DivideAppend(crc, MessageBits(init), BitsOf(t));
      ByteIsSmall(m[|m| - 1]);
      ByteDivides(State(crc, init), t);
    }
  }

  // The checksum of every message is the complement of the remainder of the bit-serial division.
  lemma ChecksumDividesBits(m: seq<bv8>)
    ensures Checksum(m) == !DivideBits(ALL_ONES, MessageBits(m))
  {
    StateDividesBits(ALL_ONES, m);
    var s := State(ALL_ONES, m);
    PlusIsXor(s, ALL_ONES); Complement(s);
  }

  // ------------------------------------------------------------------ bursts of up to four bytes

  lemma PlusInjective(a: bv32, b: bv32, c: bv32)
    requires Plus(a, c) == Plus(b, c)
    ensures a == b
  {
    PlusCancels(a, c); PlusCancels(b, c);
  }

  // Different states stay different while the bytes are the same.
  lemma {:induction false} StateInjective(crc: bv32, crc': bv32, m: seq<bv8>)
    requires State(crc, m) == State(crc', m)
    ensures crc == crc'
  {
    if m != [] {
      var init, w := m[..|m| - 1], Word(m[|m| - 1]);
      var s, s' := State(crc, init), State(crc', init);
      Step8Injective(Plus(s, w), Plus(s', w)); PlusInjective(s, s', w);
      StateInjective(crc, crc', init);
    }
  }

  lemma {:induction false} StateAppend(crc: bv32, a: seq<bv8>, b: seq<bv8>)
    ensures State(crc, a + b) == State(State(crc, a), b)
  {
    if b == [] {
      assert a + b == a;
    } else {
      StateAppend(crc, a, b[..|b| - 1]);
      assert (a + b)[..|a + b| - 1] == a + b[..|b| - 1];
    }
  }

  // A byte added after eight steps might as well have been added before them, higher up.
  lemma AddEarlier(x: bv32, up: bv32, w: bv32)
    requires Step8(up) == w
    ensures Plus(Step8(x), w) == Step8(Plus(x, up))
  {
    Step8Linear(x, up);
  }

  ghost function Window(b0: bv32, b1: bv32, b2: bv32, b3: bv32): bv32 {
    Plus(Plus(Plus(b0, b1 << 8), b2 << 16), b3 << 24)
  }

  lemma MovesDown(from: bv32, down: bv32)
    requires from & 0xff == 0 && down == from >> 8
    ensures Step8(from) == down
  {
    Step8Shifts(from);
  }

  lemma ByteRises(b: bv8) returns (w: bv32, w1: bv32, w2: bv32, w3: bv32)
    ensures w == b as bv32 && w1 == w << 8 && w2 == w << 16 && w3 == w << 24
    ensures Step8(w1) == w && Step8(w2) == w1 && Step8(w3) == w2
  {
    w := b as bv32;
    w1, w2, w3 := w << 8, w << 16, w << 24;
    RiseAndFall(b);
    MovesDown(w1, w); MovesDown(w2, w1); MovesDown(w3, w2);
  }

  lemma RiseAndFall(b: bv8)
    ensures var w := b as bv32;
            (w << 8) & 0xff == 0 && (w << 16) & 0xff == 0 && (w << 24) & 0xff == 0
            && (w << 8) >> 8 == w && (w << 16) >> 8 == w << 8 && (w << 24) >> 8 == w << 16
  {}

  ghost function Step32(x: bv32): bv32 { Step8(Step8(Step8(Step8(x)))) }

  lemma Step32Injective(a: bv32, b: bv32)
    requires Step32(a) == Step32(b)
    ensures a == b
  {
    var a1, b1 := Step8(a), Step8(b);
    var a2, b2 := Step8(a1), Step8(b1);
    var a3, b3 := Step8(a2), Step8(b2);
    Step8Injective(a3, b3); Step8Injective(a2, b2); Step8Injective(a1, b1); Step8Injective(a, b);
  }

  ghost function Update4(crc: bv32, b0: bv8, b1: bv8, b2: bv8, b3: bv8): bv32 {
    Update(Update(Update(Update(crc, b0), b1), b2), b3)
  }

  // Four bytes come down to 32 steps on the state with all of them added at once.
  lemma FourBytes(crc: bv32, b0: bv8, b1: bv8, b2: bv8, b3: bv8)
    ensures Update4(crc, b0, b1, b2, b3) == Step32(Plus(crc, Window(Word(b0), Word(b1), Word(b2), Word(b3))))
  {
    var w0 := Word(b0);
    var p, p1, p2, p3 := ByteRises(b1);
    var q, q1, q2, q3 := ByteRises(b2);
    var r, r1, r2, r3 := ByteRises(b3);
    var x0 := Plus(crc, w0);
    var x1 := Plus(x0, p1);
    var x2 := Plus(x1, q2);
    AddEarlier(x0, p1, p);
    AddEarlier(Step8(x1), q1, q); AddEarlier(x1, q2, q1);
    AddEarlier(Step8(Step8(x2)), r1, r); AddEarlier(Step8(x2), r2, r1); AddEarlier(x2, r3, r2);
    PlusAssoc(crc, w0, p1); PlusAssoc(crc, Plus(w0, p1), q2); PlusAssoc(crc, Plus(Plus(w0, p1), q2), r3);
  }

  lemma Unpack(w0: bv32, w1: bv32, w2: bv32, w3: bv32, u1: bv32, u2: bv32, u3: bv32, p: bv32)
    requires w0 < 256 && w1 < 256 && w2 < 256 && w3 < 256 && u1 == w1 << 8 && u2 == w2 << 16 && u3 == w3 << 24
    requires p == w0 ^ u1 ^ u2 ^ u3
    ensures w0 == p & 0xff && w1 == (p >> 8) & 0xff && w2 == (p >> 16) & 0xff && w3 == (p >> 24) & 0xff
  {}

  lemma WordInjective(a: bv8, b: bv8)
    requires Word(a) == Word(b)
    ensures a == b
  {}

  lemma WindowIsPacked(w0: bv32, w1: bv32, w2: bv32, w3: bv32, u1: bv32, u2: bv32, u3: bv32)
    requires u1 == w1 << 8 && u2 == w2 << 16 && u3 == w3 << 24
    ensures Window(w0, w1, w2, w3) == w0 ^ u1 ^ u2 ^ u3
  {
    SumOfFour(w0, u1, u2, u3);
  }

  lemma SumOfFour(w0: bv32, w1: bv32, w2: bv32, w3: bv32)
    ensures Plus(Plus(Plus(w0, w1), w2), w3) == w0 ^ w1 ^ w2 ^ w3
  {
    var u := Plus(w0, w1);
    var v := Plus(u, w2);
    assert u == w0 ^ w1 by { PlusIsXor(w0, w1); }
    assert v == u ^ w2 by { PlusIsXor(u, w2); }
    PlusIsXor(v, w3);
  }

  // The four bytes can be read off their window.
  lemma WindowUnpacks(w0: bv32, w1: bv32, w2: bv32, w3: bv32, p: bv32)
    requires w0 < 256 && w1 < 256 && w2 < 256 && w3 < 256 && p == Window(w0, w1, w2, w3)
    ensures w0 == p & 0xff && w1 == (p >> 8) & 0xff && w2 == (p >> 16) & 0xff && w3 == (p >> 24) & 0xff
  {
    var u1, u2, u3 := w1 << 8, w2 << 16, w3 << 24;
    WindowIsPacked(w0, w1, w2, w3, u1, u2, u3);
    Unpack(w0, w1, w2, w3, u1, u2, u3, p);
  }

  lemma WindowInjective(a0: bv32, a1: bv32, a2: bv32, a3: bv32, b0: bv32, b1: bv32, b2: bv32, b3: bv32)
    requires a0 < 256 && a1 < 256 && a2 < 256 && a3 < 256 && b0 < 256 && b1 < 256 && b2 < 256 && b3 < 256
    requires Window(a0, a1, a2, a3) == Window(b0, b1, b2, b3)
    ensures a0 == b0 && a1 == b1 && a2 == b2 && a3 == b3
  {
    var p := Window(a0, a1, a2, a3);
    WindowUnpacks(a0, a1, a2, a3, p); WindowUnpacks(b0, b1, b2, b3, p);
  }

  lemma FourBytesInjective(crc: bv32, a: seq<bv8>, b: seq<bv8>)
    requires |a| == |b| == 4
    requires Update4(crc, a[0], a[1], a[2], a[3]) == Update4(crc, b[0], b[1], b[2], b[3])
    ensures a == b
  {
    FourBytes(crc, a[0], a[1], a[2], a[3]); FourBytes(crc, b[0], b[1], b[2], b[3]);
    var v, w := Window(Word(a[0]), Word(a[1]), Word(a[2]), Word(a[3])),
      Window(Word(b[0]), Word(b[1]), Word(b[2]), Word(b[3]));
    Step32Injective(Plus(crc, v), Plus(crc, w));
    PlusCommutes(crc, v); PlusCommutes(crc, w); PlusInjective(v, w, crc);
    ByteIsSmall(a[0]); ByteIsSmall(a[1]); ByteIsSmall(a[2]); ByteIsSmall(a[3]);
    ByteIsSmall(b[0]); ByteIsSmall(b[1]); ByteIsSmall(b[2]); ByteIsSmall(b[3]);
    WindowInjective(Word(a[0]), Word(a[1]), Word(a[2]), Word(a[3]), Word(b[0]), Word(b[1]), Word(b[2]), Word(b[3]));
    WordInjective(a[0], b[0]); WordInjective(a[1], b[1]); WordInjective(a[2], b[2]); WordInjective(a[3], b[3]);
  }

  lemma StateOfFour(crc: bv32, a: seq<bv8>)
    requires |a| == 4
    ensures State(crc, a) == Update4(crc, a[0], a[1], a[2], a[3])
  {
    StatePrefix(crc, a, 0); StatePrefix(crc, a, 1); StatePrefix(crc, a, 2); StatePrefix(crc, a, 3);
    assert a[..4] == a && a[..0] == [];
  }

  // Two different strings of up to four bytes take a state to different states.
  lemma ShortInjective(crc: bv32, a: seq<bv8>, b: seq<bv8>)
    requires |a| == |b| <= 4 && State(crc, a) == State(crc, b)
    ensures a == b
  {
    var zeros := seq(4 - |a|, i => 0 as bv8);
    StateAppend(crc, a, zeros); StateAppend(crc, b, zeros);
    StateOfFour(crc, a + zeros); StateOfFour(crc, b + zeros);
    FourBytesInjective(crc, a + zeros, b + zeros);
    assert a == (a + zeros)[..|a|] && b == (b + zeros)[..|b|];
  }

  // Messages that differ, but only inside a window of four consecutive bytes, have different checksums.
  lemma BurstDetected(m: seq<bv8>, m': seq<bv8>, at: nat)
    requires |m| == |m'| && at <= |m| && m != m'
    requires forall i :: 0 <= i < |m| && !(at <= i < at + 4) ==> m[i] == m'[i]
    ensures Checksum(m) != Checksum(m')
  {
    var end := if at + 4 <= |m| then at + 4 else |m|;
    var p, a, b, q := m[..at], m[at..end], m'[at..end], m[end..];
    assert m == p + a + q && m' == p + b + q;
    if Checksum(m) == Checksum(m') {
      PlusInjective(State(ALL_ONES, m), State(ALL_ONES, m'), ALL_ONES);
      StateAppend(ALL_ONES, p + a, q); StateAppend(ALL_ONES, p + b, q);
      StateInjective(State(ALL_ONES, p + a), State(ALL_ONES, p + b), q);
      StateAppend(ALL_ONES, p, a); StateAppend(ALL_ONES, p, b);
      ShortInjective(State(ALL_ONES, p), a, b);
    }
  }
}
