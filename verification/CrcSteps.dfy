/** The steps of the reflected division by the polynomial of IEEE 802.3. */
module CrcSteps {

  // x^32 + x^26 + x^23 + x^22 + x^16 + x^12 + x^11 + x^10 + x^8 + x^7 + x^5 + x^4 + x^2 + x + 1, lowest bit first
  const POLYNOMIAL: bv32 := 0xEDB8_8320

  function Xor(a: bv32, b: bv32): bv32 { a ^ b }

  // Shift right, and subtract the polynomial if a one falls out.
  function Shift(x: bv32): bv32 { Half(x) ^ Feedback(x) }

  function Half(x: bv32): bv32 { x >> 1 }

  function Feedback(x: bv32): bv32 { if x & 1 == 1 then POLYNOMIAL else 0 }

  // The operations as the rest of the proofs see them
  datatype Ops = Ops(plus: (bv32, bv32) -> bv32, step: bv32 -> bv32, down: bv32 -> bv32, back: bv32 -> bv32)

  ghost predicate Sealed(o: Ops) {
    && (forall a, b {:trigger Xor(a, b)} :: o.plus(a, b) == Xor(a, b))
    && (forall a {:trigger Shift(a)} :: o.step(a) == Shift(a))
    && (forall a {:trigger Half(a)} :: o.down(a) == Half(a))
    && (forall a {:trigger Feedback(a)} :: o.back(a) == Feedback(a))
  }

  lemma SealedExists()
    ensures exists o :: Sealed(o)
  {
    var o := Ops((a, b) => Xor(a, b), a => Shift(a), a => Half(a), a => Feedback(a));
    assert Sealed(o);
  }

  ghost function Machine(): (o: Ops)
    ensures Sealed(o)
  {
    SealedExists();
    var o :| Sealed(o); o
  }

  ghost function Plus(a: bv32, b: bv32): bv32 { Machine().plus(a, b) }

  ghost function Step(x: bv32): bv32 { Machine().step(x) }

  ghost function Down(x: bv32): bv32 { Machine().down(x) }

  ghost function Back(x: bv32): bv32 { Machine().back(x) }

  lemma PlusIsXor(a: bv32, b: bv32)
    ensures Plus(a, b) == a ^ b
  {
    assert Xor(a, b) == a ^ b;
  }

  lemma StepIsShift(x: bv32)
    ensures Step(x) == Shift(x)
  {}

  lemma DownIsHalf(x: bv32)
    ensures Down(x) == x >> 1
  {
    assert Half(x) == x >> 1;
  }

  lemma BackIsFeedback(x: bv32)
    ensures Back(x) == Feedback(x)
  {}

  lemma StepParts(x: bv32)
    ensures Step(x) == Plus(Down(x), Back(x))
  {
    var s, h, f := Step(x), Down(x), Back(x);
    assert s == h ^ f by { StepIsShift(x); DownIsHalf(x); BackIsFeedback(x); ShiftIs(x, h, f); }
    PlusIsXor(h, f);
  }

  lemma ShiftIs(x: bv32, h: bv32, f: bv32)
    requires h == x >> 1 && f == Feedback(x)
    ensures Shift(x) == h ^ f
  {}

  lemma PlusCommutes(a: bv32, b: bv32)
    ensures Plus(a, b) == Plus(b, a)
  {
    PlusIsXor(a, b); PlusIsXor(b, a);
  }

  lemma PlusAssoc(a: bv32, b: bv32, c: bv32)
    ensures Plus(Plus(a, b), c) == Plus(a, Plus(b, c))
  {
    PlusIsXor(a, b); PlusIsXor(a ^ b, c); PlusIsXor(b, c); PlusIsXor(a, b ^ c);
  }

  lemma PlusCancels(a: bv32, b: bv32)
    ensures Plus(Plus(a, b), b) == a && Plus(a, 0) == a
  {
    PlusIsXor(a, b); PlusIsXor(a ^ b, b); PlusIsXor(a, 0);
  }

  lemma PlusSwap(a: bv32, b: bv32, c: bv32, d: bv32)
    ensures Plus(Plus(a, b), Plus(c, d)) == Plus(Plus(a, c), Plus(b, d))
  {
    PlusAssoc(a, b, Plus(c, d)); PlusAssoc(b, c, d); PlusCommutes(b, c); PlusAssoc(c, b, d);
    PlusAssoc(a, c, Plus(b, d));
  }

  // ------------------------------------------------------------------ linearity

  lemma DownLinear(a: bv32, b: bv32)
    ensures Down(Plus(a, b)) == Plus(Down(a), Down(b))
  {
    PlusIsXor(a, b); DownIsHalf(a); DownIsHalf(b); DownIsHalf(a ^ b); PlusIsXor(a >> 1, b >> 1);
  }

  lemma XorLow(a: bv32, b: bv32)
    ensures (a ^ b) & 1 == (a & 1) ^ (b & 1) && (a & 1 == 0 || a & 1 == 1) && (b & 1 == 0 || b & 1 == 1)
  {}

  lemma FeedbackLinear(a: bv32, b: bv32)
    ensures Feedback(a ^ b) == Feedback(a) ^ Feedback(b)
  {
    XorLow(a, b);
    if a & 1 == 1 { if b & 1 == 1 {} else {} } else { if b & 1 == 1 {} else {} }
  }

  lemma BackLinear(a: bv32, b: bv32)
    ensures Back(Plus(a, b)) == Plus(Back(a), Back(b))
  {
    PlusIsXor(a, b); FeedbackLinear(a, b);
    BackIsFeedback(a); BackIsFeedback(b); BackIsFeedback(a ^ b); PlusIsXor(Back(a), Back(b));
  }

  lemma StepLinear(a: bv32, b: bv32)
    ensures Step(Plus(a, b)) == Plus(Step(a), Step(b))
  {
    StepParts(a); StepParts(b); StepParts(Plus(a, b)); DownLinear(a, b); BackLinear(a, b);
    PlusSwap(Down(a), Down(b), Back(a), Back(b));
  }

  // The polynomial's top bit shows which of the two cases a step was, so nothing is lost.
  lemma StepInjective(a: bv32, b: bv32)
    requires Step(a) == Step(b)
    ensures a == b
  {
    StepIsShift(a); StepIsShift(b);
  }

  ghost function EightSteps(x: bv32): bv32 { Step(Step(Step(Step(Step(Step(Step(Step(x)))))))) }

  lemma EightStepsLinear(a: bv32, b: bv32)
    ensures EightSteps(Plus(a, b)) == Plus(EightSteps(a), EightSteps(b))
  {
    var a1, b1 := Step(a), Step(b);
    var a2, b2 := Step(a1), Step(b1);
    var a3, b3 := Step(a2), Step(b2);
    var a4, b4 := Step(a3), Step(b3);
    var a5, b5 := Step(a4), Step(b4);
    var a6, b6 := Step(a5), Step(b5);
    var a7, b7 := Step(a6), Step(b6);
    StepLinear(a, b); StepLinear(a1, b1); StepLinear(a2, b2); StepLinear(a3, b3);
    StepLinear(a4, b4); StepLinear(a5, b5); StepLinear(a6, b6); StepLinear(a7, b7);
  }

  lemma EightStepsInjective(a: bv32, b: bv32)
    requires EightSteps(a) == EightSteps(b)
    ensures a == b
  {
    var a1, b1 := Step(a), Step(b);
    var a2, b2 := Step(a1), Step(b1);
    var a3, b3 := Step(a2), Step(b2);
    var a4, b4 := Step(a3), Step(b3);
    var a5, b5 := Step(a4), Step(b4);
    var a6, b6 := Step(a5), Step(b5);
    var a7, b7 := Step(a6), Step(b6);
    StepInjective(a7, b7); StepInjective(a6, b6); StepInjective(a5, b5); StepInjective(a4, b4);
    StepInjective(a3, b3); StepInjective(a2, b2); StepInjective(a1, b1); StepInjective(a, b);
  }

  // An even word only moves down.
  lemma StepEven(x: bv32)
    requires x & 1 == 0
    ensures Step(x) == x >> 1
  {
    StepIsShift(x);
  }

  // A word that is zero under a mask of low ones moves down, and is then zero under the next smaller mask.
  lemma StepZeros(x: bv32, mask: bv32, mask': bv32) returns (y: bv32)
    requires x & mask == 0 && mask & 1 == 1 && mask' == mask >> 1
    ensures y == x >> 1 == Step(x) && y & mask' == 0
  {
    y := x >> 1;
    MaskMoves(x, mask);
    StepEven(x);
  }

  lemma MaskMoves(x: bv32, mask: bv32)
    requires x & mask == 0 && mask & 1 == 1
    ensures x & 1 == 0 && (x >> 1) & (mask >> 1) == 0
  {}

  lemma EightShifts(x: bv32, x1: bv32, x2: bv32, x3: bv32, x4: bv32, x5: bv32, x6: bv32, x7: bv32, x8: bv32)
    requires x1 == x >> 1 && x2 == x1 >> 1 && x3 == x2 >> 1 && x4 == x3 >> 1
    requires x5 == x4 >> 1 && x6 == x5 >> 1 && x7 == x6 >> 1 && x8 == x7 >> 1
    ensures x8 == x >> 8
  {}

  lemma EightStepsShift(x: bv32)
    requires x & 0xff == 0
    ensures EightSteps(x) == x >> 8
  {
    var x1 := StepZeros(x, 0xff, 0x7f);
    var x2 := StepZeros(x1, 0x7f, 0x3f);
    var x3 := StepZeros(x2, 0x3f, 0x1f);
    var x4 := StepZeros(x3, 0x1f, 0xf);
    var x5 := StepZeros(x4, 0xf, 7);
    var x6 := StepZeros(x5, 7, 3);
    var x7 := StepZeros(x6, 3, 1);
    var x8 := StepZeros(x7, 1, 0);
    EightShifts(x, x1, x2, x3, x4, x5, x6, x7, x8);
  }

  // ------------------------------------------------------------------ eight steps as a whole

  ghost predicate IsEight(f: bv32 -> bv32) { forall x {:trigger EightSteps(x)} :: f(x) == EightSteps(x) }

  lemma EightExists()
    ensures exists f :: IsEight(f)
  {
    var f := x => EightSteps(x);
    assert IsEight(f);
  }

  ghost function EightMachine(): (f: bv32 -> bv32)
    ensures IsEight(f)
  {
    EightExists();
    var f :| IsEight(f); f
  }

  ghost function Step8(x: bv32): bv32 { EightMachine()(x) }

  lemma Step8Is(x: bv32)
    ensures Step8(x) == EightSteps(x)
  {}

  lemma Step8Linear(a: bv32, b: bv32)
    ensures Step8(Plus(a, b)) == Plus(Step8(a), Step8(b))
  {
    Step8Is(a); Step8Is(b); Step8Is(Plus(a, b)); EightStepsLinear(a, b);
  }

  lemma Step8Injective(a: bv32, b: bv32)
    requires Step8(a) == Step8(b)
    ensures a == b
  {
    Step8Is(a); Step8Is(b); EightStepsInjective(a, b);
  }

  // Bytes above the lowest only move down.
  lemma Step8Shifts(x: bv32)
    requires x & 0xff == 0
    ensures Step8(x) == x >> 8
  {
    Step8Is(x); EightStepsShift(x);
  }
}
