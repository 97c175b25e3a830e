/** Exactly when the iterator uses the start of a next namespace that was never set. */
module RadiotapUnset {
  import opened Arithmetic
  import opened Options
  import opened RadiotapLayout
  import opened RadiotapWalks
  import opened RadiotapSingleWord

  // ------------------------------------------------------------------ the condition, told from the present words

  // All present fields below bit m end inside the header.
  ghost predicate Fits(w: nat, start: nat, len: nat, m: nat)
    requires m <= |RADIOTAP_FIELDS|
  {
    forall b :: 0 <= b < m && Bit(w, b) ==> PositionAfter(w, start, b + 1) <= len
  }

  // No bit from b up to the namespace bits is set.
  ghost predicate NonePresent(w: nat, b: nat) { forall i :: b <= i < RADIOTAP_NAMESPACE ==> !Bit(w, i) }

  ghost predicate NeedsPosition(w: nat) { Bit(w, RADIOTAP_NAMESPACE) || Bit(w, VENDOR_NAMESPACE) || Bit(w, EXT) }

  // A scan of the present words from word k on, as long as no vendor namespace begins. Where fields are numbered from
  // 0, bit 18 may not be set together with a namespace bit or an extension; other words lead to the next one if they
  // are extended and have no field that is unknown or does not fit.
  ghost predicate MeetsBit18(c: Header, k: nat, start: nat, fromZero: bool)
    decreases |c.present| - k
  {
    k < |c.present| &&
    var w := Word(c, k);
    var n := |RADIOTAP_FIELDS|;
    if fromZero && Bit(w, XCHANNEL) then Fits(w, start, c.len, XCHANNEL) && NeedsPosition(w)
    else
      var end := if fromZero then PositionAfter(w, start, n) else start;
      && NonePresent(w, if fromZero then n else 0) && (fromZero ==> Fits(w, start, c.len, n))
      && !Bit(w, VENDOR_NAMESPACE) && Bit(w, EXT) && MeetsBit18(c, k + 1, end, Bit(w, RADIOTAP_NAMESPACE))
  }

  ghost predicate UsesUnset(c: Header) { MeetsBit18(c, 0, DataStart(c), true) }

  lemma {:induction false} FitsIffNoOverflow(w: nat, start: nat, len: nat, b: nat, m: nat)
    requires b <= m <= |RADIOTAP_FIELDS|
    ensures FirstOverflow(w, start, len, b, m) == m <==>
              forall i :: b <= i < m && Bit(w, i) ==> PositionAfter(w, start, i + 1) <= len
    decreases m - b
  {
    if b < m { FitsIffNoOverflow(w, start, len, b + 1, m); }
  }

  lemma {:induction false} FittingEndsInside(w: nat, start: nat, len: nat, m: nat)
    requires m <= |RADIOTAP_FIELDS| && start <= len && Fits(w, start, len, m)
    ensures PositionAfter(w, start, m) <= len
  {
    if m > 0 { FittingEndsInside(w, start, len, m - 1); }
  }

  // ------------------------------------------------------------------ the parts of a walk

  // Once the start of a next namespace is set, it is never lost again.
  lemma {:induction false} SetStaysSet(c: Header, s: Walk)
    requires WellFormed(c) && Inside(c, s) && s.arg.Some? && s.nextNs.Some?
    ensures Rest(c, s).end != Undefined
    decreases BitsLeft(c, s)
  {
    StepAdvances(c, s);
    if !Step(c, s).Stop? { SetStaysSet(c, Step(c, s).next); }
  }

  lemma VendorSets(c: Header, s: Walk)
    requires WellFormed(c) && Inside(c, s) && s.arg.Some? && s.bit == VENDOR_NAMESPACE && Bit(Word(c, s.word), s.bit)
    ensures Rest(c, s).end != Undefined
  {
    StepAdvances(c, s);
    if !Step(c, s).Stop? { SetStaysSet(c, Step(c, s).next); }
  }

  ghost predicate BitsFrom(w: nat, b: nat) {
    || (b <= RADIOTAP_NAMESPACE && Bit(w, RADIOTAP_NAMESPACE)) || (b <= VENDOR_NAMESPACE && Bit(w, VENDOR_NAMESPACE))
    || Bit(w, EXT)
  }

  // Behind bit 18 with nothing set, nothing is found, and the next namespace bit or extension uses a position that was
  // never set.
  lemma {:induction false} LostFindsNothing(c: Header, s: Walk)
    requires WellFormed(c) && Inside(c, s) && s.ns == Unregistered && s.arg == None && s.nextNs == None
    ensures Rest(c, s) == Layout([], if BitsFrom(Word(c, s.word), s.bit) then Undefined else NoEntry)
    decreases BitsLeft(c, s)
  {
    StepAdvances(c, s);
    if !Step(c, s).Stop? { LostFindsNothing(c, Step(c, s).next); }
  }

  // In the radiotap namespace with no vendor namespace before
  ghost predicate Plain(c: Header, s: Walk) {
    Inside(c, s) && s.ns == Radiotap && s.nextNs == None && s.arg.Some?
  }

  function AtNamespaceBits(s: Walk): Walk
    requires s.bit <= RADIOTAP_NAMESPACE
  {
    s.(bit := RADIOTAP_NAMESPACE, index := s.index + (RADIOTAP_NAMESPACE - s.bit))
  }

  lemma UnknownBit(c: Header, s: Walk)
    requires WellFormed(c) && Plain(c, s) && s.index >= |RADIOTAP_FIELDS| && s.bit < RADIOTAP_NAMESPACE
    ensures Plain(c, Advance(s))
    ensures Rest(c, s) == if Bit(Word(c, s.word), s.bit) then Layout([], NoEntry) else Rest(c, Advance(s))
  {
    StepAdvances(c, s);
  }

  // Beyond the table a present field ends the walk.
  lemma {:induction false} UnknownBitsEnd(c: Header, s: Walk)
    requires WellFormed(c) && Plain(c, s) && s.index >= |RADIOTAP_FIELDS| && s.bit <= RADIOTAP_NAMESPACE
    ensures Plain(c, AtNamespaceBits(s))
    ensures Rest(c, s) == if NonePresent(Word(c, s.word), s.bit) then Rest(c, AtNamespaceBits(s))
            else Layout([], NoEntry)
    decreases RADIOTAP_NAMESPACE - s.bit
  {
    if s.bit < RADIOTAP_NAMESPACE {
      UnknownBit(c, s);
      if !Bit(Word(c, s.word), s.bit) {
        NonePresentNext(Word(c, s.word), s.bit);
        AtNamespaceBitsNext(s);
        UnknownBitsEnd(c, Advance(s));
      }
    }
  }

  lemma AtNamespaceBitsNext(s: Walk)
    requires s.bit < RADIOTAP_NAMESPACE
    ensures AtNamespaceBits(Advance(s)) == AtNamespaceBits(s)
  {}

  lemma NonePresentNext(w: nat, b: nat)
    requires b < RADIOTAP_NAMESPACE && !Bit(w, b)
    ensures NonePresent(w, b) <==> NonePresent(w, b + 1)
  {}

  // The start of the next word
  function NextStart(c: Header, s: Walk): Walk {
    var index := if Bit(Word(c, s.word), RADIOTAP_NAMESPACE) then 0 else s.index + 3;
    Walk(s.word + 1, 0, index, s.arg, Radiotap, None, false)
  }

  // An extension leads to the next word.
  lemma ExtensionBit(c: Header, s: Walk)
    requires WellFormed(c) && Inside(c, s) && s.bit == EXT && s.arg.Some?
    ensures Bit(Word(c, s.word), EXT) ==> Inside(c, NextWord(s))
    ensures Rest(c, s) ==
            if !Bit(Word(c, s.word), EXT) then Layout([], NoEntry)
            else if s.arg.value > c.len then Layout([], Invalid)
            else Rest(c, NextWord(s))
  {
    StepAdvances(c, s);
    if Bit(Word(c, s.word), EXT) { NextWordInside(c, s); }
  }

  lemma VendorBit(c: Header, s: Walk)
    requires WellFormed(c) && Inside(c, s) && s.bit == VENDOR_NAMESPACE && s.arg.Some?
    ensures if Bit(Word(c, s.word), VENDOR_NAMESPACE) then Rest(c, s).end != Undefined
            else Inside(c, Advance(s)) && Rest(c, s) == Rest(c, Advance(s))
  {
    StepAdvances(c, s);
    if Bit(Word(c, s.word), VENDOR_NAMESPACE) { VendorSets(c, s); }
  }

  lemma RadiotapBit(c: Header, s: Walk)
    requires WellFormed(c) && Plain(c, s) && s.bit == RADIOTAP_NAMESPACE && !s.reset
    ensures var b := Bit(Word(c, s.word), RADIOTAP_NAMESPACE);
            var v := Advance(s).(reset := b);
            Inside(c, v) && Rest(c, s) == if b && s.arg.value > c.len then Layout([], Invalid) else Rest(c, v)
  {
    StepAdvances(c, s);
  }

  // The last bits of a word lead to the next word, unless a vendor namespace begins or the word is the last.
  lemma NamespaceBits(c: Header, s: Walk)
    requires WellFormed(c) && Plain(c, s) && s.bit == RADIOTAP_NAMESPACE && !s.reset
    requires Bit(Word(c, s.word), EXT) ==> s.arg.value <= c.len
    ensures var w := Word(c, s.word);
            if !Bit(w, VENDOR_NAMESPACE) && Bit(w, EXT)
            then Inside(c, NextStart(c, s)) && Rest(c, s).end == Rest(c, NextStart(c, s)).end
            else Rest(c, s).end != Undefined
  {
    var b := Bit(Word(c, s.word), RADIOTAP_NAMESPACE);
    var v := Advance(s).(reset := b);
    RadiotapBit(c, s);
    if !b || s.arg.value <= c.len {
      VendorBit(c, v);
      if !Bit(Word(c, s.word), VENDOR_NAMESPACE) {
        ExtensionBit(c, Advance(v));
        assert NextWord(Advance(v)) == NextStart(c, s);
      }
    }
  }

  // ------------------------------------------------------------------ one word, and all words

  // Where a word begins that no vendor namespace precedes
  ghost predicate AtWord(c: Header, s: Walk) {
    Plain(c, s) && s.bit == 0 && !s.reset && (s.index == 0 || s.index >= 32)
      && (|c.present| > 1 ==> s.arg.value <= c.len)
  }

  lemma ExtendedFits(c: Header, k: nat)
    requires WellFormed(c) && k < |c.present| && Bit(Word(c, k), EXT)
    ensures k + 1 < |c.present|
  {}

  // A word with bit 18
  lemma WithBit18(c: Header, s: Walk)
    requires WellFormed(c) && AtWord(c, s) && s.index == 0 && Bit(Word(c, s.word), XCHANNEL)
    ensures Rest(c, s).end == Undefined <==>
              Fits(Word(c, s.word), s.arg.value, c.len, XCHANNEL) && NeedsPosition(Word(c, s.word))
  {
    var w, k, start := Word(c, s.word), s.word, s.arg.value;
    var o := FirstOverflow(w, start, c.len, 0, XCHANNEL);
    FitsIffNoOverflow(w, start, c.len, 0, XCHANNEL);
    WalkUpTo(c, k, start, o);
    assert s == AtBit(c, k, start, 0);
    if o == XCHANNEL {
      var x := AtBit(c, k, start, XCHANNEL);
      StepAdvances(c, x);
      assert RADIOTAP_FIELDS[XCHANNEL].align == 0;
      LostFindsNothing(c, Step(c, x).next);
    } else {
      OneField(c, k, start, o); OverflowAtFirst(w, start, c.len, 0, XCHANNEL);
    }
  }

  // The fields of a word numbered from 0 that has no bit 18
  lemma WithoutBit18(c: Header, s: Walk)
    requires WellFormed(c) && AtWord(c, s) && s.index == 0 && !Bit(Word(c, s.word), XCHANNEL)
    ensures var t := AtBit(c, s.word, s.arg.value, |RADIOTAP_FIELDS|);
            && Plain(c, t)
            && if Fits(Word(c, s.word), s.arg.value, c.len, |RADIOTAP_FIELDS|) then Rest(c, s).end == Rest(c, t).end
               else Rest(c, s).end == Invalid
  {
    var w, k, start, m := Word(c, s.word), s.word, s.arg.value, |RADIOTAP_FIELDS|;
    var o := FirstOverflow(w, start, c.len, 0, m);
    FitsIffNoOverflow(w, start, c.len, 0, m);
    WalkUpTo(c, k, start, o);
    assert s == AtBit(c, k, start, 0);
    AtBitInside(c, k, start, m);
    if o < m { OneField(c, k, start, o); OverflowAtFirst(w, start, c.len, 0, m); }
  }

  // From the first bit that no known field has
  lemma {:induction false} UnknownBits(c: Header, s: Walk)
    requires WellFormed(c) && Plain(c, s) && !s.reset && s.index >= |RADIOTAP_FIELDS| && s.bit <= RADIOTAP_NAMESPACE
    requires |c.present| > 1 ==> s.arg.value <= c.len
    ensures var w := Word(c, s.word); var t := NextStart(c, AtNamespaceBits(s));
            if NonePresent(w, s.bit) && !Bit(w, VENDOR_NAMESPACE) && Bit(w, EXT)
            then AtWord(c, t) && Rest(c, s).end == Rest(c, t).end
            else Rest(c, s).end != Undefined
  {
    UnknownBitsEnd(c, s);
    if Bit(Word(c, s.word), EXT) { ExtendedFits(c, s.word); }
    if NonePresent(Word(c, s.word), s.bit) { NamespaceBits(c, AtNamespaceBits(s)); }
  }

  lemma {:induction false} WordsMeetBit18(c: Header, s: Walk)
    requires WellFormed(c) && AtWord(c, s)
    ensures Rest(c, s).end == Undefined <==> MeetsBit18(c, s.word, s.arg.value, s.index == 0)
    decreases |c.present| - s.word
  {
    var w := Word(c, s.word);
    if s.index == 0 && Bit(w, XCHANNEL) {
      WithBit18(c, s);
    } else {
      var t := s;
      if s.index == 0 {
        WithoutBit18(c, s);
        t := AtBit(c, s.word, s.arg.value, |RADIOTAP_FIELDS|);
      }
      if s.index == 0 ==> Fits(w, s.arg.value, c.len, |RADIOTAP_FIELDS|) {
        if s.index == 0 && |c.present| > 1 { FittingEndsInside(w, s.arg.value, c.len, |RADIOTAP_FIELDS|); }
        UnknownBits(c, t);
        var u := NextStart(c, AtNamespaceBits(t));
        if AtWord(c, u) { WordsMeetBit18(c, u); }
      }
    }
  }

  // A position that was never set is used if and only if the scan of the present words says so.
  lemma UndefinedIff(c: Header)
    requires WellFormed(c)
    ensures LayoutOf(c).end == Undefined <==> UsesUnset(c)
  {
    WordsMeetBit18(c, Start(c));
  }

  // ------------------------------------------------------------------ an example

  // 0x2004_0000 is 2^18 + 2^29.
  const BITS_18_AND_29: nat := 0x2004_0000

  // An example: eight bytes that announce bit 18 and a return to the radiotap namespace
  lemma UndefinedExample(c: Header)
    requires c == Header([0, 0, 8, 0, 0, 0, 4, 0x20], 8, [BITS_18_AND_29], [])
    ensures WellFormed(c) && LayoutOf(c).end == Undefined
  {
    ExampleBits();
    assert WordAt(c.h, 0) == BITS_18_AND_29;
    assert WellFormed(c) && Word(c, 0) == BITS_18_AND_29;
    assert Fits(BITS_18_AND_29, DataStart(c), c.len, XCHANNEL) && NeedsPosition(BITS_18_AND_29);
    UndefinedIff(c);
  }

  // A multiple of 2^n shifted right by up to n places
  lemma {:induction false} ShiftedMultiple(q: nat, n: nat, b: nat)
    requires b <= n
    ensures Shifted(q * Power(2, n), b) == q * Power(2, n - b)
  {
    if b > 0 {
      ShiftedMultiple(q, n, b - 1); ShiftedNext(q * Power(2, n), b - 1);
      DoubledFactor(q, Power(2, n - b));
    }
  }

  lemma DoubledFactor(q: nat, p: nat)
    ensures q * (2 * p) == 2 * (q * p) && q * (2 * p) / 2 == q * p
  {}

  lemma ExampleBits()
    ensures Bit(BITS_18_AND_29, XCHANNEL) && Bit(BITS_18_AND_29, RADIOTAP_NAMESPACE) && !Bit(BITS_18_AND_29, EXT)
    ensures forall b :: 0 <= b < XCHANNEL ==> !Bit(BITS_18_AND_29, b)
  {
    assert Power(2, 4) == 16; assert Power(2, 8) == 256; assert Power(2, 12) == 4096; assert Power(2, 16) == 65536;
    assert Power(2, 18) == 0x4_0000;
    forall b | 0 <= b <= XCHANNEL
      ensures Shifted(BITS_18_AND_29, b) == 0x801 * Power(2, XCHANNEL - b)
    {
      ShiftedMultiple(0x801, XCHANNEL, b);
    }
    forall b | 0 <= b < XCHANNEL ensures !Bit(BITS_18_AND_29, b) {
      assert Power(2, XCHANNEL - b) == 2 * Power(2, XCHANNEL - b - 1);
    }
    var n := XCHANNEL;
    assert Shifted(BITS_18_AND_29, n) == 0x801;
    TopBits(BITS_18_AND_29, n);
  }

  lemma TopBits(w: nat, n: nat)
    requires Shifted(w, n) == 0x801
    ensures Shifted(w, n + 11) == 1 && Shifted(w, n + 13) == 0
  {
    ShiftedNext(w, n); ShiftedNext(w, n + 1); ShiftedNext(w, n + 2); ShiftedNext(w, n + 3); ShiftedNext(w, n + 4);
    ShiftedNext(w, n + 5); ShiftedNext(w, n + 6); ShiftedNext(w, n + 7); ShiftedNext(w, n + 8); ShiftedNext(w, n + 9);
    ShiftedNext(w, n + 10); ShiftedNext(w, n + 11); ShiftedNext(w, n + 12);
  }
}
