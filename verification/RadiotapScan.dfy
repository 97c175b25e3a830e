/** The layout of a header without vendor namespaces, told from its present words. */
module RadiotapScan {
  import opened RadiotapLayout
  import opened RadiotapSingleWord
  import opened RadiotapUnset

  ghost predicate NoVendors(c: Header) { forall k :: 0 <= k < |c.present| ==> !Bit(c.present[k], VENDOR_NAMESPACE) }

  ghost function Prepended(fs: seq<Field>, l: Layout): Layout { Layout(fs + l.fields, l.end) }

  // What follows the fields of word k, which end at position p: the next word, if there is one
  ghost function AfterWord(c: Header, k: nat, p: nat): Layout
    decreases |c.present| - k, 0
  {
    var w := Word(c, k);
    if Bit(w, RADIOTAP_NAMESPACE) && p > c.len then Layout([], Invalid)
    else if Bit(w, EXT) && p > c.len then Layout([], Invalid)
    else if Bit(w, EXT) && k + 1 < |c.present| then WordsFrom(c, k + 1, p, Bit(w, RADIOTAP_NAMESPACE))
    else Layout([], NoEntry)
  }

  // The fields of the words from k on, of which the first begins at position start. A word whose fields are not
  // numbered from 0 has no known field; bit 18 hides all that follows, and then the position of the next namespace was
  // never set.
  ghost function WordsFrom(c: Header, k: nat, start: nat, fromZero: bool): Layout
    decreases |c.present| - k, 1
  {
    var w := Word(c, k);
    var m := KnownBits(w);
    var o := FirstOverflow(w, start, c.len, 0, m);
    if !fromZero then (if NonePresent(w, 0) then AfterWord(c, k, start) else Layout([], NoEntry))
    else if o < m then Layout(FieldsBelow(w, start, o), Invalid)
    else if Bit(w, XCHANNEL) then Layout(FieldsBelow(w, start, m), if NeedsPosition(w) then Undefined else NoEntry)
    else if !NonePresent(w, m) then Layout(FieldsBelow(w, start, m), NoEntry)
    else Prepended(FieldsBelow(w, start, m), AfterWord(c, k, PositionAfter(w, start, m)))
  }

  // ------------------------------------------------------------------ the parts of a walk

  lemma NamespaceBitsEnd(c: Header, s: Walk)
    requires WellFormed(c) && NoVendors(c) && Plain(c, s) && s.bit == RADIOTAP_NAMESPACE && !s.reset
    ensures var w, p := Word(c, s.word), s.arg.value;
            if (Bit(w, RADIOTAP_NAMESPACE) || Bit(w, EXT)) && p > c.len then Rest(c, s) == Layout([], Invalid)
            else if Bit(w, EXT) then Inside(c, NextStart(c, s)) && Rest(c, s) == Rest(c, NextStart(c, s))
            else Rest(c, s) == Layout([], NoEntry)
  {
    var b := Bit(Word(c, s.word), RADIOTAP_NAMESPACE);
    var v := Advance(s).(reset := b);
    RadiotapBit(c, s);
    VendorBit(c, v);
    ExtensionBit(c, Advance(v));
    assert NextWord(Advance(v)) == NextStart(c, s);
  }

  // ------------------------------------------------------------------ one word, and all words

  // Where a word begins
  ghost predicate AtStart(c: Header, s: Walk) {
    Plain(c, s) && s.bit == 0 && !s.reset && (s.index == 0 || s.index >= 32)
  }

  lemma ExtendedHasNext(c: Header, k: nat)
    requires WellFormed(c) && k < |c.present| && Bit(Word(c, k), EXT)
    ensures k + 1 < |c.present|
  {}

  // What the walk finds in the next word is what the scan finds there.
  ghost predicate NextAgrees(c: Header, t: Walk)
    requires WellFormed(c)
  {
    AtStart(c, t) ==> Rest(c, t) == WordsFrom(c, t.word, t.arg.value, t.index == 0)
  }

  lemma NextStarts(c: Header, s: Walk)
    requires WellFormed(c) && Plain(c, s) && s.bit == RADIOTAP_NAMESPACE && s.index >= 29 && Bit(Word(c, s.word), EXT)
    ensures AtStart(c, NextStart(c, s)) && s.word + 1 < |c.present|
  {
    ExtendedHasNext(c, s.word);
  }

  // What follows the known fields of a word, given what follows the word
  lemma NamespaceIsAfterWord(c: Header, s: Walk)
    requires WellFormed(c) && NoVendors(c) && Plain(c, s) && !s.reset && s.bit == RADIOTAP_NAMESPACE && s.index >= 29
    requires NextAgrees(c, NextStart(c, s))
    ensures Rest(c, s) == AfterWord(c, s.word, s.arg.value)
  {
    NamespaceBitsEnd(c, s);
    if Bit(Word(c, s.word), EXT) { NextStarts(c, s); }
  }

  lemma TailIsAfterWord(c: Header, s: Walk)
    requires WellFormed(c) && NoVendors(c) && Plain(c, s) && !s.reset && s.index >= |RADIOTAP_FIELDS|
    requires s.bit <= RADIOTAP_NAMESPACE && NonePresent(Word(c, s.word), s.bit)
    requires NextAgrees(c, NextStart(c, AtNamespaceBits(s)))
    ensures Rest(c, s) == AfterWord(c, s.word, s.arg.value)
  {
    UnknownBitsEnd(c, s);
    NamespaceIsAfterWord(c, AtNamespaceBits(s));
  }

  // The known fields of a word whose fields are numbered from 0
  lemma KnownFields(c: Header, s: Walk)
    requires WellFormed(c) && AtStart(c, s) && s.index == 0
    ensures var w, start, k := Word(c, s.word), s.arg.value, s.word;
            var m := KnownBits(w);
            var o := FirstOverflow(w, start, c.len, 0, m);
            Inside(c, AtBit(c, k, start, m)) &&
            Rest(c, s) ==
            if o < m then Layout(FieldsBelow(w, start, o), Invalid)
            else Prepended(FieldsBelow(w, start, m), Rest(c, AtBit(c, k, start, m)))
  {
    var w, start, k := Word(c, s.word), s.arg.value, s.word;
    var m := KnownBits(w);
    var o := FirstOverflow(w, start, c.len, 0, m);
    assert s == AtBit(c, k, start, 0);
    AtBitInside(c, k, start, m);
    WalkUpTo(c, k, start, o);
    if o < m { OneField(c, k, start, o); OverflowAtFirst(w, start, c.len, 0, m); }
  }

  lemma Bit18Ends(c: Header, k: nat, start: nat)
    requires WellFormed(c) && k < |c.present| && Bit(Word(c, k), XCHANNEL)
    ensures var x := AtBit(c, k, start, XCHANNEL);
            Inside(c, x) && Rest(c, x) == Layout([], if NeedsPosition(Word(c, k)) then Undefined else NoEntry)
  {
    var x := AtBit(c, k, start, XCHANNEL);
    AtBitInside(c, k, start, XCHANNEL);
    StepAdvances(c, x);
    assert RADIOTAP_FIELDS[XCHANNEL].align == 0;
    LostFindsNothing(c, Step(c, x).next);
  }

  // The walk finds the fields of one word after the other.
  lemma {:induction false} WalkIsScan(c: Header, s: Walk)
    requires WellFormed(c) && NoVendors(c) && AtStart(c, s)
    ensures Rest(c, s) == WordsFrom(c, s.word, s.arg.value, s.index == 0)
    decreases |c.present| - s.word
  {
    var w, k, start := Word(c, s.word), s.word, s.arg.value;
    var m := KnownBits(w);
    var t := s;
    if s.index == 0 {
      KnownFields(c, s);
      t := AtBit(c, k, start, m);
    }
    if s.index == 0 && Bit(w, XCHANNEL) {
      Bit18Ends(c, k, start);
    } else {
      UnknownBitsEnd(c, t);
      var u := NextStart(c, AtNamespaceBits(t));
      if NonePresent(w, t.bit) {
        if AtStart(c, u) { WalkIsScan(c, u); }
        TailIsAfterWord(c, t);
      }
    }
  }

  // Without vendor namespaces, the layout of a header is that of its present words, one after the other.
  lemma LayoutIsScan(c: Header)
    requires WellFormed(c) && NoVendors(c)
    ensures LayoutOf(c) == WordsFrom(c, 0, DataStart(c), true)
  {
    WalkIsScan(c, Start(c));
  }
}
