/** How the fields of one present word are walked, and headers with one present word and the radiotap namespace only. */
module RadiotapSingleWord {
  import opened Options
  import opened RadiotapLayout
  import opened RadiotapWalks

  // The position behind the present fields below bit b, each aligned and then passed over
  function PositionAfter(w: nat, start: nat, b: nat): (p: nat)
    requires b <= |RADIOTAP_FIELDS|
    ensures start <= p
  {
    if b == 0 then start
    else if Bit(w, b - 1) && RADIOTAP_FIELDS[b - 1].align > 0
    then AlignUp(PositionAfter(w, start, b - 1), RADIOTAP_FIELDS[b - 1].align) + RADIOTAP_FIELDS[b - 1].size
    else PositionAfter(w, start, b - 1)
  }

  function FieldsBelow(w: nat, start: nat, b: nat): seq<Field>
    requires b <= |RADIOTAP_FIELDS|
  {
    if b == 0 then []
    else if Bit(w, b - 1) && RADIOTAP_FIELDS[b - 1].align > 0
    then FieldsBelow(w, start, b - 1) +
         [Field(b - 1, AlignUp(PositionAfter(w, start, b - 1), RADIOTAP_FIELDS[b - 1].align),
                RADIOTAP_FIELDS[b - 1].size)]
    else FieldsBelow(w, start, b - 1)
  }

  // The first bit from b on whose field reaches beyond len, or m
  function FirstOverflow(w: nat, start: nat, len: nat, b: nat, m: nat): (r: nat)
    requires b <= m <= |RADIOTAP_FIELDS|
    ensures b <= r <= m
    decreases m - b
  {
    if b == m then m
    else if Bit(w, b) && PositionAfter(w, start, b + 1) > len then b
    else FirstOverflow(w, start, len, b + 1, m)
  }

  // The fields the iterator knows end at bit 18 or at bit 22.
  function KnownBits(w: nat): (m: nat)
    ensures m <= |RADIOTAP_FIELDS|
  {
    if Bit(w, XCHANNEL) then XCHANNEL else |RADIOTAP_FIELDS|
  }

  // In word k, whose fields are numbered from 0 and begin at start, before bit b
  function AtBit(c: Header, k: nat, start: nat, b: nat): Walk
    requires b <= |RADIOTAP_FIELDS|
  {
    Walk(k, b, b, Some(PositionAfter(Word(c, k), start, b)), Radiotap, None, false)
  }

  lemma OneField(c: Header, k: nat, start: nat, b: nat)
    requires WellFormed(c) && k < |c.present| && b < KnownBits(Word(c, k))
    ensures var w, f := Word(c, k), RADIOTAP_FIELDS[b];
            Step(c, AtBit(c, k, start, b)) ==
              if !Bit(w, b) then Continue(AtBit(c, k, start, b + 1))
              else if PositionAfter(w, start, b + 1) > c.len then Stop(Invalid)
              else Found(Field(b, AlignUp(PositionAfter(w, start, b), f.align), f.size), AtBit(c, k, start, b + 1))
  {
    RadiotapAlignments(b);
    assert b != XCHANNEL || !Bit(Word(c, k), b);
  }

  lemma AtBitInside(c: Header, k: nat, start: nat, b: nat)
    requires WellFormed(c) && k < |c.present| && b <= |RADIOTAP_FIELDS|
    ensures Inside(c, AtBit(c, k, start, b))
  {}

  // The walk finds these fields between two places.
  ghost predicate Leads(c: Header, s: Walk, fs: seq<Field>, t: Walk)
    requires WellFormed(c)
  {
    Inside(c, s) && Inside(c, t) && Rest(c, s) == Layout(fs + Rest(c, t).fields, Rest(c, t).end)
  }

  lemma LeadsOn(c: Header, s: Walk, fs: seq<Field>, t: Walk, gs: seq<Field>, u: Walk)
    requires WellFormed(c) && Leads(c, s, fs, t) && Leads(c, t, gs, u)
    ensures Leads(c, s, fs + gs, u)
  {
    assert fs + gs + Rest(c, u).fields == fs + (gs + Rest(c, u).fields);
  }

  ghost function FieldAt(w: nat, start: nat, b: nat): seq<Field>
    requires b < |RADIOTAP_FIELDS|
  {
    var f := RADIOTAP_FIELDS[b];
    if Bit(w, b) && f.align > 0 then [Field(b, AlignUp(PositionAfter(w, start, b), f.align), f.size)] else []
  }

  // The walk through a word past a field that fits or is not present
  lemma WalkOne(c: Header, k: nat, start: nat, b: nat)
    requires WellFormed(c) && k < |c.present| && b < KnownBits(Word(c, k))
    requires Bit(Word(c, k), b) ==> PositionAfter(Word(c, k), start, b + 1) <= c.len
    ensures Leads(c, AtBit(c, k, start, b), FieldAt(Word(c, k), start, b), AtBit(c, k, start, b + 1))
  {
    AtBitInside(c, k, start, b); AtBitInside(c, k, start, b + 1);
    RadiotapAlignments(b);
    assert b != XCHANNEL || !Bit(Word(c, k), b);
    OneField(c, k, start, b);
  }

  lemma FieldsNext(w: nat, start: nat, b: nat)
    requires b < |RADIOTAP_FIELDS|
    ensures FieldsBelow(w, start, b + 1) == FieldsBelow(w, start, b) + FieldAt(w, start, b)
  {}

  lemma WalkNowhere(c: Header, s: Walk)
    requires WellFormed(c) && Inside(c, s)
    ensures Leads(c, s, [], s)
  {}

  // The walk through a word up to the first field that does not fit
  lemma {:induction false} WalkUpTo(c: Header, k: nat, start: nat, b: nat)
    requires WellFormed(c) && k < |c.present|
    requires b <= FirstOverflow(Word(c, k), start, c.len, 0, KnownBits(Word(c, k)))
    ensures Leads(c, AtBit(c, k, start, 0), FieldsBelow(Word(c, k), start, b), AtBit(c, k, start, b))
  {
    if b == 0 {
      AtBitInside(c, k, start, 0);
      WalkNowhere(c, AtBit(c, k, start, 0));
    } else {
      var w := Word(c, k);
      WalkUpTo(c, k, start, b - 1);
      NoOverflowBefore(w, start, c.len, 0, b - 1, KnownBits(w));
      WalkOne(c, k, start, b - 1);
      FieldsNext(w, start, b - 1);
      LeadsOn(c, AtBit(c, k, start, 0), FieldsBelow(w, start, b - 1), AtBit(c, k, start, b - 1),
              FieldAt(w, start, b - 1), AtBit(c, k, start, b));
    }
  }

  lemma {:induction false} NoOverflowBefore(w: nat, start: nat, len: nat, from: nat, b: nat, m: nat)
    requires from <= b < m <= |RADIOTAP_FIELDS| && b < FirstOverflow(w, start, len, from, m)
    ensures Bit(w, b) ==> PositionAfter(w, start, b + 1) <= len
    decreases b - from
  {
    if from < b { NoOverflowBefore(w, start, len, from + 1, b, m); }
  }

  lemma {:induction false} OverflowAtFirst(w: nat, start: nat, len: nat, from: nat, m: nat)
    requires from <= m <= |RADIOTAP_FIELDS| && FirstOverflow(w, start, len, from, m) < m
    ensures var k := FirstOverflow(w, start, len, from, m); Bit(w, k) && PositionAfter(w, start, k + 1) > len
    decreases m - from
  {
    if !(Bit(w, from) && PositionAfter(w, start, from + 1) > len) {
      OverflowAtFirst(w, start, len, from + 1, m);
      assert FirstOverflow(w, start, len, from, m) == FirstOverflow(w, start, len, from + 1, m);
    }
  }

  // ------------------------------------------------------------------ one present word

  ghost predicate OneWord(c: Header) { WellFormed(c) && |c.present| == 1 }

  // Beyond the table, the walk ends without another field.
  lemma {:induction false} NothingBeyond(c: Header, s: Walk)
    requires OneWord(c) && Inside(c, s) && s.ns == Radiotap && s.index == s.bit >= |RADIOTAP_FIELDS|
    requires !Bit(Word(c, 0), RADIOTAP_NAMESPACE) && !Bit(Word(c, 0), VENDOR_NAMESPACE)
    ensures Rest(c, s) == Layout([], NoEntry)
    decreases BitsLeft(c, s)
  {
    StepAdvances(c, s);
    assert s.word == 0 && !Bit(Word(c, 0), EXT);
    if !Step(c, s).Stop? { NothingBeyond(c, Step(c, s).next); }
  }

  lemma {:induction false} SkippingEnds(c: Header, s: Walk)
    requires WellFormed(c) && Inside(c, s) && Skipping(c, s)
    ensures Rest(c, s) == Layout([], NoEntry)
    decreases BitsLeft(c, s)
  {
    StepAdvances(c, s);
    if !Step(c, s).Stop? { SkippingEnds(c, Step(c, s).next); }
  }

  lemma TailEnds(c: Header)
    requires OneWord(c) && !Bit(Word(c, 0), RADIOTAP_NAMESPACE) && !Bit(Word(c, 0), VENDOR_NAMESPACE)
    ensures var s := AtBit(c, 0, DataStart(c), KnownBits(Word(c, 0))); Inside(c, s) && Rest(c, s) == Layout([], NoEntry)
  {
    var s := AtBit(c, 0, DataStart(c), KnownBits(Word(c, 0)));
    AtBitInside(c, 0, DataStart(c), KnownBits(Word(c, 0)));
    assert !Bit(Word(c, 0), EXT);
    if Bit(Word(c, 0), XCHANNEL) {
      StepAdvances(c, s);
      assert RADIOTAP_FIELDS[XCHANNEL].align == 0;
      SkippingEnds(c, Step(c, s).next);
    } else {
      NothingBeyond(c, s);
    }
  }

  // What follows the fields that fit
  lemma AfterFields(c: Header, k: nat)
    requires OneWord(c) && !Bit(Word(c, 0), RADIOTAP_NAMESPACE) && !Bit(Word(c, 0), VENDOR_NAMESPACE)
    requires k == FirstOverflow(Word(c, 0), DataStart(c), c.len, 0, KnownBits(Word(c, 0)))
    ensures Inside(c, AtBit(c, 0, DataStart(c), k))
    ensures Rest(c, AtBit(c, 0, DataStart(c), k)) == Layout([], if k == KnownBits(Word(c, 0)) then NoEntry else Invalid)
  {
    AtBitInside(c, 0, DataStart(c), k);
    if k == KnownBits(Word(c, 0)) {
      TailEnds(c);
    } else {
      OneField(c, 0, DataStart(c), k);
      OverflowAtFirst(Word(c, 0), DataStart(c), c.len, 0, KnownBits(Word(c, 0)));
    }
  }

  // The walk finds the fields one after the other, each aligned behind the one before, up to the first that does not
  // fit; bit 18 hides the fields after it.
  lemma SingleWordLayout(c: Header)
    requires OneWord(c) && !Bit(Word(c, 0), RADIOTAP_NAMESPACE) && !Bit(Word(c, 0), VENDOR_NAMESPACE)
    ensures var w := Word(c, 0);
            var k := FirstOverflow(w, DataStart(c), c.len, 0, KnownBits(w));
            LayoutOf(c) == Layout(FieldsBelow(w, DataStart(c), k), if k == KnownBits(w) then NoEntry else Invalid)
  {
    var k := FirstOverflow(Word(c, 0), DataStart(c), c.len, 0, KnownBits(Word(c, 0)));
    WalkUpTo(c, 0, DataStart(c), k);
    AfterFields(c, k);
  }

  // ------------------------------------------------------------------ where the standard fields lie

  // Positions of the fields 0 to 17 behind one present word, and the end of the last
  const POSITIONS := [8, 16, 17, 18, 22, 24, 25, 26, 28, 30, 32, 33, 34, 35, 36, 38, 40, 41, 42]

  lemma NextPosition(b: nat)
    requires b < XCHANNEL
    ensures var f := RADIOTAP_FIELDS[b];
            f.align > 0 && AlignUp(POSITIONS[b], f.align) == POSITIONS[b] && POSITIONS[b] + f.size == POSITIONS[b + 1]
  {}

  // With the bits 0 to 17 set, the fields lie side by side without padding.
  lemma {:induction false} AllFields(w: nat, n: nat)
    requires n <= XCHANNEL && forall b :: 0 <= b < n ==> Bit(w, b)
    ensures PositionAfter(w, 8, n) == POSITIONS[n] && |FieldsBelow(w, 8, n)| == n
    ensures forall i :: 0 <= i < n ==>
      FieldsBelow(w, 8, n)[i] == Field(i, POSITIONS[i], POSITIONS[i + 1] - POSITIONS[i])
  {
    if n > 0 {
      AllFields(w, n - 1);
      NextPosition(n - 1);
    }
  }

  lemma {:induction false} NoFields(w: nat, n: nat)
    requires n <= |RADIOTAP_FIELDS| && forall b :: 0 <= b < n ==> !Bit(w, b)
    ensures PositionAfter(w, 8, n) == 8 && FieldsBelow(w, 8, n) == []
  {
    if n > 0 { NoFields(w, n - 1); }
  }

  // With the bits 19 to 21 set and no lower ones, one byte of padding precedes the aggregate status.
  lemma LateFields(w: nat)
    requires (forall b :: 0 <= b <= XCHANNEL ==> !Bit(w, b)) && Bit(w, 19) && Bit(w, 20) && Bit(w, 21)
    ensures FieldsBelow(w, 8, 22) == [Field(19, 8, 3), Field(20, 12, 8), Field(21, 20, 12)]
  {
    NoFields(w, 19);
    FieldsNext(w, 8, 19); FieldsNext(w, 8, 20); FieldsNext(w, 8, 21);
    assert PositionAfter(w, 8, 20) == 11 && PositionAfter(w, 8, 21) == 20;
  }
}
