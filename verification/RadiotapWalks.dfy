/** What holds of every walk over a radiotap header. */
module RadiotapWalks {
  import opened Options
  import opened RadiotapLayout

  // ------------------------------------------------------------------ bounds

  // Positions known to the walk lie behind the present words.
  ghost predicate Behind(c: Header, s: Walk) {
    (s.arg.Some? ==> DataStart(c) <= s.arg.value) && (s.nextNs.Some? ==> DataStart(c) <= s.nextNs.value)
  }

  ghost predicate InBounds(c: Header, fs: seq<Field>) {
    forall i :: 0 <= i < |fs| ==> DataStart(c) <= fs[i].offset && fs[i].offset + fs[i].size <= c.len
  }

  ghost predicate ResultInBounds(c: Header, r: Result) {
    (!r.Stop? ==> Behind(c, r.next)) && (r.Found? ==> InBounds(c, [r.field]))
  }

  lemma FieldInBounds(c: Header, s: Walk, align: nat, size: nat)
    requires Behind(c, s) && align > 0
    ensures ResultInBounds(c, TakeField(c, s, align, size))
  {}

  lemma VendorInBounds(c: Header, s: Walk)
    requires WellFormed(c) && Behind(c, s)
    ensures ResultInBounds(c, SwitchToVendor(c, s))
  {}

  lemma StepInBounds(c: Header, s: Walk)
    requires WellFormed(c) && Inside(c, s) && Behind(c, s)
    ensures ResultInBounds(c, Step(c, s))
  {
    VendorInBounds(c, s);
    var e := Lookup(c.vns, s.ns, s.index);
    if e.Entry? { FieldInBounds(c, s, e.align, e.size); }
  }

  // Every field returned lies behind the present words and inside the header.
  lemma {:induction false} RestInBounds(c: Header, s: Walk)
    requires WellFormed(c) && Inside(c, s) && Behind(c, s)
    ensures InBounds(c, Rest(c, s).fields) && |Rest(c, s).fields| <= BitsLeft(c, s)
    decreases BitsLeft(c, s)
  {
    StepInBounds(c, s); StepAdvances(c, s);
    var r := Step(c, s);
    if !r.Stop? { RestInBounds(c, r.next); } else { BitsRemain(c, s); }
  }

  lemma BitsRemain(c: Header, s: Walk)
    requires Inside(c, s)
    ensures 0 < BitsLeft(c, s)
  {}

  // ------------------------------------------------------------------ the undefined field

  // After bit 18 the rest of the namespace is skipped; nothing in this word may then need a position.
  ghost predicate SafeWord(w: nat) {
    Bit(w, XCHANNEL) ==> !Bit(w, RADIOTAP_NAMESPACE) && !Bit(w, VENDOR_NAMESPACE) && !Bit(w, EXT)
  }

  ghost predicate SafeWords(c: Header) { forall k :: 0 <= k < |c.present| ==> SafeWord(Word(c, k)) }

  // Past bit 18 of a word in which no namespace bit and no extension follows
  ghost predicate Skipping(c: Header, s: Walk) {
    s.ns == Unregistered && XCHANNEL < s.bit && Bit(Word(c, s.word), XCHANNEL) && SafeWord(Word(c, s.word))
  }

  // Positions are known unless the rest of the header is being skipped.
  ghost predicate Positioned(c: Header, s: Walk) {
    Skipping(c, s) || (s.arg.Some? && (s.ns != Radiotap ==> s.nextNs.Some?))
  }

  lemma HoleIsXChannel(c: Header, s: Walk)
    requires Inside(c, s) && s.ns == Radiotap && Lookup(c.vns, s.ns, s.index).Hole?
    ensures s.bit == XCHANNEL
  {
    RadiotapAlignments(s.index);
  }

  lemma StepPositioned(c: Header, s: Walk)
    requires WellFormed(c) && SafeWords(c) && Inside(c, s) && Positioned(c, s)
    ensures var r := Step(c, s);
            if r.Stop? then r.outcome != Undefined else Positioned(c, r.next)
  {
    assert SafeWord(Word(c, s.word));
    if s.ns == Radiotap && Lookup(c.vns, s.ns, s.index).Hole? { HoleIsXChannel(c, s); }
  }

  // No position is used that was never set.
  lemma {:induction false} SafeWordsAreDefined(c: Header, s: Walk)
    requires WellFormed(c) && SafeWords(c) && Inside(c, s) && Positioned(c, s)
    ensures Rest(c, s).end != Undefined
    decreases BitsLeft(c, s)
  {
    StepPositioned(c, s); StepAdvances(c, s);
    if !Step(c, s).Stop? { SafeWordsAreDefined(c, Step(c, s).next); }
  }

  // ------------------------------------------------------------------ order

  // Fields lie one behind the other from a position on.
  ghost predicate Ordered(fs: seq<Field>, from: nat) {
    && (forall i :: 0 <= i < |fs| ==> from <= fs[i].offset)
    && (forall i, j :: 0 <= i < j < |fs| ==> fs[i].offset + fs[i].size <= fs[j].offset)
  }

  // Without registered vendor namespaces, the namespace being skipped ends where the next field would start.
  ghost predicate Forward(c: Header, s: Walk) {
    !s.ns.Vendor? && (s.ns == Unregistered && !Skipping(c, s) ==> s.arg == s.nextNs)
  }

  // The position does not move back, and a field found lies between the old and the new one.
  ghost predicate Moves(c: Header, s: Walk, r: Result) {
    && (!r.Stop? ==> Forward(c, r.next))
    && (!r.Stop? && !Skipping(c, r.next) ==> s.arg.Some? && r.next.arg.Some? && s.arg.value <= r.next.arg.value)
    && (r.Found? ==> s.arg.Some? && s.arg.value <= r.field.offset && r.next.arg == Some(r.field.offset + r.field.size))
  }

  lemma FieldMoves(c: Header, s: Walk, align: nat, size: nat)
    requires s.ns == Radiotap && align > 0
    ensures Moves(c, s, TakeField(c, s, align, size))
  {}

  lemma VendorMoves(c: Header, s: Walk)
    requires WellFormed(c) && c.vns == []
    ensures Moves(c, s, SwitchToVendor(c, s))
  {}

  lemma StepMoves(c: Header, s: Walk)
    requires WellFormed(c) && SafeWords(c) && c.vns == [] && Inside(c, s) && Forward(c, s)
    requires !Skipping(c, s) && s.arg.Some?
    ensures Moves(c, s, Step(c, s))
  {
    assert SafeWord(Word(c, s.word));
    if !Bit(Word(c, s.word), s.bit) {
    } else if s.bit == VENDOR_NAMESPACE {
      VendorMoves(c, s);
    } else if s.bit != RADIOTAP_NAMESPACE && s.bit != EXT && s.ns == Radiotap {
      var e := Lookup(c.vns, s.ns, s.index);
      if e.Hole? { HoleIsXChannel(c, s); } else if e.Entry? { FieldMoves(c, s, e.align, e.size); }
    }
  }

  lemma {:induction false} SkippingFindsNothing(c: Header, s: Walk)
    requires WellFormed(c) && Inside(c, s) && Skipping(c, s)
    ensures Rest(c, s).fields == []
    decreases BitsLeft(c, s)
  {
    StepAdvances(c, s);
    if !Step(c, s).Stop? { SkippingFindsNothing(c, Step(c, s).next); }
  }

  lemma OrderedCons(f: Field, fs: seq<Field>, from: nat)
    requires from <= f.offset && Ordered(fs, f.offset + f.size)
    ensures Ordered([f] + fs, from)
  {}

  lemma OrderedFromEarlier(fs: seq<Field>, from: nat, earlier: nat)
    requires Ordered(fs, from) && earlier <= from
    ensures Ordered(fs, earlier)
  {}

  // The fields do not overlap and come in the order of their positions.
  lemma {:induction false} FieldsAreOrdered(c: Header, s: Walk)
    requires WellFormed(c) && SafeWords(c) && c.vns == [] && Inside(c, s) && Forward(c, s) && !Skipping(c, s)
             && s.arg.Some?
    ensures Ordered(Rest(c, s).fields, s.arg.value)
    decreases BitsLeft(c, s)
  {
    StepMoves(c, s); StepAdvances(c, s);
    match Step(c, s)
    case Stop(_) =>
    case Continue(s') =>
      if Skipping(c, s') { SkippingFindsNothing(c, s'); } else {
        FieldsAreOrdered(c, s');
        OrderedFromEarlier(Rest(c, s').fields, s'.arg.value, s.arg.value);
      }
    case Found(f, s') =>
      if Skipping(c, s') { SkippingFindsNothing(c, s'); } else { FieldsAreOrdered(c, s'); }
      OrderedCons(f, Rest(c, s').fields, s.arg.value);
  }

  // ------------------------------------------------------------------ every header

  // What a caller may rely on, from the first call on
  lemma EveryHeader(c: Header)
    requires WellFormed(c)
    ensures InBounds(c, LayoutOf(c).fields) && |LayoutOf(c).fields| <= 32 * |c.present|
    ensures SafeWords(c) ==> LayoutOf(c).end != Undefined
    ensures SafeWords(c) && c.vns == [] ==> Ordered(LayoutOf(c).fields, DataStart(c))
  {
    RestInBounds(c, Start(c));
    if SafeWords(c) {
      SafeWordsAreDefined(c, Start(c));
      if c.vns == [] { FieldsAreOrdered(c, Start(c)); }
    }
  }
}
