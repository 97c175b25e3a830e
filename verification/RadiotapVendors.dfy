/** Vendor namespaces in a radiotap header. */
module RadiotapVendors {
  import opened Options
  import opened RadiotapLayout
  import opened RadiotapSingleWord

  // ------------------------------------------------------------------ the field that names a namespace

  // The vendor field at off names this namespace: an OUI, the most significant byte first, and a sub-namespace.
  ghost predicate Names(h: seq<Octet>, off: nat, v: VendorNamespace)
    requires off + 6 <= |h|
  {
    v.oui == 0x1_0000 * (h[off] as int) + 0x100 * (h[off + 1] as int) + h[off + 2] as int && v.subns == h[off + 3]
  }

  // At a vendor bit, with the position of the vendor field
  ghost predicate AtVendor(c: Header, s: Walk, off: nat) {
    && WellFormed(c) && Inside(c, s) && s.bit == VENDOR_NAMESPACE && Bit(Word(c, s.word), s.bit)
    && s.arg.Some? && off % 2 == 0 && s.arg.value <= off < s.arg.value + 2
  }

  lemma EvenIsAligned(c: Header, s: Walk, off: nat)
    requires AtVendor(c, s, off)
    ensures AlignUp(s.arg.value, 2) == off
  {
    AlignUpIsLeast(s.arg.value, 2);
  }

  // A namespace that no registered one matches is one field of six bytes and the data they announce.
  lemma UnregisteredVendor(c: Header, s: Walk, off: nat)
    requires AtVendor(c, s, off) && off + 6 <= c.len
    requires forall k :: 0 <= k < |c.vns| ==> !Names(c.h, off, c.vns[k])
    ensures var end := off + 6 + (c.h[off + 4] as int) + 0x100 * (c.h[off + 5] as int);
            if end > c.len then Step(c, s) == Stop(Invalid)
            else
              && Step(c, s).Found? && Step(c, s).field == Field(VENDOR_NAMESPACE, off, end - off)
              && Step(c, s).next == Walk(s.word, s.bit + 1, s.index + 1, Some(end), Unregistered, Some(end), true)
  {
    EvenIsAligned(c, s, off);
  }

  // The first registered one that matches is entered behind the six bytes, and is known to end behind its data.
  lemma RegisteredVendor(c: Header, s: Walk, off: nat, k: nat)
    requires AtVendor(c, s, off) && off + 6 <= c.len
    requires k < |c.vns| && Names(c.h, off, c.vns[k]) && forall j :: 0 <= j < k ==> !Names(c.h, off, c.vns[j])
    ensures var end := off + 6 + (c.h[off + 4] as int) + 0x100 * (c.h[off + 5] as int);
            Step(c, s) == Continue(Walk(s.word, s.bit + 1, s.index + 1, Some(off + 6), Vendor(k), Some(end), true))
  {
    EvenIsAligned(c, s, off);
    var ns := VendorAt(c, off);
    assert Names(c.h, off, c.vns[k]) && (ns.Vendor? ==> Names(c.h, off, c.vns[ns.k]));
  }

  // A header without room for the six bytes is refused.
  lemma CutVendor(c: Header, s: Walk, off: nat)
    requires AtVendor(c, s, off) && off + 6 > c.len
    ensures Step(c, s) == Stop(Invalid)
  {
    EvenIsAligned(c, s, off);
  }

  // ------------------------------------------------------------------ the data of a namespace

  // Where the namespace bits of this word are met
  function AtEnd(s: Walk, arg: Option<nat>, ns: Namespace): Walk
    requires s.bit <= RADIOTAP_NAMESPACE
  {
    s.(bit := RADIOTAP_NAMESPACE, index := s.index + (RADIOTAP_NAMESPACE - s.bit), arg := arg, ns := ns)
  }

  // Once skipping, no field of the word is found.
  lemma {:induction false} SkipOn(c: Header, s: Walk)
    requires WellFormed(c) && Inside(c, s) && s.ns == Unregistered && s.arg == s.nextNs && s.bit <= RADIOTAP_NAMESPACE
    ensures Leads(c, s, [], AtEnd(s, s.arg, Unregistered))
    decreases RADIOTAP_NAMESPACE - s.bit
  {
    if s.bit < RADIOTAP_NAMESPACE {
      StepAdvances(c, s);
      assert Step(c, s) == Continue(Advance(s));
      SkipOn(c, Advance(s));
      assert AtEnd(Advance(s), s.arg, Unregistered) == AtEnd(s, s.arg, Unregistered);
    } else {
      WalkNowhere(c, s);
    }
  }

  // A field that a registered namespace does not define ends what can be read of its data: the rest of the word is
  // skipped, and the walk goes on where the namespace was announced to end.
  lemma UnknownVendorField(c: Header, s: Walk, k: nat, end: nat)
    requires WellFormed(c) && Inside(c, s) && s.bit < RADIOTAP_NAMESPACE && Bit(Word(c, s.word), s.bit)
    requires s.ns == Vendor(k) && k < |c.vns| && s.nextNs == Some(end)
    requires s.index >= |c.vns[k].fields| || c.vns[k].fields[s.index].align == 0
    ensures Leads(c, s, [], AtEnd(s, Some(end), Unregistered))
  {
    StepAdvances(c, s);
    var t := Advance(s).(arg := Some(end), ns := Unregistered);
    assert Step(c, s) == Continue(t);
    SkipOn(c, t);
    assert AtEnd(t, Some(end), Unregistered) == AtEnd(s, Some(end), Unregistered);
  }

  // A field it defines is aligned behind the one before.
  lemma KnownVendorField(c: Header, s: Walk, k: nat, off: nat)
    requires WellFormed(c) && Inside(c, s) && s.bit < RADIOTAP_NAMESPACE && Bit(Word(c, s.word), s.bit)
    requires s.ns == Vendor(k) && k < |c.vns| && s.arg.Some? && s.index < |c.vns[k].fields|
    requires var f := c.vns[k].fields[s.index];
             f.align > 0 && off % f.align == 0 && s.arg.value <= off < s.arg.value + f.align
    ensures var f := c.vns[k].fields[s.index];
            if off + f.size > c.len then Step(c, s) == Stop(Invalid)
            else Step(c, s) == Found(Field(s.index, off, f.size), Advance(s).(arg := Some(off + f.size)))
  {
    var f := c.vns[k].fields[s.index];
    AlignUpIsLeast(s.arg.value, f.align);
    SameMultiple(AlignUp(s.arg.value, f.align), off, s.arg.value, f.align);
  }

  // ------------------------------------------------------------------ leaving a namespace

  // Bit 29 goes back to the radiotap namespace at the position reached, whatever was announced before.
  lemma RadiotapAgain(c: Header, s: Walk, at: nat)
    requires WellFormed(c) && Inside(c, s) && s.bit == RADIOTAP_NAMESPACE && Bit(Word(c, s.word), s.bit)
    requires s.arg == Some(at)
    ensures Step(c, s) == if at > c.len then Stop(Invalid)
            else Continue(Walk(s.word, 30, s.index + 1, Some(at), Radiotap, s.nextNs, true))
  {}

  // Bit 31 goes on to the next word at the position reached; the fields there are numbered from 0 if a namespace began
  // in this word, and on from those of this word otherwise.
  lemma NextPresentWord(c: Header, s: Walk, at: nat)
    requires WellFormed(c) && Inside(c, s) && s.bit == EXT && Bit(Word(c, s.word), s.bit) && s.arg == Some(at)
    ensures s.word + 1 < |c.present|
    ensures Step(c, s) == if at > c.len then Stop(Invalid)
            else Continue(Walk(s.word + 1, 0, if s.reset then 0 else s.index + 1, Some(at), s.ns, s.nextNs, false))
  {
    NextWordInside(c, s);
  }

  // There is one multiple of a among a numbers in a row.
  lemma SameMultiple(x: nat, y: nat, from: nat, a: nat)
    requires a > 0 && x % a == 0 && y % a == 0 && from <= x < from + a && from <= y < from + a
    ensures x == y
  {
    var d := x / a - y / a;
    assert d * a == x - y;
    assert d >= 1 ==> d * a >= a;
    assert d <= -1 ==> d * a + a <= 0;
  }
}
