/** The layout of a radiotap header: which fields its present words announce, and where they lie. */
module RadiotapLayout {
  import opened Options

  type Octet = x: int | 0 <= x < 256

  // ------------------------------------------------------------------ words and bits

  function Le16(h: seq<Octet>, i: nat): (r: nat)
    requires i + 2 <= |h|
    ensures r < 0x1_0000
  {
    h[i] as int + 0x100 * (h[i + 1] as int)
  }

  function Le32(h: seq<Octet>, i: nat): (r: nat)
    requires i + 4 <= |h|
    ensures r < 0x1_0000_0000
  {
    h[i] as int + 0x100 * (h[i + 1] as int) + 0x1_0000 * (h[i + 2] as int) + 0x100_0000 * (h[i + 3] as int)
  }

  // Three bytes, the most significant first
  function Oui(h: seq<Octet>, i: nat): (r: nat)
    requires i + 3 <= |h|
    ensures r < 0x100_0000
  {
    0x1_0000 * (h[i] as int) + 0x100 * (h[i + 1] as int) + h[i + 2] as int
  }

  // A word shifted right by b places
  function Shifted(w: nat, b: nat): (r: nat)
    decreases w
  {
    if b == 0 || w == 0 then w else Shifted(w / 2, b - 1)
  }

  lemma {:induction false} ShiftedNext(w: nat, b: nat)
    ensures Shifted(w, b + 1) == Shifted(w, b) / 2
    decreases w
  {
    if b > 0 && w > 0 { ShiftedNext(w / 2, b - 1); }
  }

  function Bit(w: nat, b: nat): bool { Shifted(w, b) % 2 == 1 }

  // ------------------------------------------------------------------ namespaces

  // Alignment 0 marks a field that is not defined.
  datatype AlignSize = AlignSize(align: nat, size: nat)

  datatype VendorNamespace = VendorNamespace(oui: nat, subns: nat, fields: seq<AlignSize>)

  datatype Namespace = Radiotap | Unregistered | Vendor(k: nat)

  const RADIOTAP_FIELDS: seq<AlignSize> :=
    [ AlignSize(8, 8), AlignSize(1, 1), AlignSize(1, 1), AlignSize(2, 4), AlignSize(2, 2), AlignSize(1, 1),
     AlignSize(1, 1),
      AlignSize(2, 2), AlignSize(2, 2), AlignSize(2, 2), AlignSize(1, 1), AlignSize(1, 1), AlignSize(1, 1),
        AlignSize(1, 1),
      AlignSize(2, 2), AlignSize(2, 2), AlignSize(1, 1), AlignSize(1, 1), AlignSize(0, 0), AlignSize(1, 3),
        AlignSize(4, 8),
      AlignSize(2, 12) ]

  const XCHANNEL := 18
  const RADIOTAP_NAMESPACE := 29
  const VENDOR_NAMESPACE := 30
  const EXT := 31

  ghost predicate Alignment(a: nat) { a == 0 || a == 1 || a == 2 || a == 4 || a == 8 }

  ghost predicate VendorTables(vns: seq<VendorNamespace>) {
    forall k, i :: 0 <= k < |vns| && 0 <= i < |vns[k].fields| ==> Alignment(vns[k].fields[i].align)
  }

  lemma RadiotapAlignments(i: nat)
    requires i < |RADIOTAP_FIELDS|
    ensures Alignment(RADIOTAP_FIELDS[i].align) && (RADIOTAP_FIELDS[i].align == 0 <==> i == XCHANNEL)
  {}

  // The lowest multiple of a from x on
  function AlignUp(x: nat, a: nat): (r: nat)
    requires a > 0
    ensures x <= r
  {
    var pad := Remainder(x, a);
    if pad != 0 then x + (a - pad) else x
  }

  function Remainder(x: nat, a: nat): (r: nat)
    requires a > 0
    ensures r < a
  {
    x % a
  }

  lemma AlignUpIsLeast(x: nat, a: nat)
    requires a > 0 && Alignment(a)
    ensures AlignUp(x, a) % a == 0 && AlignUp(x, a) < x + a
  {
    if a == 1 {} else if a == 2 {} else if a == 4 {} else {}
  }

  // ------------------------------------------------------------------ the header as the iterator sees it

  // The captured bytes, the header length they declare, and the present words
  datatype Header = Header(h: seq<Octet>, len: nat, present: seq<nat>, vns: seq<VendorNamespace>)

  ghost predicate WellFormed(c: Header) {
    && c.len <= |c.h| && |c.present| >= 1 && 8 <= |c.h| && VendorTables(c.vns)
    && (|c.present| > 1 ==> 4 + 4 * |c.present| <= c.len)
    && (forall k :: 0 <= k < |c.present| - 1 ==> Bit(c.present[k], EXT)) && !Bit(c.present[|c.present| - 1], EXT)
    && (forall k {:trigger ReadAt(c, k)} :: 0 <= k < |c.present| ==> ReadAt(c, k))
  }

  // Present word k is what the bytes say.
  ghost predicate ReadAt(c: Header, k: nat) { k < |c.present| && c.present[k] == WordAt(c.h, k) }

  function WordAt(h: seq<Octet>, k: nat): (w: nat)
    ensures w < 0x1_0000_0000
  {
    if 8 + 4 * k <= |h| then Le32(h, 4 + 4 * k) else 0
  }

  function Word(c: Header, k: nat): nat { if k < |c.present| then c.present[k] else 0 }

  // Where the fields begin
  function DataStart(c: Header): nat { 4 + 4 * |c.present| }

  // The first registered vendor namespace with this OUI and sub-namespace
  function FindVendor(vns: seq<VendorNamespace>, oui: nat, subns: nat, from: nat): (ns: Namespace)
    requires from <= |vns|
    ensures ns.Vendor? ==> from <= ns.k < |vns| && vns[ns.k].oui == oui && vns[ns.k].subns == subns
                           && forall j :: from <= j < ns.k ==> !(vns[j].oui == oui && vns[j].subns == subns)
    ensures !ns.Vendor? ==>
              ns == Unregistered && forall j :: from <= j < |vns| ==> !(vns[j].oui == oui && vns[j].subns == subns)
    decreases |vns| - from
  {
    if from == |vns| then Unregistered
    else if vns[from].oui == oui && vns[from].subns == subns then Vendor(from)
    else FindVendor(vns, oui, subns, from + 1)
  }

  // What a namespace says of an index: the end of the known fields, a field that is not defined, or a field
  datatype Entry = BeyondTable | Hole | Entry(align: nat, size: nat)

  function Lookup(vns: seq<VendorNamespace>, ns: Namespace, index: nat): (e: Entry)
    ensures e.Entry? ==> e.align > 0
  {
    match ns
    case Radiotap => if index >= |RADIOTAP_FIELDS| then BeyondTable else EntryOf(RADIOTAP_FIELDS[index])
    case Unregistered => Hole
    case Vendor(k) => if k >= |vns| || index >= |vns[k].fields| then Hole else EntryOf(vns[k].fields[index])
  }

  function EntryOf(f: AlignSize): Entry { if f.align == 0 then Hole else Entry(f.align, f.size) }

  // ------------------------------------------------------------------ walking the bits

  // NoEntry is -ENOENT, Invalid is -EINVAL; Undefined is the use of a position that was never set.
  datatype Outcome = NoEntry | Invalid | Undefined

  datatype Field = Field(index: nat, offset: nat, size: nat)

  // A place in the present words, the index of the field there, and what is known of its position: arg is None once the
  // rest of the namespace is to be skipped and the start of the next one was never set.
  datatype Walk = Walk(word: nat, bit: nat, index: nat, arg: Option<nat>, ns: Namespace, nextNs: Option<nat>,
                       reset: bool)

  datatype Result = Stop(outcome: Outcome) | Continue(next: Walk) | Found(field: Field, next: Walk)

  function Start(c: Header): Walk { Walk(0, 0, 0, Some(DataStart(c)), Radiotap, None, false) }

  ghost predicate Inside(c: Header, s: Walk) {
    s.word < |c.present| && s.bit < 32 && s.index % 32 == s.bit && (s.ns.Vendor? ==> s.ns.k < |c.vns|)
  }

  function Advance(s: Walk): Walk { s.(bit := s.bit + 1, index := s.index + 1) }

  function NextWord(s: Walk): Walk {
    s.(word := s.word + 1, bit := 0, index := if s.reset then 0 else s.index + 1, reset := false)
  }

  function TakeField(c: Header, s: Walk, align: nat, size: nat): Result
    requires align > 0
  {
    if s.arg.None? then Stop(Undefined)
    else
      var off := AlignUp(s.arg.value, align);
      if off + size > c.len then Stop(Invalid)
      else Found(Field(s.index, off, size), Advance(s).(arg := Some(off + size)))
  }

  function SwitchToRadiotap(c: Header, s: Walk): Result {
    if s.arg.None? then Stop(Undefined)
    else if s.arg.value > c.len then Stop(Invalid)
    else Continue(Advance(s).(ns := Radiotap, reset := true))
  }

  // The namespace named by a vendor field, and the length of its data
  function VendorAt(c: Header, off: nat): Namespace
    requires off + 6 <= |c.h|
  {
    FindVendor(c.vns, Oui(c.h, off), c.h[off + 3], 0)
  }

  function SkipLength(c: Header, off: nat): nat
    requires off + 6 <= |c.h|
  {
    Le16(c.h, off + 4)
  }

  // An unregistered vendor namespace is one field, its data included; a registered one is walked.
  function SwitchToVendor(c: Header, s: Walk): Result
    requires c.len <= |c.h|
  {
    if s.arg.None? then Stop(Undefined)
    else
      var off := AlignUp(s.arg.value, 2);
      if off + 6 > c.len then Stop(Invalid)
      else
        var ns := VendorAt(c, off);
        var skip := SkipLength(c, off);
        var size := if ns == Unregistered then 6 + skip else 6;
        if off + size > c.len then Stop(Invalid)
        else
          var s' := Advance(s).(arg := Some(off + size), ns := ns, nextNs := Some(off + 6 + skip), reset := true);
          if ns == Unregistered then Found(Field(VENDOR_NAMESPACE, off, size), s') else Continue(s')
  }

  function Extend(c: Header, s: Walk): Result {
    if s.arg.None? then Stop(Undefined)
    else if s.arg.value > c.len then Stop(Invalid)
    else Continue(NextWord(s))
  }

  // One bit of the present words
  function Step(c: Header, s: Walk): (r: Result)
    requires c.len <= |c.h|
  {
    if !Bit(Word(c, s.word), s.bit) then (if s.bit == EXT then Stop(NoEntry) else Continue(Advance(s)))
    else if s.bit == RADIOTAP_NAMESPACE then SwitchToRadiotap(c, s)
    else if s.bit == VENDOR_NAMESPACE then SwitchToVendor(c, s)
    else if s.bit == EXT then Extend(c, s)
    else
      match Lookup(c.vns, s.ns, s.index)
      case BeyondTable => Stop(NoEntry)
      case Hole => Continue(Advance(s).(arg := s.nextNs, ns := Unregistered))
      case Entry(align, size) => TakeField(c, s, align, size)
  }

  // Present bits not yet seen
  function BitsLeft(c: Header, s: Walk): (n: int) { 32 * (|c.present| - s.word) - s.bit }

  lemma AdvanceInside(c: Header, s: Walk, s': Walk)
    requires Inside(c, s) && s.bit < 31 && s'.word == s.word && s'.bit == s.bit + 1 && s'.index == s.index + 1
    requires s'.ns.Vendor? ==> s'.ns.k < |c.vns|
    ensures Inside(c, s') && BitsLeft(c, s') == BitsLeft(c, s) - 1 >= 0
  {}

  lemma NextWordInside(c: Header, s: Walk)
    requires WellFormed(c) && Inside(c, s) && s.bit == EXT && Bit(Word(c, s.word), EXT)
    ensures Inside(c, NextWord(s)) && BitsLeft(c, NextWord(s)) == BitsLeft(c, s) - 1 >= 0
  {
    assert s.word != |c.present| - 1;
  }

  // Every step stays inside the present words and uses up one bit.
  lemma StepAdvances(c: Header, s: Walk)
    requires WellFormed(c) && Inside(c, s)
    ensures !Step(c, s).Stop? ==> Inside(c, Step(c, s).next) && 0 <= BitsLeft(c, Step(c, s).next) < BitsLeft(c, s)
  {
    var r := Step(c, s);
    if !r.Stop? {
      if s.bit == EXT { NextWordInside(c, s); } else { AdvanceInside(c, s, r.next); }
    }
  }

  datatype Layout = Layout(fields: seq<Field>, end: Outcome)

  // The fields from a place on, and how the walk ends
  ghost function Rest(c: Header, s: Walk): Layout
    requires WellFormed(c) && Inside(c, s)
    decreases BitsLeft(c, s)
  {
    StepAdvances(c, s);
    match Step(c, s)
    case Stop(o) => Layout([], o)
    case Continue(s') => Rest(c, s')
    case Found(f, s') => Layout([f] + Rest(c, s').fields, Rest(c, s').end)
  }

  // The next field, or the way the walk ends without another
  ghost function Upcoming(c: Header, s: Walk): (r: Result)
    requires WellFormed(c) && Inside(c, s)
    ensures !r.Continue?
    ensures r.Found? ==> Inside(c, r.next) && BitsLeft(c, r.next) < BitsLeft(c, s)
    decreases BitsLeft(c, s)
  {
    StepAdvances(c, s);
    match Step(c, s)
    case Continue(s') => Upcoming(c, s')
    case r => r
  }

  lemma {:induction false} RestFromUpcoming(c: Header, s: Walk)
    requires WellFormed(c) && Inside(c, s)
    ensures var r := Upcoming(c, s);
            if r.Found? then Rest(c, s) == Layout([r.field] + Rest(c, r.next).fields, Rest(c, r.next).end)
            else Rest(c, s) == Layout([], r.outcome)
    decreases BitsLeft(c, s)
  {
    StepAdvances(c, s);
    if Step(c, s).Continue? { RestFromUpcoming(c, Step(c, s).next); }
  }

  ghost function LayoutOf(c: Header): Layout
    requires WellFormed(c)
  {
    Rest(c, Start(c))
  }
}
