/** The radiotap iterator, proved against the layout. */
module RadiotapIterator {
  import opened Options
  import opened RadiotapLayout
  import opened RadiotapBytes
  import opened RadiotapUnset

  datatype Code = Ok | Enoent | Einval

  // Present words from word k on that the header has room for, or 0 if they claim to go on beyond it
  ghost function CountWords(h: seq<Octet>, len: nat, k: nat): (n: nat)
    requires len <= |h| && 8 <= |h|
    decreases |h| - 4 * k
  {
    if !Bit(WordAt(h, k), EXT) then k + 1
    else if 12 + 4 * k > len then 0
    else CountWords(h, len, k + 1)
  }

  // What init accepts
  ghost predicate Acceptable(h: seq<Octet>) {
    8 <= |h| && h[0] == 0 && Le16(h, 2) <= |h| && CountWords(h, Le16(h, 2), 0) > 0
  }

  ghost function HeaderOf(h: seq<Octet>, vns: seq<VendorNamespace>): (c: Header)
    requires Acceptable(h) && VendorTables(vns)
    ensures WellFormed(c)
  {
    CountedWords(h, Le16(h, 2), 0);
    Header(h, Le16(h, 2), seq(CountWords(h, Le16(h, 2), 0), k requires 0 <= k => WordAt(h, k)), vns)
  }

  lemma {:induction false} CountedWords(h: seq<Octet>, len: nat, k: nat)
    requires len <= |h| && 8 <= |h| && CountWords(h, len, k) > 0
    ensures var n := CountWords(h, len, k);
            k < n && (forall j :: k <= j < n - 1 ==> Bit(WordAt(h, j), EXT)) && !Bit(WordAt(h, n - 1), EXT)
            && (n > k + 1 ==> 4 + 4 * n <= len)
    decreases |h| - 4 * k
  {
    if Bit(WordAt(h, k), EXT) { CountedWords(h, len, k + 1); }
  }

  lemma {:induction false} CountLast(h: seq<Octet>, len: nat, n: nat, k: nat)
    requires len <= |h| && 8 <= |h| && LastWord(h, len, n) && k < n
    ensures CountWords(h, len, k) == n
    decreases n - k
  {
    ExtBit(h, k);
    if k < n - 1 { CountLast(h, len, n, k + 1); }
  }

  lemma CountIsLast(h: seq<Octet>, len: nat)
    requires len <= |h| && 8 <= |h| && CountWords(h, len, 0) > 0
    ensures LastWord(h, len, CountWords(h, len, 0))
  {
    var n := CountWords(h, len, 0);
    CountedWords(h, len, 0);
    ExtBit(h, n - 1);
    forall k | 0 <= k < n - 1 ensures h[7 + 4 * k] >= 0x80 { ExtBit(h, k); }
  }

  // Version 0, a declared length that was captured, and present words that end inside it
  ghost predicate Lawful(h: seq<Octet>) {
    8 <= |h| && h[0] == 0 && Declared(h) <= |h| && exists n :: LastWord(h, Declared(h), n)
  }

  lemma LawfulIff(h: seq<Octet>)
    ensures Acceptable(h) <==> Lawful(h)
    ensures Acceptable(h) ==> Le16(h, 2) == Declared(h) && LastWord(h, Declared(h), CountWords(h, Le16(h, 2), 0))
  {
    if 8 <= |h| && Declared(h) <= |h| {
      if CountWords(h, Le16(h, 2), 0) > 0 { CountIsLast(h, Le16(h, 2)); }
      if n :| LastWord(h, Declared(h), n) { CountLast(h, Le16(h, 2), n, 0); }
    }
  }

  class RadiotapIterator {
    const rtheader: seq<Octet>
    const vns: seq<VendorNamespace>
    const maxLength: nat
    var argIndex: nat
    var bitmapShifter: nat
    var arg: nat
    var resetOnExt: bool
    var nextBitmap: nat
    var nextNsData: nat
    var currentNamespace: Namespace
    var thisArgIndex: nat
    var thisArg: nat
    var thisArgSize: nat
    ghost const header: Header
    ghost var walk: Walk

    // The place in the present words
    ghost predicate Placed(s: Walk)
      reads this`argIndex, this`bitmapShifter, this`nextBitmap
    {
      && header.h == rtheader && header.vns == vns && header.len == maxLength && WellFormed(header) && Inside(header, s)
      && argIndex == s.index && bitmapShifter == Shifted(Word(header, s.word), s.bit) && nextBitmap == 8 + 4 * s.word
    }

    // The namespace and the positions; one that the walk does not know may be anything.
    ghost predicate Positions(s: Walk)
      reads this`resetOnExt, this`currentNamespace, this`arg, this`nextNsData
    {
      && resetOnExt == s.reset && currentNamespace == s.ns
      && (s.arg.Some? ==> arg == s.arg.value) && (s.nextNs.Some? ==> nextNsData == s.nextNs.value)
    }

    // The fields hold the place in the walk.
    ghost predicate Valid()
      reads this
    {
      Placed(walk) && Positions(walk)
    }

    // The state after a successful init; _next_ns_data is not set.
    constructor (h: seq<Octet>, vendors: seq<VendorNamespace>, start: nat)
      requires Acceptable(h) && VendorTables(vendors) && start == DataStart(HeaderOf(h, vendors))
      ensures Valid() && header == HeaderOf(h, vendors) && walk == Start(header) && thisArg == start
    {
      rtheader, vns, maxLength := h, vendors, Le16(h, 2);
      argIndex, bitmapShifter, arg, resetOnExt, nextBitmap := 0, Le32(h, 4), start, false, 8;
      currentNamespace, thisArg, thisArgIndex, thisArgSize := Radiotap, start, 0, 0;
      nextNsData := *;
      ghost var c := HeaderOf(h, vendors);
      header, walk := c, Start(c);
      assert ReadAt(c, 0);
    }

    // The field last returned
    ghost function ThisField(): Field
      reads this`thisArgIndex, this`thisArg, this`thisArgSize
    {
      Field(thisArgIndex, thisArg, thisArgSize)
    }

    // What one round of the loop in next did, and whether next is to return
    ghost predicate Performed(res: Result, code: Option<Code>)
      reads this
    {
      match res
      case Stop(o) => code == Some(CodeOf(o))
      case Continue(s') => code == None && Valid() && walk == s'
      case Found(f, s') => code == Some(Ok) && Valid() && walk == s' && f == ThisField()
    }

    // next_entry: on to the next bit of the word, with what else has changed
    method NextEntry(ghost s': Walk)
      requires Placed(walk) && Inside(header, s') && s'.word == walk.word && s'.bit == walk.bit + 1
               && s'.index == walk.index + 1
      requires Positions(s')
      modifies this`bitmapShifter, this`argIndex, this`walk
      ensures Valid() && walk == s'
    {
      ShiftedNext(Word(header, walk.word), walk.bit);
      bitmapShifter := bitmapShifter / 2;
      argIndex := argIndex + 1;
      walk := s';
    }

    method AlignArg(align: nat)
      requires align > 0
      modifies this`arg
      ensures arg == AlignUp(old(arg), align)
    {
      var pad := Remainder(arg, align);
      if pad != 0 {
        arg := arg + (align - pad);
      }
    }

    // An ordinary field of the current namespace
    method ExamineField() returns (code: Option<Code>)
      requires Valid() && Bit(Word(header, walk.word), walk.bit) && walk.bit < RADIOTAP_NAMESPACE
      requires Step(header, walk) != Stop(Undefined)
      modifies this
      ensures Performed(Step(header, old(walk)), code)
    {
      StepAdvances(header, walk);
      ghost var res := Step(header, walk);
      match Lookup(vns, currentNamespace, argIndex)
      case BeyondTable => return Some(Enoent);
      case Hole =>
        arg := nextNsData;
        currentNamespace := Unregistered;
        NextEntry(res.next);
        return None;
      case Entry(align, size) =>
        AlignArg(align);
        thisArgIndex, thisArg, thisArgSize := argIndex, arg, size;
        arg := arg + size;
        if arg > maxLength {
          return Some(Einval);
        }
        NextEntry(res.next);
        return Some(Ok);
    }

    method FindNamespace(oui: nat, subns: nat) returns (ns: Namespace)
      ensures ns == FindVendor(vns, oui, subns, 0)
    {
      for i := 0 to |vns|
        invariant FindVendor(vns, oui, subns, 0) == FindVendor(vns, oui, subns, i)
      {
        if vns[i].oui == oui && vns[i].subns == subns {
          return Vendor(i);
        }
      }
      return Unregistered;
    }

    method ReadVendor() returns (ns: Namespace, vnslen: nat)
      requires arg + 6 <= |rtheader| && header.h == rtheader && header.vns == vns
      ensures ns == VendorAt(header, arg) && vnslen == SkipLength(header, arg)
      ensures ns.Vendor? ==> ns.k < |vns|
    {
      ns := FindNamespace(Oui(rtheader, arg), rtheader[arg + 3]);
      vnslen := Le16(rtheader, arg + 4);
    }

    // The start of a vendor namespace; one that is not registered is returned as a field with all its data.
    method ExamineVendor() returns (code: Option<Code>)
      requires Valid() && Bit(Word(header, walk.word), walk.bit) && walk.bit == VENDOR_NAMESPACE && walk.arg.Some?
      modifies this
      ensures Performed(SwitchToVendor(header, old(walk)), code)
    {
      AlignArg(2);
      if arg + 6 > maxLength {
        return Some(Einval);
      }
      var ns, vnslen := ReadVendor();
      code := EnterVendor(ns, vnslen);
    }

    // The vendor field at arg is taken; its data is part of it if the namespace is not registered.
    method EnterVendor(ns: Namespace, vnslen: nat) returns (code: Option<Code>)
      requires Placed(walk) && walk.bit == VENDOR_NAMESPACE && walk.arg.Some? && arg == AlignUp(walk.arg.value, 2)
               && arg + 6 <= maxLength
      requires ns == VendorAt(header, arg) && vnslen == SkipLength(header, arg) && (ns.Vendor? ==> ns.k < |vns|)
      modifies this
      ensures Performed(SwitchToVendor(header, old(walk)), code)
    {
      ghost var res := SwitchToVendor(header, walk);
      nextNsData := arg + 6 + vnslen;
      thisArgIndex, thisArg, thisArgSize := VENDOR_NAMESPACE, arg, if ns == Unregistered then 6 + vnslen else 6;
      arg := arg + thisArgSize;
      if arg > maxLength {
        return Some(Einval);
      }
      currentNamespace, resetOnExt := ns, true;
      NextEntry(res.next);
      return if ns == Unregistered then Some(Ok) else None;
    }

    method ExamineRadiotapNamespace() returns (code: Option<Code>)
      requires Valid() && Bit(Word(header, walk.word), walk.bit) && walk.bit == RADIOTAP_NAMESPACE && walk.arg.Some?
      modifies this
      ensures Performed(SwitchToRadiotap(header, old(walk)), code)
    {
      ghost var res := SwitchToRadiotap(header, walk);
      thisArgIndex, thisArg, thisArgSize := argIndex, arg, 0;
      if arg > maxLength {
        return Some(Einval);
      }
      resetOnExt, currentNamespace := true, Radiotap;
      NextEntry(res.next);
      return None;
    }

    // Bit 31: on to the next present word
    method ExamineExtension() returns (code: Option<Code>)
      requires Valid() && Bit(Word(header, walk.word), walk.bit) && walk.bit == EXT && walk.arg.Some?
      modifies this
      ensures Performed(Extend(header, old(walk)), code)
    {
      NextWordInside(header, walk);
      assert ReadAt(header, walk.word + 1);
      thisArgIndex, thisArg, thisArgSize := argIndex, arg, 0;
      if arg > maxLength {
        return Some(Einval);
      }
      bitmapShifter := Le32(rtheader, nextBitmap);
      nextBitmap := nextBitmap + 4;
      argIndex := if resetOnExt then 0 else argIndex + 1;
      resetOnExt := false;
      walk := NextWord(walk);
      return None;
    }

    // One round of the loop in next
    method Examine() returns (code: Option<Code>)
      requires Valid() && Step(header, walk) != Stop(Undefined)
      modifies this
      ensures Performed(Step(header, old(walk)), code)
    {
      StepAdvances(header, walk);
      if argIndex % 32 == EXT && bitmapShifter % 2 == 0 {
        return Some(Enoent);
      }
      if bitmapShifter % 2 == 0 {
        NextEntry(Advance(walk));
        return None;
      }
      if argIndex % 32 == RADIOTAP_NAMESPACE {
        code := ExamineRadiotapNamespace();
      } else if argIndex % 32 == VENDOR_NAMESPACE {
        code := ExamineVendor();
      } else if argIndex % 32 == EXT {
        code := ExamineExtension();
      } else {
        code := ExamineField();
      }
    }

    /** next: the first field of what is left, or the way the walk ends */
    method Next() returns (code: Code)
      requires Valid() && Upcoming(header, walk) != Stop(Undefined)
      modifies this
      ensures code == Ok ==> Valid() && BitsLeft(header, walk) < BitsLeft(header, old(walk))
      ensures code == Ok ==> Rest(header, old(walk)) == Cons(ThisField(), Rest(header, walk))
      ensures code == Enoent ==> Rest(header, old(walk)) == Layout([], NoEntry)
      ensures code == Einval ==> Rest(header, old(walk)) == Layout([], Invalid)
    {
      RestFromUpcoming(header, walk);
      code := Search();
    }

    // The loop in next
    method Search() returns (code: Code)
      requires Valid() && Upcoming(header, walk) != Stop(Undefined)
      modifies this
      ensures code == Ok ==> Valid() && Upcoming(header, old(walk)) == Found(ThisField(), walk)
      ensures code == Enoent ==> Upcoming(header, old(walk)) == Stop(NoEntry)
      ensures code == Einval ==> Upcoming(header, old(walk)) == Stop(Invalid)
    {
      ghost var upcoming := Upcoming(header, walk);
      while true
        invariant Valid() && Upcoming(header, walk) == upcoming
        decreases BitsLeft(header, walk)
      {
        StepAdvances(header, walk);
        var r := Examine();
        if r.Some? {
          return r.value;
        }
      }
    }
  }

  // The offset behind the present words, the first of which announces another; false if they leave the header
  method SkipPresentWords(h: seq<Octet>, maxLength: nat) returns (ok: bool, arg: nat)
    requires 8 <= |h| && maxLength <= |h| && Bit(WordAt(h, 0), EXT)
    ensures ok == (CountWords(h, maxLength, 0) > 0)
    ensures ok ==> arg == 4 + 4 * CountWords(h, maxLength, 0)
  {
    arg := 8;
    if arg + 4 > maxLength {
      return false, arg;
    }
    ghost var k := 1;
    while Bit(Le32(h, arg), EXT)
      invariant 1 <= k && arg == 4 + 4 * k && arg + 4 <= maxLength
      invariant CountWords(h, maxLength, 0) == CountWords(h, maxLength, k)
      decreases maxLength - arg
    {
      arg := arg + 4;
      if arg + 4 > maxLength {
        return false, arg;
      }
      k := k + 1;
    }
    return true, arg + 4;
  }

  /** init: 0 for headers whose present words end inside the declared length, -EINVAL for all others */
  method Init(h: seq<Octet>, vns: seq<VendorNamespace>) returns (code: Code, iter: RadiotapIterator?)
    requires VendorTables(vns)
    ensures code == (if Lawful(h) then Ok else Einval)
    ensures code == Ok ==>
              iter != null && fresh(iter) && iter.Valid() && Acceptable(h) && iter.header == HeaderOf(h, vns)
              && iter.walk == Start(iter.header)
    ensures code == Ok ==>
              iter.header.len == Declared(h) && LastWord(h, Declared(h), |iter.header.present|)
              && iter.thisArg == 4 + 4 * |iter.header.present|
  {
    LawfulIff(h);
    if |h| < 8 {
      return Einval, null;
    }
    if h[0] != 0 {
      return Einval, null;
    }
    if |h| < Le16(h, 2) {
      return Einval, null;
    }
    var arg := 8;
    if Bit(Le32(h, 4), EXT) {
      var ok;
      ok, arg := SkipPresentWords(h, Le16(h, 2));
      if !ok {
        return Einval, null;
      }
    }
    iter := new RadiotapIterator(h, vns, arg);
    return Ok, iter;
  }

  ghost function Cons(f: Field, l: Layout): Layout { Layout([f] + l.fields, l.end) }

  ghost function Prepend(fs: seq<Field>, l: Layout): Layout { Layout(fs + l.fields, l.end) }

  lemma PrependCons(fs: seq<Field>, f: Field, l: Layout)
    ensures Prepend(fs, Cons(f, l)) == Prepend(fs + [f], l)
  {}

  // fields have been returned and l is left.
  ghost predicate Parsed(h: seq<Octet>, fields: seq<Field>, l: Layout) {
    Acceptable(h) && LayoutOf(HeaderOf(h, [])) == Prepend(fields, l)
  }

  // What a call of next returned, with left still to come
  ghost predicate Returned(iter: RadiotapIterator, h: seq<Octet>, fields: seq<Field>, code: Code)
    requires VendorTables([])
    reads iter
  {
    match code
    case Ok =>
      Acceptable(h) && iter.Valid() && iter.header == HeaderOf(h, [])
        && Parsed(h, fields, Cons(iter.ThisField(), Rest(iter.header, iter.walk)))
    case Enoent => Parsed(h, fields, Layout([], NoEntry))
    case Einval => Parsed(h, fields, Layout([], Invalid))
  }

  method TakeNext(iter: RadiotapIterator, h: seq<Octet>, fields: seq<Field>) returns (code: Code)
    requires Acceptable(h) && iter.Valid() && iter.header == HeaderOf(h, [])
             && Parsed(h, fields, Rest(iter.header, iter.walk))
    requires !UsesUnset(HeaderOf(h, []))
    modifies iter
    ensures Returned(iter, h, fields, code)
    ensures code == Ok ==> BitsLeft(iter.header, iter.walk) < BitsLeft(iter.header, old(iter.walk))
  {
    UndefinedIff(HeaderOf(h, []));
    RestFromUpcoming(iter.header, iter.walk);
    code := iter.Next();
  }

  // The loop of parse_radiotap_header: all fields, and why there are no more
  method ParseRadiotapHeader(h: seq<Octet>) returns (fields: seq<Field>, code: Code)
    requires Acceptable(h) ==> !UsesUnset(HeaderOf(h, []))
    ensures code != Ok && (!Lawful(h) ==> code == Einval && fields == []) && (Lawful(h) <==> Acceptable(h))
    ensures Acceptable(h) ==> LayoutOf(HeaderOf(h, [])) == Layout(fields, if code == Enoent then NoEntry else Invalid)
  {
    LawfulIff(h);
    var iter;
    code, iter := Init(h, []);
    fields := [];
    if code == Ok {
      code := TakeNext(iter, h, fields);
      while code == Ok
        invariant Returned(iter, h, fields, code)
        decreases if code == Ok then BitsLeft(iter.header, iter.walk) + 1 else 0
      {
        ghost var before := fields;
        fields := fields + [Field(iter.thisArgIndex, iter.thisArg, iter.thisArgSize)];
        PrependCons(before, iter.ThisField(), Rest(iter.header, iter.walk));
        code := TakeNext(iter, h, fields);
      }
    }
  }

  function CodeOf(o: Outcome): Code {
    match o
    case NoEntry => Enoent
    case Invalid => Einval
    case Undefined => Einval
  }
}
