/** What comes back of a message, and exactly when it is the message. */
module MessageRoundTrip {
  import opened Options
  import opened Sequences
  import opened ByteOrder
  import opened MessageFraming
  import opened MessageCoding
  import opened MessageDecoding

  // ------------------------------------------------------------------ frames that carry a message

  ghost predicate CarriesSymbol(c: Codecs, src: seq<Symbol>, n: nat, f: seq<bv8>)
    requires OTI_SIZE <= |f|
  {
    FieldAt(f, 0) < n && SymbolOf(f) == EncodingSymbol(c, src, n, FieldAt(f, 0))
  }

  // Each corrected frame holds the encoding symbol it names, or names a symbol that is refused.
  ghost predicate Carries(c: Codecs, src: seq<Symbol>, n: nat, ldpc: seq<seq<bv8>>)
    requires LdpcSized(c, ldpc)
  {
    forall i :: 0 <= i < |ldpc| ==> FieldAt(ldpc[i], 0) > n || CarriesSymbol(c, src, n, ldpc[i])
  }

  ghost predicate HeaderSays(f: seq<bv8>, n: nat, k: nat, rem: nat)
    requires OTI_SIZE <= |f|
  {
    FieldAt(f, 2) == n && FieldAt(f, 4) == k && FieldAt(f, 6) == rem
  }

  // The header that is read
  ghost predicate HeaderIs(c: Codecs, ldpc: seq<seq<bv8>>, n: nat, k: nat, rem: nat)
    requires LdpcSized(c, ldpc)
  {
    var i := FirstValid(ldpc, 0);
    i < |ldpc| && HeaderSays(ldpc[i], n, k, rem)
  }

  lemma GenuineNext(c: Codecs, src: seq<Symbol>, n: nat, got: seq<(nat, Symbol)>, esi: nat, symbol: Symbol)
    requires Genuine(c, src, n, got) && esi < n && symbol == EncodingSymbol(c, src, n, esi)
    ensures Genuine(c, src, n, got + [(esi, symbol)])
  {}

  lemma {:induction false} HandedAreGenuine(c: Codecs, src: seq<Symbol>, n: nat, ldpc: seq<seq<bv8>>, m: nat)
    requires LdpcSized(c, ldpc) && Carries(c, src, n, ldpc) && m <= |ldpc|
    ensures Genuine(c, src, n, Handed(ldpc, n, m))
  {
    if m > 0 {
      HandedAreGenuine(c, src, n, ldpc, m - 1);
      if FieldAt(ldpc[m - 1], 0) <= n {
        assert CarriesSymbol(c, src, n, ldpc[m - 1]);
        GenuineNext(c, src, n, Handed(ldpc, n, m - 1), FieldAt(ldpc[m - 1], 0), SymbolOf(ldpc[m - 1]));
      }
    }
  }

  lemma SolvedIsSource(c: Codecs, src: seq<Symbol>, n: nat, got: seq<(nat, Symbol)>)
    requires ErasureCode(c) && AllSized(src, c.SymbolSize()) && Genuine(c, src, n, got)
    requires (c.solve)(n, |src|, got).Some?
    ensures (c.solve)(n, |src|, got) == Some(src)
  {}

  // What the decoder makes of the symbols it hands over
  ghost function Answer(c: Codecs, ldpc: seq<seq<bv8>>, n: nat, k: nat): Option<seq<Symbol>>
    requires LdpcSized(c, ldpc)
  {
    (c.solve)(n, k, Handed(ldpc, n, |ldpc|))
  }

  // Whatever frames arrive, in whatever order and however often: if the header that is read is right and each frame
  // carries the symbol it names or is refused, and the erasure code can solve them, the message comes back.
  lemma RoundTrip(c: Codecs, message: seq<bv8>, n: nat, k: nat, rem: nat, frames: Received)
    requires Lawful(c) && |message| > 0 && FrameSized(c, frames)
    requires k == SymbolCount(|message|, c.SymbolSize()) && rem == |message| % c.SymbolSize() && n - k >= N1_MIN
    requires HeaderIs(c, LdpcOf(c, frames), n, k, rem)
    requires Carries(c, Sources(message, c.SymbolSize(), k), n, LdpcOf(c, frames))
    requires Answer(c, LdpcOf(c, frames), n, k).Some?
    ensures SaneFirst(c, LdpcOf(c, frames)) && Decoded(c, LdpcOf(c, frames)) == Ok(message)
  {
    var src, ldpc := Sources(message, c.SymbolSize(), k), LdpcOf(c, frames);
    SymbolsCarryMessage(message, c.SymbolSize(), k, rem);
    LengthSplits(|message|, c.SymbolSize(), k, rem);
    HandedAreGenuine(c, src, n, ldpc, |ldpc|);
    SolvedIsSource(c, src, n, Handed(ldpc, n, |ldpc|));
  }

  // ------------------------------------------------------------------ frames with errors

  // A frame that was sent, with errors that can be corrected
  ghost predicate ComesFrom(c: Codecs, src: seq<Symbol>, n: nat, rem: nat, got: seq<seq<bv8>>, esi: nat)
    requires Fits(c, n, |src|, rem)
  {
    esi < n && Correctable(c, got, SentFrame(c, src, n, rem, esi))
  }

  // A frame beyond correction does no harm if its number is refused or its symbol is that of its number, and if its
  // header is right or told from a right one.
  ghost predicate Harmless(c: Codecs, src: seq<Symbol>, n: nat, rem: nat, f: seq<bv8>)
    requires OTI_SIZE <= |f|
  {
    (FieldAt(f, 0) > n || CarriesSymbol(c, src, n, f)) && (CrcMatches(f) ==> HeaderSays(f, n, |src|, rem))
  }

  // Frame i was sent with symbol esis[i] and can be corrected, or it does no harm.
  ghost predicate AllCome(c: Codecs, src: seq<Symbol>, n: nat, rem: nat, frames: Received, esis: seq<Option<nat>>)
    requires Fits(c, n, |src|, rem) && Lawful(c) && FrameSized(c, frames)
  {
    && |esis| == |frames|
    && forall i :: 0 <= i < |frames| ==>
         if esis[i].Some? then ComesFrom(c, src, n, rem, frames[i], esis[i].value)
         else Harmless(c, src, n, rem, LdpcOf(c, frames)[i])
  }

  lemma FrameRestored(c: Codecs, src: seq<Symbol>, n: nat, rem: nat, got: seq<seq<bv8>>, esi: nat)
    requires Lawful(c) && Fits(c, n, |src|, rem) && AllSized(src, c.SymbolSize()) && ComesFrom(c, src, n, rem, got, esi)
    ensures |got| == BLOCKS_PER_FRAME && |EncodingSymbol(c, src, n, esi)| == c.SymbolSize()
    ensures Corrected(c, got) == LdpcFrame(esi, n, |src|, rem, EncodingSymbol(c, src, n, esi))
  {
    EncodingSized(c, src, n, esi);
    CorrectionRestores(c, LdpcFrame(esi, n, |src|, rem, EncodingSymbol(c, src, n, esi)), BLOCKS_PER_FRAME, got);
  }

  lemma CorrectedIsHarmless(c: Codecs, src: seq<Symbol>, n: nat, rem: nat, got: seq<seq<bv8>>, esi: nat)
    requires Lawful(c) && Fits(c, n, |src|, rem) && AllSized(src, c.SymbolSize()) && ComesFrom(c, src, n, rem, got, esi)
    ensures OTI_SIZE <= |Corrected(c, got)| && CrcMatches(Corrected(c, got))
    ensures Harmless(c, src, n, rem, Corrected(c, got))
  {
    FrameRestored(c, src, n, rem, got, esi);
    FrameFields(Corrected(c, got), esi, n, |src|, rem, EncodingSymbol(c, src, n, esi));
  }

  lemma HarmlessCarry(c: Codecs, src: seq<Symbol>, n: nat, rem: nat, ldpc: seq<seq<bv8>>, good: nat)
    requires LdpcSized(c, ldpc) && forall i :: 0 <= i < |ldpc| ==> Harmless(c, src, n, rem, ldpc[i])
    requires good < |ldpc| && CrcMatches(ldpc[good])
    ensures Carries(c, src, n, ldpc) && HeaderIs(c, ldpc, n, |src|, rem)
  {
    var i := FirstValid(ldpc, 0);
    assert i < |ldpc| && Harmless(c, src, n, rem, ldpc[i]);
  }

  // Frames with errors that can be corrected or do no harm, at least one of them corrected, carry the message.
  lemma CorrectableCarry(c: Codecs, src: seq<Symbol>, n: nat, rem: nat, frames: Received, esis: seq<Option<nat>>,
                         good: nat)
    requires Lawful(c) && Fits(c, n, |src|, rem) && AllSized(src, c.SymbolSize()) && FrameSized(c, frames)
    requires AllCome(c, src, n, rem, frames, esis) && good < |frames| && esis[good].Some?
    ensures Carries(c, src, n, LdpcOf(c, frames)) && HeaderIs(c, LdpcOf(c, frames), n, |src|, rem)
  {
    var ldpc := LdpcOf(c, frames);
    forall i | 0 <= i < |ldpc| ensures Harmless(c, src, n, rem, ldpc[i]) && (i == good ==> CrcMatches(ldpc[i])) {
      if esis[i].Some? { CorrectedIsHarmless(c, src, n, rem, frames[i], esis[i].value); }
    }
    HarmlessCarry(c, src, n, rem, ldpc, good);
  }

  // ------------------------------------------------------------------ exactly when the message comes back

  type Solver = (nat, nat, seq<(nat, Symbol)>) -> Option<seq<Symbol>>

  // The same codes with another way to solve
  ghost function With(c: Codecs, s: Solver): (c': Codecs)
    ensures c'.SymbolSize() == c.SymbolSize()
  {
    c.(solve := s)
  }

  // These k symbols could have been sent.
  ghost predicate Explains(c: Codecs, src: seq<Symbol>, n: nat, k: nat, got: seq<(nat, Symbol)>) {
    |src| == k && AllSized(src, c.SymbolSize()) && Genuine(c, src, n, got)
  }

  lemma GenuineWith(c: Codecs, s: Solver, src: seq<Symbol>, n: nat, got: seq<(nat, Symbol)>)
    ensures Genuine(With(c, s), src, n, got) <==> Genuine(c, src, n, got)
  {
    forall i | 0 <= i < |got|
      ensures EncodingSymbol(With(c, s), src, n, got[i].0) == EncodingSymbol(c, src, n, got[i].0)
    {}
  }

  // The last symbol with another first byte
  ghost function Altered(src: seq<Symbol>): (r: seq<Symbol>)
    requires src != [] && src[|src| - 1] != []
    ensures |r| == |src|
  {
    var l := |src| - 1;
    src[l := src[l][0 := src[l][0] ^ 1]]
  }

  lemma AlteredDiffers(c: Codecs, src: seq<Symbol>, rem: nat)
    requires src != [] && AllSized(src, c.SymbolSize()) && 0 < c.SymbolSize() && rem <= c.SymbolSize()
    ensures AllSized(Altered(src), c.SymbolSize()) && MessageOf(c, Altered(src), rem) != MessageOf(c, src, rem)
  {
    var l := |src| - 1;
    var a, b := src[l][..LastLength(rem, c.SymbolSize())], Altered(src)[l][..LastLength(rem, c.SymbolSize())];
    assert Altered(src)[..l] == src[..l];
    assert (Flatten(src[..l]) + a)[|Flatten(src[..l])|] == a[0] && (Flatten(src[..l]) + b)[|Flatten(src[..l])|] == b[0];
    assert a[0] ^ 1 == b[0];
    ByteFlips(a[0]);
  }

  lemma ByteFlips(b: bv8)
    ensures b ^ 1 != b
  {}

  // Another way to solve, which differs at one place
  ghost function Elsewhere(c: Codecs, n: nat, k: nat, got: seq<(nat, Symbol)>, v: seq<Symbol>): Solver {
    (n': nat, k': nat, got': seq<(nat, Symbol)>) =>
      if n' == n && k' == k && got' == got then Some(v) else (c.solve)(n', k', got')
  }

  // It is as lawful if nothing that could have been sent is handed over there.
  lemma ElsewhereIsLawful(c: Codecs, n: nat, k: nat, got: seq<(nat, Symbol)>, v: seq<Symbol>)
    requires ErasureCode(c) && |v| == k && AllSized(v, c.SymbolSize())
    requires forall src :: !Explains(c, src, n, k, got)
    ensures ErasureCode(With(c, Elsewhere(c, n, k, got, v)))
  {
    var s := Elsewhere(c, n, k, got, v);
    var c' := With(c, s);
    forall src, n', got' {:trigger Genuine(c', src, n', got')} |
      Genuine(c', src, n', got') && AllSized(src, c'.SymbolSize()) && (c'.solve)(n', |src|, got').Some?
      ensures (c'.solve)(n', |src|, got').value == src
    {
      GenuineWith(c, s, src, n', got');
      assert !Explains(c, src, n, k, got);
    }
  }

  // Whatever lawful way to solve is used: if it answers, this message is made of the answer.
  ghost predicate AlwaysGives(c: Codecs, n: nat, k: nat, got: seq<(nat, Symbol)>, rem: nat, m: seq<bv8>)
    requires k >= 1 && 0 < c.SymbolSize() && rem <= c.SymbolSize()
  {
    forall s: Solver :: ErasureCode(With(c, s)) && s(n, k, got).Some? ==> MessageOf(c, s(n, k, got).value, rem) == m
  }

  // The message of symbols that could have been sent is given by all that answer.
  lemma ExplainedGives(c: Codecs, src: seq<Symbol>, n: nat, k: nat, got: seq<(nat, Symbol)>, rem: nat)
    requires k >= 1 && 0 < c.SymbolSize() && rem <= c.SymbolSize() && Explains(c, src, n, k, got)
    ensures AlwaysGives(c, n, k, got, rem, MessageOf(c, src, rem))
  {
    forall s: Solver | ErasureCode(With(c, s)) && s(n, k, got).Some?
      ensures MessageOf(c, s(n, k, got).value, rem) == MessageOf(c, src, rem)
    {
      GenuineWith(c, s, src, n, got);
      SolvedIsSource(With(c, s), src, n, got);
    }
  }

  // If nothing that could have been sent was handed over, no message is given by all.
  lemma UnexplainedGivesNone(c: Codecs, n: nat, k: nat, got: seq<(nat, Symbol)>, rem: nat, m: seq<bv8>)
    requires ErasureCode(c) && (c.solve)(n, k, got).Some? && k >= 1 && 0 < c.SymbolSize() && rem <= c.SymbolSize()
    requires forall src :: !Explains(c, src, n, k, got)
    ensures !AlwaysGives(c, n, k, got, rem, m)
  {
    var v := (c.solve)(n, k, got).value;
    var s := c.solve;
    if MessageOf(c, v, rem) == m {
      AlteredDiffers(c, v, rem);
      ElsewhereIsLawful(c, n, k, got, Altered(v));
      s := Elsewhere(c, n, k, got, Altered(v));
    }
    assert ErasureCode(With(c, s)) && s(n, k, got).Some? && MessageOf(c, s(n, k, got).value, rem) != m;
  }

  // If some lawful way to solve answers, all that answer give a message if and only if symbols that could have been
  // sent make it.
  lemma AlwaysGivesIff(c: Codecs, n: nat, k: nat, got: seq<(nat, Symbol)>, rem: nat, m: seq<bv8>)
    requires ErasureCode(c) && (c.solve)(n, k, got).Some? && k >= 1 && 0 < c.SymbolSize() && rem <= c.SymbolSize()
    ensures AlwaysGives(c, n, k, got, rem, m) <==>
              exists src :: Explains(c, src, n, k, got) && MessageOf(c, src, rem) == m
  {
    var v := (c.solve)(n, k, got).value;
    assert With(c, c.solve) == c;
    if Explains(c, v, n, k, got) {
      ExplainedGives(c, v, n, k, got, rem);
      forall src | Explains(c, src, n, k, got) ensures src == v { SolvedIsSource(c, src, n, got); }
    } else {
      forall src ensures !Explains(c, src, n, k, got) {
        if Explains(c, src, n, k, got) { SolvedIsSource(c, src, n, got); }
      }
      UnexplainedGivesNone(c, n, k, got, rem, m);
    }
  }

  // ------------------------------------------------------------------ the same of the decoder

  // Whatever lawful way to solve is used: if it answers, the decoder returns this message.
  ghost predicate AlwaysDecodes(c: Codecs, ldpc: seq<seq<bv8>>, n: nat, k: nat, m: seq<bv8>)
    requires LdpcSized(c, ldpc) && SaneFirst(c, ldpc)
  {
    forall s: Solver {:trigger With(c, s)} ::
      ErasureCode(With(c, s)) && Answer(With(c, s), ldpc, n, k).Some? ==> Decoded(With(c, s), ldpc) == Ok(m)
  }

  // If the erasure code answers, the message comes back for certain if and only if the symbols handed over could have
  // been sent with symbols that make it.
  lemma DecodesIff(c: Codecs, ldpc: seq<seq<bv8>>, n: nat, k: nat, rem: nat, m: seq<bv8>)
    requires ErasureCode(c) && LdpcSized(c, ldpc) && SaneFirst(c, ldpc) && HeaderIs(c, ldpc, n, k, rem)
    requires Answer(c, ldpc, n, k).Some?
    ensures AlwaysDecodes(c, ldpc, n, k, m) <==>
              exists src :: Explains(c, src, n, k, Handed(ldpc, n, |ldpc|)) && MessageOf(c, src, rem) == m
  {
    var got := Handed(ldpc, n, |ldpc|);
    AlwaysGivesIff(c, n, k, got, rem, m);
    forall s: Solver | ErasureCode(With(c, s)) && Answer(With(c, s), ldpc, n, k).Some?
      ensures Decoded(With(c, s), ldpc) == Ok(MessageOf(c, s(n, k, got).value, rem))
    {}
    if AlwaysGives(c, n, k, got, rem, m) {
      forall s: Solver {:trigger With(c, s)} | ErasureCode(With(c, s)) && Answer(With(c, s), ldpc, n, k).Some?
        ensures Decoded(With(c, s), ldpc) == Ok(m)
      {
        assert s(n, k, got).Some?;
      }
    }
    if AlwaysDecodes(c, ldpc, n, k, m) {
      forall s: Solver | ErasureCode(With(c, s)) && s(n, k, got).Some?
        ensures MessageOf(c, s(n, k, got).value, rem) == m
      {
        assert Answer(With(c, s), ldpc, n, k).Some?;
      }
    }
  }

  // A message's symbols, whatever fills up the last one
  ghost predicate SymbolsOf(c: Codecs, message: seq<bv8>, src: seq<Symbol>, k: nat, rem: nat)
    requires k >= 1 && c.SymbolSize() > 0 && LastLength(rem, c.SymbolSize()) <= c.SymbolSize()
  {
    var own, last := Sources(message, c.SymbolSize(), k), LastLength(rem, c.SymbolSize());
    && |src| == k && AllSized(src, c.SymbolSize())
    && src[..k - 1] == own[..k - 1] && src[k - 1][..last] == own[k - 1][..last]
  }

  // Symbols make a message if and only if they are its own, up to the bytes that fill up the last one.
  lemma MessageIff(c: Codecs, message: seq<bv8>, src: seq<Symbol>, k: nat, rem: nat)
    requires |message| > 0 && c.SymbolSize() > 0 && k == SymbolCount(|message|, c.SymbolSize())
    requires rem == |message| % c.SymbolSize() && |src| == k && AllSized(src, c.SymbolSize())
    ensures k >= 1 && rem <= c.SymbolSize() && LastLength(rem, c.SymbolSize()) <= c.SymbolSize()
    ensures MessageOf(c, src, rem) == message <==> SymbolsOf(c, message, src, k, rem)
  {
    var own, last := Sources(message, c.SymbolSize(), k), LastLength(rem, c.SymbolSize());
    SymbolsCarryMessage(message, c.SymbolSize(), k, rem);
    LengthSplits(|message|, c.SymbolSize(), k, rem);
    SameMessageIff(src[..k - 1], src[k - 1][..last], own[..k - 1], own[k - 1][..last], c.SymbolSize());
  }

  lemma SameMessageIff(a: seq<Symbol>, x: seq<bv8>, b: seq<Symbol>, y: seq<bv8>, size: int)
    requires |a| == |b| && AllSized(a, size) && AllSized(b, size)
    ensures Flatten(a) + x == Flatten(b) + y <==> a == b && x == y
  {
    FlattenSized(a, b, size);
    SameParts(Flatten(a), x, Flatten(b), y);
  }

  // A message that was sent comes back for certain if and only if all symbols handed over are its own, for some way to
  // fill up the last one.
  lemma ComesBackIff(c: Codecs, message: seq<bv8>, n: nat, k: nat, rem: nat, ldpc: seq<seq<bv8>>)
    requires ErasureCode(c) && |message| > 0 && LdpcSized(c, ldpc)
    requires k == SymbolCount(|message|, c.SymbolSize()) && rem == |message| % c.SymbolSize() && n - k >= N1_MIN
    requires HeaderIs(c, ldpc, n, k, rem) && Answer(c, ldpc, n, k).Some?
    ensures k >= 1 && LastLength(rem, c.SymbolSize()) <= c.SymbolSize() && SaneFirst(c, ldpc)
    ensures AlwaysDecodes(c, ldpc, n, k, message) <==>
              exists src :: SymbolsOf(c, message, src, k, rem) && Genuine(c, src, n, Handed(ldpc, n, |ldpc|))
  {
    var got := Handed(ldpc, n, |ldpc|);
    SymbolsCarryMessage(message, c.SymbolSize(), k, rem);
    LengthSplits(|message|, c.SymbolSize(), k, rem);
    DecodesIff(c, ldpc, n, k, rem, message);
    if src :| Explains(c, src, n, k, got) && MessageOf(c, src, rem) == message {
      MessageIff(c, message, src, k, rem);
      assert SymbolsOf(c, message, src, k, rem);
    }
    if src :| SymbolsOf(c, message, src, k, rem) && Genuine(c, src, n, got) {
      MessageIff(c, message, src, k, rem);
      assert Explains(c, src, n, k, got);
    }
  }

  lemma {:induction false} FlattenSized(a: seq<Symbol>, b: seq<Symbol>, size: int)
    requires |a| == |b| && AllSized(a, size) && AllSized(b, size)
    ensures |Flatten(a)| == |Flatten(b)| && (Flatten(a) == Flatten(b) <==> a == b)
  {
    if a != [] {
      var l := |a| - 1;
      FlattenSized(a[..l], b[..l], size);
      SameParts(Flatten(a[..l]), a[l], Flatten(b[..l]), b[l]);
      SplitLast([], a); SplitLast([], b);
    }
  }

  // ------------------------------------------------------------------ one frame that spoils the message

  // Two frames that hand over different symbols of the same number
  ghost predicate Conflict(ldpc: seq<seq<bv8>>, n: nat, i: nat, j: nat)
    requires Headed(ldpc) && i < |ldpc| && j < |ldpc|
  {
    FieldAt(ldpc[i], 0) == FieldAt(ldpc[j], 0) <= n && SymbolOf(ldpc[i]) != SymbolOf(ldpc[j])
  }

  lemma {:induction false} HandedHas(ldpc: seq<seq<bv8>>, n: nat, m: nat, i: nat)
    requires Headed(ldpc) && i < m <= |ldpc| && FieldAt(ldpc[i], 0) <= n
    ensures (FieldAt(ldpc[i], 0), SymbolOf(ldpc[i])) in Handed(ldpc, n, m)
  {
    if i < m - 1 { HandedHas(ldpc, n, m - 1, i); }
  }

  // Then no message comes back for certain.
  lemma ConflictSpoils(c: Codecs, ldpc: seq<seq<bv8>>, n: nat, k: nat, rem: nat, i: nat, j: nat, m: seq<bv8>)
    requires ErasureCode(c) && LdpcSized(c, ldpc) && SaneFirst(c, ldpc) && HeaderIs(c, ldpc, n, k, rem)
    requires Answer(c, ldpc, n, k).Some? && i < |ldpc| && j < |ldpc| && Conflict(ldpc, n, i, j)
    ensures !AlwaysDecodes(c, ldpc, n, k, m)
  {
    var got := Handed(ldpc, n, |ldpc|);
    HandedHas(ldpc, n, |ldpc|, i); HandedHas(ldpc, n, |ldpc|, j);
    forall src
      ensures !Genuine(c, src, n, got)
    {
      TwiceIsNotGenuine(c, src, n, got, FieldAt(ldpc[i], 0), SymbolOf(ldpc[i]), SymbolOf(ldpc[j]));
    }
    DecodesIff(c, ldpc, n, k, rem, m);
  }

  lemma TwiceIsNotGenuine(c: Codecs, src: seq<Symbol>, n: nat, got: seq<(nat, Symbol)>, esi: nat, x: Symbol, y: Symbol)
    requires (esi, x) in got && (esi, y) in got && x != y
    ensures !Genuine(c, src, n, got)
  {
    var i :| 0 <= i < |got| && got[i] == (esi, x);
    var j :| 0 <= j < |got| && got[j] == (esi, y);
  }

  // For any codes and any message: next to a frame as it was sent, the same frame hit behind its header is enough.
  lemma OneBadFrameSpoils(c: Codecs, src: seq<Symbol>, n: nat, rem: nat, esi: nat, hit: seq<bv8>, sent: seq<bv8>,
                          m: seq<bv8>)
    requires ErasureCode(c) && Fits(c, n, |src|, rem) && AllSized(src, c.SymbolSize()) && esi < n
    requires |src| >= 1 && n - |src| >= N1_MIN && rem <= c.SymbolSize()
    requires sent == LdpcFrame(esi, n, |src|, rem, EncodingSymbol(c, src, n, esi)) && |hit| == |sent|
    requires hit != sent && hit[..OTI_SIZE] == sent[..OTI_SIZE]
    ensures LdpcSized(c, [hit, sent]) && SaneFirst(c, [hit, sent]) && HeaderIs(c, [hit, sent], n, |src|, rem)
    ensures Answer(c, [hit, sent], n, |src|).Some? ==> !AlwaysDecodes(c, [hit, sent], n, |src|, m)
  {
    EncodingSized(c, src, n, esi);
    FrameFields(sent, esi, n, |src|, rem, EncodingSymbol(c, src, n, esi));
    HitFields(sent, hit);
    var ldpc := [hit, sent];
    assert CrcMatches(ldpc[1]);
    if Answer(c, ldpc, n, |src|).Some? { ConflictSpoils(c, ldpc, n, |src|, rem, 0, 1, m); }
  }

  lemma HitFields(sent: seq<bv8>, hit: seq<bv8>)
    requires OTI_SIZE <= |sent| == |hit| && hit != sent && hit[..OTI_SIZE] == sent[..OTI_SIZE]
    ensures forall i :: 0 <= i <= 6 ==> FieldAt(hit, i) == FieldAt(sent, i)
    ensures SymbolOf(hit) != SymbolOf(sent)
  {
    forall i | 0 <= i < OTI_SIZE ensures hit[i] == sent[i] { assert hit[..OTI_SIZE][i] == sent[..OTI_SIZE][i]; }
    assert hit == hit[..OTI_SIZE] + hit[OTI_SIZE..] && sent == sent[..OTI_SIZE] + sent[OTI_SIZE..];
  }
}
