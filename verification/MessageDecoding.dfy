/** Decoding received frames. */
module MessageDecoding {
  import opened Options
  import opened Sequences
  import opened ByteOrder
  import opened Crc32
  import opened MessageFraming
  import opened MessageCoding

  type Received = seq<seq<seq<bv8>>>

  // Each frame is five blocks.
  ghost predicate FrameSized(c: Codecs, frames: Received) {
    forall i :: 0 <= i < |frames| ==> |frames[i]| == BLOCKS_PER_FRAME
  }

  ghost predicate LdpcSized(c: Codecs, ldpc: seq<seq<bv8>>) {
    c.SymbolSize() > 0 && forall i :: 0 <= i < |ldpc| ==> |ldpc[i]| == OTI_SIZE + c.SymbolSize()
  }

  ghost function LdpcOf(c: Codecs, frames: Received): (ldpc: seq<seq<bv8>>)
    requires ByteCode(c) && c.SymbolSize() > 0 && FrameSized(c, frames)
    ensures |ldpc| == |frames| && LdpcSized(c, ldpc)
            && forall i :: 0 <= i < |ldpc| ==> ldpc[i] == Corrected(c, frames[i])
  {
    AllCorrectedSize(c, frames);
    seq(|frames|, i requires 0 <= i < |frames| => Corrected(c, frames[i]))
  }

  lemma AllCorrectedSize(c: Codecs, frames: Received)
    requires ByteCode(c) && FrameSized(c, frames)
    ensures forall i :: 0 <= i < |frames| ==> |Corrected(c, frames[i])| == OTI_SIZE + c.SymbolSize()
  {
    forall i | 0 <= i < |frames|
      ensures |Corrected(c, frames[i])| == OTI_SIZE + c.SymbolSize()
    {
      CorrectedSize(c, frames[i]);
    }
  }

  // Every frame is long enough for a header.
  ghost predicate Headed(ldpc: seq<seq<bv8>>) { forall i :: 0 <= i < |ldpc| ==> OTI_SIZE <= |ldpc[i]| }

  // The first frame from i on whose checksum is right, or the number of frames
  ghost function FirstValid(ldpc: seq<seq<bv8>>, i: nat): (r: nat)
    requires Headed(ldpc) && i <= |ldpc|
    ensures i <= r <= |ldpc| && (r < |ldpc| ==> CrcMatches(ldpc[r])) && forall j :: i <= j < r ==> !CrcMatches(ldpc[j])
    decreases |ldpc| - i
  {
    if i == |ldpc| || CrcMatches(ldpc[i]) then i else FirstValid(ldpc, i + 1)
  }

  // The symbols handed to the erasure decoder; a number above n is refused.
  ghost function Handed(ldpc: seq<seq<bv8>>, n: nat, m: nat): seq<(nat, Symbol)>
    requires Headed(ldpc) && m <= |ldpc|
  {
    if m == 0 then []
    else if FieldAt(ldpc[m - 1], 0) > n then Handed(ldpc, n, m - 1)
    else Handed(ldpc, n, m - 1) + [(FieldAt(ldpc[m - 1], 0), SymbolOf(ldpc[m - 1]))]
  }

  // Frames at these places, in order
  ghost predicate Ascending(at: seq<nat>, m: nat) {
    (forall i, j :: 0 <= i < j < |at| ==> at[i] < at[j]) && forall i :: 0 <= i < |at| ==> at[i] < m
  }

  ghost predicate Accepted(f: seq<bv8>, n: nat)
    requires OTI_SIZE <= |f|
  {
    FieldAt(f, 0) <= n
  }

  ghost function HandedOf(f: seq<bv8>): (nat, Symbol)
    requires OTI_SIZE <= |f|
  {
    (FieldAt(f, 0), SymbolOf(f))
  }

  // ... are just those of which the symbols are handed over.
  ghost predicate HandedFrom(ldpc: seq<seq<bv8>>, n: nat, m: nat, at: seq<nat>, got: seq<(nat, Symbol)>)
    requires Headed(ldpc) && m <= |ldpc|
  {
    && Ascending(at, m) && |at| == |got|
    && (forall k :: 0 <= k < m && Accepted(ldpc[k], n) ==> k in at)
    && forall i :: 0 <= i < |at| ==> Accepted(ldpc[at[i]], n) && got[i] == HandedOf(ldpc[at[i]])
  }

  lemma NextHanded(ldpc: seq<seq<bv8>>, n: nat, m: nat, at: seq<nat>, got: seq<(nat, Symbol)>)
    requires Headed(ldpc) && m < |ldpc| && HandedFrom(ldpc, n, m, at, got)
    ensures !Accepted(ldpc[m], n) ==> HandedFrom(ldpc, n, m + 1, at, got)
    ensures Accepted(ldpc[m], n) ==> HandedFrom(ldpc, n, m + 1, at + [m], got + [HandedOf(ldpc[m])])
  {
    var at' := at + [m];
    assert at'[|at|] == m;
    forall k | 0 <= k < m && Accepted(ldpc[k], n) ensures k in at' {
      var i :| 0 <= i < |at| && at[i] == k;
      assert at'[i] == k;
    }
  }

  // The symbols of just the frames whose numbers are not above n, in the order of the frames
  lemma {:induction false} HandedInOrder(ldpc: seq<seq<bv8>>, n: nat, m: nat) returns (at: seq<nat>)
    requires Headed(ldpc) && m <= |ldpc|
    ensures HandedFrom(ldpc, n, m, at, Handed(ldpc, n, m))
  {
    at := [];
    if m > 0 {
      at := HandedInOrder(ldpc, n, m - 1);
      NextHanded(ldpc, n, m - 1, at, Handed(ldpc, n, m - 1));
      if Accepted(ldpc[m - 1], n) { at := at + [m - 1]; }
    }
  }

  // A header for which a decoder can be set up and of which a message can be made
  ghost predicate SaneHeader(c: Codecs, f: seq<bv8>)
    requires OTI_SIZE <= |f|
  {
    FieldAt(f, 4) >= 1 && FieldAt(f, 2) - FieldAt(f, 4) >= N1_MIN && FieldAt(f, 6) <= c.SymbolSize()
  }

  // The only header that is read is that of the first frame whose checksum is right.
  ghost predicate SaneFirst(c: Codecs, ldpc: seq<seq<bv8>>)
    requires LdpcSized(c, ldpc)
  {
    var i := FirstValid(ldpc, 0);
    i < |ldpc| ==> SaneHeader(c, ldpc[i])
  }

  // The full symbols and the used part of the last one
  ghost function MessageOf(c: Codecs, src: seq<Symbol>, rem: nat): seq<bv8>
    requires src != [] && AllSized(src, c.SymbolSize()) && 0 < c.SymbolSize() && rem <= c.SymbolSize()
  {
    Flatten(src[..|src| - 1]) + src[|src| - 1][..LastLength(rem, c.SymbolSize())]
  }

  ghost function Decoded(c: Codecs, ldpc: seq<seq<bv8>>): Outcome<seq<bv8>>
    requires ErasureCode(c) && LdpcSized(c, ldpc) && SaneFirst(c, ldpc)
  {
    var idx := FirstValid(ldpc, 0);
    if idx == |ldpc| then Error(NoOtiFound)
    else
      var n, k, rem := FieldAt(ldpc[idx], 2), FieldAt(ldpc[idx], 4), FieldAt(ldpc[idx], 6);
      match (c.solve)(n, k, Handed(ldpc, n, |ldpc|))
      case None => Error(DecodeNotPossible)
      case Some(src) => Ok(MessageOf(c, src, rem))
  }

  // ------------------------------------------------------------------ the decoder

  method CorrectFrame(c: Codecs, blocks: seq<seq<bv8>>) returns (f: seq<bv8>)
    ensures f == Corrected(c, blocks)
  {
    f := [];
    for j := 0 to |blocks|
      invariant f == Corrected(c, blocks[..j])
    {
      assert blocks[..j + 1][..j] == blocks[..j];
      f := f + (c.correct)(blocks[j]);
    }
    assert blocks[..|blocks|] == blocks;
  }

  method CorrectFrames(c: Codecs, frames: Received) returns (ldpc: seq<seq<bv8>>)
    requires ByteCode(c) && c.SymbolSize() > 0 && FrameSized(c, frames)
    ensures ldpc == LdpcOf(c, frames)
  {
    ldpc := [];
    for i := 0 to |frames|
      invariant |ldpc| == i && forall j :: 0 <= j < i ==> ldpc[j] == Corrected(c, frames[j])
    {
      var f := CorrectFrame(c, frames[i]);
      ldpc := ldpc + [f];
    }
  }

  method CheckCrc(f: seq<bv8>) returns (ok: bool)
    requires OTI_SIZE <= |f|
    ensures ok == CrcMatches(f)
  {
    var crc := ComputeCrc32(f[OTI_SIZE..]);
    ok := CrcBytes(crc) == f[8..12];
  }

  method FindOti(ldpc: seq<seq<bv8>>) returns (idx: nat)
    requires Headed(ldpc)
    ensures idx == FirstValid(ldpc, 0)
  {
    idx := 0;
    while idx < |ldpc|
      invariant idx <= |ldpc| && FirstValid(ldpc, 0) == FirstValid(ldpc, idx)
    {
      var ok := CheckCrc(ldpc[idx]);
      if ok {
        return;
      }
      idx := idx + 1;
    }
  }

  method HandSymbols(ldpc: seq<seq<bv8>>, n: nat) returns (got: seq<(nat, Symbol)>)
    requires Headed(ldpc)
    ensures got == Handed(ldpc, n, |ldpc|)
  {
    got := [];
    for i := 0 to |ldpc|
      invariant got == Handed(ldpc, n, i)
    {
      var esi := FieldAt(ldpc[i], 0);
      if esi > n {
      } else {
        got := got + [(esi, SymbolOf(ldpc[i]))];
      }
    }
  }

  method CopyOut(c: Codecs, src: seq<Symbol>, rem: nat) returns (m: seq<bv8>)
    requires src != [] && AllSized(src, c.SymbolSize()) && 0 < c.SymbolSize() && rem <= c.SymbolSize()
    ensures m == MessageOf(c, src, rem)
  {
    m := [];
    for esi := 0 to |src| - 1
      invariant m == Flatten(src[..esi])
    {
      assert src[..esi + 1][..esi] == src[..esi];
      m := m + src[esi];
    }
    var nbytes := if rem != 0 then rem else c.SymbolSize();
    m := m + src[|src| - 1][..nbytes];
  }

  /** dxwifi_decode */
  method Decode(c: Codecs, frames: Received) returns (r: Outcome<seq<bv8>>)
    requires Lawful(c) && FrameSized(c, frames) && SaneFirst(c, LdpcOf(c, frames))
    ensures r == Decoded(c, LdpcOf(c, frames))
  {
    var ldpc := CorrectFrames(c, frames);
    var idx := FindOti(ldpc);
    if idx >= |ldpc| {
      return Error(NoOtiFound);
    }
    var n, k, rem := FieldAt(ldpc[idx], 2), FieldAt(ldpc[idx], 4), FieldAt(ldpc[idx], 6);
    var got := HandSymbols(ldpc, n);
    var solved := (c.solve)(n, k, got);
    if solved.None? {
      return Error(DecodeNotPossible);
    }
    var m := CopyOut(c, solved.value, rem);
    return Ok(m);
  }
}
