/** Messages cut into symbols, with an erasure code across frames and a byte-correcting code inside each frame. */
module MessageFraming {
  import opened Options
  import opened Sequences
  import opened ByteOrder
  import opened Crc32

  type Symbol = seq<bv8>

  const MAX_SYMBOLS := 50000
  const N1_MIN := 3
  const BLOCKS_PER_FRAME := 5
  const OTI_SIZE := 12

  // The two codes, of which only Lawful is assumed. close tells of a received block whether the errors in it can be
  // corrected; solve is given the symbols in the order they were received.
  datatype Codecs = Codecs(messageLen: nat, protect: seq<bv8> -> seq<bv8>, correct: seq<bv8> -> seq<bv8>,
                           close: (seq<bv8>, seq<bv8>) -> bool,
                           repair: (seq<Symbol>, nat, nat) -> Symbol,
                           solve: (nat, nat, seq<(nat, Symbol)>) -> Option<seq<Symbol>>)
  {
    function SymbolSize(): int { BLOCKS_PER_FRAME * messageLen - OTI_SIZE }
  }

  // Symbol esi of a message encoded with n symbols: source symbols first, then repair symbols
  ghost function EncodingSymbol(c: Codecs, src: seq<Symbol>, n: nat, esi: nat): Symbol {
    if esi < |src| then src[esi] else (c.repair)(src, n, esi)
  }

  ghost predicate AllSized(src: seq<Symbol>, size: int) { forall i :: 0 <= i < |src| ==> |src[i]| == size }

  // Every symbol given to the decoder is the one the encoder made.
  ghost predicate Genuine(c: Codecs, src: seq<Symbol>, n: nat, got: seq<(nat, Symbol)>) {
    forall i :: 0 <= i < |got| ==> got[i].0 < n && got[i].1 == EncodingSymbol(c, src, n, got[i].0)
  }

  ghost predicate ByteCode(c: Codecs) {
    && (forall w {:trigger (c.correct)(w)} :: |(c.correct)(w)| == c.messageLen)
    && (forall m, w {:trigger (c.close)(w, (c.protect)(m))} :: |m| == c.messageLen && (c.close)(w, (c.protect)(m)) ==>
         (c.correct)(w) == m)
  }

  ghost predicate ErasureCode(c: Codecs) {
    && (forall src, n, esi {:trigger (c.repair)(src, n, esi)} :: |(c.repair)(src, n, esi)| == c.SymbolSize())
    && (forall n, k, got {:trigger (c.solve)(n, k, got)} :: (c.solve)(n, k, got).Some? ==>
         |(c.solve)(n, k, got).value| == k && AllSized((c.solve)(n, k, got).value, c.SymbolSize()))
    && (forall src, n, got {:trigger Genuine(c, src, n, got)} ::
         Genuine(c, src, n, got) && AllSized(src, c.SymbolSize()) && (c.solve)(n, |src|, got).Some?
         ==> (c.solve)(n, |src|, got).value == src)
  }

  // What is assumed of the codes: correctable blocks are corrected, and the erasure code makes no mistakes.
  ghost predicate Lawful(c: Codecs) { c.SymbolSize() > 0 && ByteCode(c) && ErasureCode(c) }

  // ------------------------------------------------------------------ one frame

  // The checksum, the most significant byte first
  function CrcBytes(crc: bv32): (b: seq<bv8>)
    ensures |b| == 4
  {
    [((crc >> 24) & 0xff) as bv8, ((crc >> 16) & 0xff) as bv8, ((crc >> 8) & 0xff) as bv8, (crc & 0xff) as bv8]
  }

  // Four bytes as a checksum
  function CrcOf(w: bv8, x: bv8, y: bv8, z: bv8): bv32 {
    ((w as bv32) << 24) | ((x as bv32) << 16) | ((y as bv32) << 8) | (z as bv32)
  }

  lemma CrcOfBytes(crc: bv32)
    ensures var b := CrcBytes(crc); CrcOf(b[0], b[1], b[2], b[3]) == crc
  {}

  lemma BytesOfCrc(w: bv8, x: bv8, y: bv8, z: bv8, crc: bv32)
    requires crc == CrcOf(w, x, y, z)
    ensures ((crc >> 24) & 0xff) as bv8 == w && ((crc >> 16) & 0xff) as bv8 == x
    ensures ((crc >> 8) & 0xff) as bv8 == y && (crc & 0xff) as bv8 == z
  {}

  // The transmission information in front of a symbol: its number, n, k, the length of the last source symbol, checksum
  ghost function LdpcFrame(esi: nat, n: nat, k: nat, rem: nat, symbol: Symbol): (f: seq<bv8>)
    requires esi < 0x1_0000 && n < 0x1_0000 && k < 0x1_0000 && rem < 0x1_0000
    ensures |f| == OTI_SIZE + |symbol|
  {
    Be16(esi) + Be16(n) + Be16(k) + Be16(rem) + CrcBytes(Checksum(symbol)) + symbol
  }

  function SymbolOf(frame: seq<bv8>): Symbol
    requires OTI_SIZE <= |frame|
  {
    frame[OTI_SIZE..]
  }

  ghost predicate CrcMatches(frame: seq<bv8>)
    requires OTI_SIZE <= |frame|
  {
    frame[8..12] == CrcBytes(Checksum(SymbolOf(frame)))
  }

  lemma FrameFields(f: seq<bv8>, esi: nat, n: nat, k: nat, rem: nat, symbol: Symbol)
    requires esi < 0x1_0000 && n < 0x1_0000 && k < 0x1_0000 && rem < 0x1_0000 && f == LdpcFrame(esi, n, k, rem, symbol)
    ensures FieldAt(f, 0) == esi && FieldAt(f, 2) == n && FieldAt(f, 4) == k && FieldAt(f, 6) == rem
    ensures SymbolOf(f) == symbol && CrcMatches(f)
  {
    FrameParts(f, esi, n, k, rem, symbol);
    FieldRoundTrip(f, 0, esi); FieldRoundTrip(f, 2, n); FieldRoundTrip(f, 4, k); FieldRoundTrip(f, 6, rem);
  }

  lemma FrameParts(f: seq<bv8>, esi: nat, n: nat, k: nat, rem: nat, symbol: Symbol)
    requires esi < 0x1_0000 && n < 0x1_0000 && k < 0x1_0000 && rem < 0x1_0000 && f == LdpcFrame(esi, n, k, rem, symbol)
    ensures f[0..2] == Be16(esi) && f[2..4] == Be16(n) && f[4..6] == Be16(k) && f[6..8] == Be16(rem)
    ensures f[8..12] == CrcBytes(Checksum(symbol)) && f[12..] == symbol
  {}

  // The bytes of a frame: four numbers and the checksum, each with its most significant byte first, and the symbol
  lemma FrameBytes(f: seq<bv8>, esi: nat, n: nat, k: nat, rem: nat, symbol: Symbol)
    requires esi < 0x1_0000 && n < 0x1_0000 && k < 0x1_0000 && rem < 0x1_0000 && f == LdpcFrame(esi, n, k, rem, symbol)
    ensures f[0] as int == esi / 0x100 && f[1] as int == esi % 0x100
    ensures f[2] as int == n / 0x100 && f[3] as int == n % 0x100
    ensures f[4] as int == k / 0x100 && f[5] as int == k % 0x100
    ensures f[6] as int == rem / 0x100 && f[7] as int == rem % 0x100
    ensures f[12..] == symbol
    ensures ((f[8] as bv32) << 24) | ((f[9] as bv32) << 16) | ((f[10] as bv32) << 8) | (f[11] as bv32)
            == Checksum(symbol)
  {
    FrameParts(f, esi, n, k, rem, symbol);
    FieldRoundTrip(f, 0, esi); FieldRoundTrip(f, 2, n); FieldRoundTrip(f, 4, k); FieldRoundTrip(f, 6, rem);
    MatchIff(f);
  }

  // A frame is taken for valid if and only if the four bytes behind the numbers are the checksum of what follows them.
  lemma MatchIff(f: seq<bv8>)
    requires OTI_SIZE <= |f|
    ensures CrcMatches(f) <==>
              ((f[8] as bv32) << 24) | ((f[9] as bv32) << 16) | ((f[10] as bv32) << 8) | (f[11] as bv32)
              == Checksum(f[12..])
  {
    CrcOfBytes(Checksum(f[12..]));
    assert f[8..12] == [f[8], f[9], f[10], f[11]];
    BytesOfCrc(f[8], f[9], f[10], f[11], CrcOf(f[8], f[9], f[10], f[11]));
  }

  // A frame whose checksum is the one sent and whose symbol is not, but differs only inside four consecutive bytes, is
  // not taken for valid.
  lemma RuinedSymbol(sent: seq<bv8>, hit: seq<bv8>, at: nat)
    requires OTI_SIZE <= |sent| == |hit| && CrcMatches(sent) && hit[8..12] == sent[8..12]
    requires SymbolOf(hit) != SymbolOf(sent) && OTI_SIZE <= at <= |sent|
    requires forall i :: OTI_SIZE <= i < |sent| && !(at <= i < at + 4) ==> hit[i] == sent[i]
    ensures !CrcMatches(hit)
  {
    var m, m' := SymbolOf(sent), SymbolOf(hit);
    forall i | 0 <= i < |m| && !(at - OTI_SIZE <= i < at - OTI_SIZE + 4) ensures m[i] == m'[i] {
      assert hit[i + OTI_SIZE] == sent[i + OTI_SIZE];
    }
    BurstDetected(m, m', at - OTI_SIZE);
    CrcOfBytes(Checksum(m)); CrcOfBytes(Checksum(m'));
  }

  // A frame as five blocks of its bytes, each protected
  ghost function Protected(c: Codecs, f: seq<bv8>, n: nat): (blocks: seq<seq<bv8>>)
    requires |f| == n * c.messageLen
    ensures |blocks| == n
  {
    if n == 0 then []
    else
      assert n * c.messageLen == (n - 1) * c.messageLen + c.messageLen;
      var cut := (n - 1) * c.messageLen;
      Protected(c, f[..cut], n - 1) + [(c.protect)(f[cut..])]
  }

  // The corrected blocks, one behind the other
  ghost function Corrected(c: Codecs, blocks: seq<seq<bv8>>): seq<bv8> {
    if blocks == [] then [] else Corrected(c, blocks[..|blocks| - 1]) + (c.correct)(blocks[|blocks| - 1])
  }

  // Where block i lies
  ghost predicate BlockAt(len: nat, i: nat, at: nat, end: nat) { at == i * len && end == at + len }

  lemma {:induction false} ProtectedAt(c: Codecs, f: seq<bv8>, n: nat, i: nat, at: nat, end: nat)
    requires |f| == n * c.messageLen && i < n && BlockAt(c.messageLen, i, at, end)
    ensures end <= |f| && Protected(c, f, n)[i] == (c.protect)(f[at..end])
  {
    assert n * c.messageLen == (n - 1) * c.messageLen + c.messageLen;
    var cut := (n - 1) * c.messageLen;
    if i < n - 1 {
      ProtectedAt(c, f[..cut], n - 1, i, at, end);
      SliceOfPrefix(f, cut, at, end);
    } else {
      assert f[cut..] == f[at..end];
    }
  }

  lemma {:induction false} CorrectedAt(c: Codecs, blocks: seq<seq<bv8>>, i: nat, at: nat, end: nat)
    requires ByteCode(c) && i < |blocks| && BlockAt(c.messageLen, i, at, end)
    ensures end <= |Corrected(c, blocks)| && Corrected(c, blocks)[at..end] == (c.correct)(blocks[i])
  {
    var l := |blocks| - 1;
    var init, last := Corrected(c, blocks[..l]), (c.correct)(blocks[l]);
    if i < l {
      CorrectedAt(c, blocks[..l], i, at, end);
      InFirst(init, last, at, end);
    } else {
      CorrectedSize(c, blocks[..l]);
      assert (init + last)[|init|..] == last;
    }
  }

  lemma InFirst(a: seq<bv8>, b: seq<bv8>, i: nat, j: nat)
    requires i <= j <= |a|
    ensures (a + b)[i..j] == a[i..j]
  {}

  lemma {:induction false} CorrectedSize(c: Codecs, blocks: seq<seq<bv8>>)
    requires ByteCode(c)
    ensures |Corrected(c, blocks)| == |blocks| * c.messageLen
  {
    if blocks != [] { CorrectedSize(c, blocks[..|blocks| - 1]); }
  }

  ghost predicate Correctable(c: Codecs, got: seq<seq<bv8>>, sent: seq<seq<bv8>>) {
    |got| == |sent| && forall i :: 0 <= i < |got| ==> (c.close)(got[i], sent[i])
  }

  lemma CorrectableParts(c: Codecs, got: seq<seq<bv8>>, sent: seq<seq<bv8>>, last: seq<bv8>)
    requires Correctable(c, got, sent + [last])
    ensures var l := |sent|; |got| == l + 1 && Correctable(c, got[..l], sent) && (c.close)(got[l], last)
  {
    assert (sent + [last])[|sent|] == last;
    forall i | 0 <= i < |sent| ensures (c.close)(got[i], sent[i]) { assert (sent + [last])[i] == sent[i]; }
  }

  lemma Corrects(c: Codecs, m: seq<bv8>, w: seq<bv8>)
    requires ByteCode(c) && |m| == c.messageLen && (c.close)(w, (c.protect)(m))
    ensures (c.correct)(w) == m
  {}

  lemma {:induction false} CorrectionRestores(c: Codecs, f: seq<bv8>, n: nat, got: seq<seq<bv8>>)
    requires ByteCode(c) && |f| == n * c.messageLen && Correctable(c, got, Protected(c, f, n))
    ensures Corrected(c, got) == f
  {
    if n > 0 {
      assert n * c.messageLen == (n - 1) * c.messageLen + c.messageLen;
      var cut := (n - 1) * c.messageLen;
      CorrectableParts(c, got, Protected(c, f[..cut], n - 1), (c.protect)(f[cut..]));
      CorrectionRestores(c, f[..cut], n - 1, got[..n - 1]);
      Corrects(c, f[cut..], got[n - 1]);
    }
  }
}
