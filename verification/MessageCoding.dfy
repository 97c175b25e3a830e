/** Encoding a message into frames and decoding what arrives of them. */
module MessageCoding {
  import opened Arithmetic
  import opened Sequences
  import opened ByteOrder
  import opened Crc32
  import opened MessageFraming

  datatype Failure = ExceededMaxSymbols | BelowN1Min | NoOtiFound | DecodeNotPossible

  datatype Outcome<+T> = Ok(value: T) | Error(failure: Failure)

  // ------------------------------------------------------------------ symbols of a message

  // The part of the message behind base, as long as a symbol, filled up with zeros
  function SourceAt(m: seq<bv8>, size: nat, base: nat): (s: Symbol)
    ensures |s| == size
  {
    seq(size, i requires 0 <= i => if base + i < |m| then m[base + i] else 0)
  }

  // i symbols of this size
  function Offset(size: nat, i: nat): nat { if i == 0 then 0 else Offset(size, i - 1) + size }

  lemma {:induction false} OffsetIsProduct(size: nat, i: nat)
    ensures Offset(size, i) == i * size
  {
    if i > 0 { OffsetIsProduct(size, i - 1); }
  }

  lemma {:induction false} OffsetGrows(size: nat, i: nat, j: nat)
    requires i <= j
    ensures Offset(size, i) <= Offset(size, j)
  {
    if i < j { OffsetGrows(size, i, j - 1); }
  }

  function Sources(m: seq<bv8>, size: nat, k: nat): (src: seq<Symbol>)
    ensures |src| == k && AllSized(src, size) && forall i :: 0 <= i < k ==> src[i] == SourceAt(m, size, Offset(size, i))
  {
    if k == 0 then [] else Sources(m, size, k - 1) + [SourceAt(m, size, Offset(size, k - 1))]
  }

  // Byte j of symbol i is that of the message at this place, and behind the message it is 0.
  lemma SymbolBytes(m: seq<bv8>, size: nat, k: nat, i: nat, j: nat)
    requires i < k && j < size
    ensures 0 <= i * size && Sources(m, size, k)[i][j] == if i * size + j < |m| then m[i * size + j] else 0
  {
    OffsetIsProduct(size, i);
  }

  lemma {:induction false} JoinSources(m: seq<bv8>, size: nat, k: nat)
    requires Offset(size, k) <= |m|
    ensures Flatten(Sources(m, size, k)) == m[..Offset(size, k)]
  {
    if k > 0 {
      var cut := Offset(size, k - 1);
      JoinSources(m, size, k - 1);
      assert Sources(m, size, k)[..k - 1] == Sources(m, size, k - 1);
      FullSymbol(m, size, cut);
      TakeMore(m, cut, size);
    }
  }

  lemma TakeMore(m: seq<bv8>, cut: nat, size: nat)
    requires cut + size <= |m|
    ensures m[..cut] + m[cut..cut + size] == m[..cut + size]
  {}

  // Symbols needed, and the bytes in the last one; 0 stands for a full symbol.
  function SymbolCount(len: nat, size: nat): (k: int)
    requires size > 0
  {
    (len + size - 1) / size
  }

  function LastLength(rem: nat, size: nat): nat { if rem != 0 then rem else size }

  lemma LengthSplits(len: nat, size: nat, k: int, rem: int)
    requires len > 0 && size > 0 && k == SymbolCount(len, size) && rem == len % size
    ensures k >= 1 && 0 <= rem < size && Offset(size, k - 1) + LastLength(rem, size) == len
  {
    var q := len / size;
    assert len == q * size + rem;
    if rem == 0 {
      assert len + size - 1 == q * size + (size - 1);
      DivisionIsUnique(len + size - 1, size, q, size - 1);
      assert q <= 0 ==> q * size <= 0;
      assert (q - 1) * size + size == q * size;
      OffsetIsProduct(size, k - 1);
    } else {
      assert len + size - 1 == (q + 1) * size + (rem - 1) by { assert (q + 1) * size == q * size + size; }
      DivisionIsUnique(len + size - 1, size, q + 1, rem - 1);
      OffsetIsProduct(size, k - 1);
    }
  }

  // The message is its full symbols and the beginning of the last one.
  lemma SymbolsCarryMessage(m: seq<bv8>, size: nat, k: nat, rem: nat)
    requires |m| > 0 && size > 0 && k == SymbolCount(|m|, size) && rem == |m| % size
    ensures k >= 1 && LastLength(rem, size) <= size
    ensures Flatten(Sources(m, size, k)[..k - 1]) + Sources(m, size, k)[k - 1][..LastLength(rem, size)] == m
  {
    LengthSplits(|m|, size, k, rem);
    var cut, last := Offset(size, k - 1), LastLength(rem, size);
    assert Sources(m, size, k)[..k - 1] == Sources(m, size, k - 1);
    JoinSources(m, size, k - 1);
    assert SourceAt(m, size, cut)[..last] == m[cut..cut + last];
  }

  // ------------------------------------------------------------------ encoding

  ghost predicate Fits(c: Codecs, n: nat, k: nat, rem: nat) {
    n < 0x1_0000 && k < 0x1_0000 && rem < 0x1_0000 && c.SymbolSize() > 0
  }

  // Nothing for a symbol of another size, which a lawful code does not make
  ghost function SentFrame(c: Codecs, src: seq<Symbol>, n: nat, rem: nat, esi: nat): (blocks: seq<seq<bv8>>)
    requires Fits(c, n, |src|, rem) && esi < n
  {
    if |EncodingSymbol(c, src, n, esi)| != c.SymbolSize() then []
    else Protected(c, LdpcFrame(esi, n, |src|, rem, EncodingSymbol(c, src, n, esi)), BLOCKS_PER_FRAME)
  }

  lemma EncodingSized(c: Codecs, src: seq<Symbol>, n: nat, esi: nat)
    requires ErasureCode(c) && AllSized(src, c.SymbolSize())
    ensures |EncodingSymbol(c, src, n, esi)| == c.SymbolSize()
  {}

  // Every frame of the message, in order
  ghost predicate AllSent(c: Codecs, src: seq<Symbol>, n: nat, rem: nat, frames: seq<seq<seq<bv8>>>)
    requires Fits(c, n, |src|, rem)
  {
    |frames| <= n && forall esi :: 0 <= esi < |frames| ==> frames[esi] == SentFrame(c, src, n, rem, esi)
  }

  // The blocks of a frame, each protected
  method ProtectFrame(c: Codecs, f: seq<bv8>) returns (blocks: seq<seq<bv8>>)
    requires |f| == BLOCKS_PER_FRAME * c.messageLen
    ensures blocks == Protected(c, f, BLOCKS_PER_FRAME)
  {
    blocks := [];
    for i := 0 to BLOCKS_PER_FRAME
      invariant i * c.messageLen <= |f| && blocks == Protected(c, f[..i * c.messageLen], i)
    {
      var at, end := i * c.messageLen, (i + 1) * c.messageLen;
      assert f[..end][..at] == f[..at] && f[..end][at..] == f[at..end];
      blocks := blocks + [(c.protect)(f[at..end])];
    }
    assert f[..|f|] == f;
  }

  // Header and symbol
  method BuildFrame(esi: nat, n: nat, k: nat, rem: nat, symbol: Symbol) returns (f: seq<bv8>)
    requires esi < 0x1_0000 && n < 0x1_0000 && k < 0x1_0000 && rem < 0x1_0000
    ensures f == LdpcFrame(esi, n, k, rem, symbol)
  {
    var crc := ComputeCrc32(symbol);
    f := Be16(esi) + Be16(n) + Be16(k) + Be16(rem) + CrcBytes(crc) + symbol;
  }

  method SourceSymbols(message: seq<bv8>, size: nat, k: nat, rem: nat) returns (src: seq<Symbol>)
    requires size > 0 && |message| > 0 && k == SymbolCount(|message|, size) && rem == |message| % size
    ensures src == Sources(message, size, k)
  {
    LengthSplits(|message|, size, k, rem);
    src := [];
    var base := 0;
    for esi := 0 to k - 1
      invariant base == Offset(size, esi) && base <= |message| && src == Sources(message, size, esi)
    {
      OffsetGrows(size, esi + 1, k - 1);
      FullSymbol(message, size, base);
      src := src + [message[base..base + size]];
      base := base + size;
    }
    var nbytes := if rem != 0 then rem else size;
    LastSymbol(message, size, base, nbytes);
    src := src + [message[base..base + nbytes] + seq(size - nbytes, i => 0 as bv8)];
  }

  lemma FullSymbol(m: seq<bv8>, size: nat, base: nat)
    requires base + size <= |m|
    ensures m[base..base + size] == SourceAt(m, size, base)
  {}

  lemma LastSymbol(m: seq<bv8>, size: nat, base: nat, nbytes: nat)
    requires base + nbytes == |m| && nbytes <= size
    ensures m[base..base + nbytes] + seq(size - nbytes, i => 0 as bv8) == SourceAt(m, size, base)
  {}

  // N1 is the number of repair symbols, but not more than 10.
  function N1(n: int, k: int): int { if n - k > 10 then 10 else n - k }

  /** dxwifi_encode for a code rate of num / den */
  method Encode(c: Codecs, message: seq<bv8>, num: nat, den: nat) returns (r: Outcome<seq<seq<seq<bv8>>>>)
    requires ErasureCode(c) && 0 < c.SymbolSize() < 0x1_0000 && |message| > 0 && 0 < num <= den
    requires SymbolCount(|message|, c.SymbolSize()) * den / num < 0x1_0000
    ensures var size := c.SymbolSize();
            var k, rem := SymbolCount(|message|, size), |message| % size;
            var n := k * den / num;
            match r
            case Error(e) =>
              && e == (if n > MAX_SYMBOLS then ExceededMaxSymbols else BelowN1Min)
              && (n > MAX_SYMBOLS || n - k < N1_MIN)
            case Ok(frames) =>
              && n <= MAX_SYMBOLS && n - k >= N1_MIN && 1 <= k && 0 <= rem && |frames| == n && Fits(c, n, k, rem)
              && AllSent(c, Sources(message, size, k), n, rem, frames)
  {
    var size := c.SymbolSize();
    var rem, k := |message| % size, SymbolCount(|message|, size);
    LengthSplits(|message|, size, k, rem);
    var n := k * den / num;
    if n > MAX_SYMBOLS {
      return Error(ExceededMaxSymbols);
    }
    if N1(n, k) < N1_MIN {
      return Error(BelowN1Min);
    }
    var frames := BuildFrames(c, message, n, k, rem);
    return Ok(frames);
  }

  method EncodeFrame(c: Codecs, src: seq<Symbol>, n: nat, rem: nat, esi: nat) returns (blocks: seq<seq<bv8>>)
    requires ErasureCode(c) && AllSized(src, c.SymbolSize()) && Fits(c, n, |src|, rem) && esi < n
    ensures |EncodingSymbol(c, src, n, esi)| == c.SymbolSize() && blocks == SentFrame(c, src, n, rem, esi)
  {
    EncodingSized(c, src, n, esi);
    var symbol := if esi < |src| then src[esi] else (c.repair)(src, n, esi);
    var f := BuildFrame(esi, n, |src|, rem, symbol);
    blocks := ProtectFrame(c, f);
  }

  lemma OneMoreSent(c: Codecs, src: seq<Symbol>, n: nat, rem: nat, frames: seq<seq<seq<bv8>>>, blocks: seq<seq<bv8>>)
    requires Fits(c, n, |src|, rem) && AllSent(c, src, n, rem, frames) && |frames| < n
    requires blocks == SentFrame(c, src, n, rem, |frames|)
    ensures AllSent(c, src, n, rem, frames + [blocks])
  {
    var all := frames + [blocks];
    forall esi | 0 <= esi < |all| ensures all[esi] == SentFrame(c, src, n, rem, esi) {
      if esi < |frames| { assert all[esi] == frames[esi]; } else { assert all[esi] == blocks; }
    }
  }

  method BuildFrames(c: Codecs, message: seq<bv8>, n: nat, k: nat, rem: nat) returns (frames: seq<seq<seq<bv8>>>)
    requires ErasureCode(c) && 0 < c.SymbolSize() && |message| > 0 && Fits(c, n, k, rem) && k <= n
    requires k == SymbolCount(|message|, c.SymbolSize()) && rem == |message| % c.SymbolSize()
    ensures |frames| == n && AllSent(c, Sources(message, c.SymbolSize(), k), n, rem, frames)
  {
    var src := SourceSymbols(message, c.SymbolSize(), k, rem);
    frames := [];
    for esi := 0 to n
      invariant |frames| == esi && AllSent(c, src, n, rem, frames)
    {
      var blocks := EncodeFrame(c, src, n, rem, esi);
      OneMoreSent(c, src, n, rem, frames, blocks);
      frames := frames + [blocks];
    }
  }
}
