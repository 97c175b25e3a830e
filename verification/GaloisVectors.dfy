/** Multiplying and accumulating whole blocks of bytes by one field element. */
module GaloisVectors {
  import opened GaloisField
  import opened GaloisTables

  const UNROLL := 16

  // after is before with c times n bytes of src (from soff) added at doff.
  ghost predicate AddMulDone(before: seq<bv8>, after: seq<bv8>, doff: nat, src: seq<bv8>, soff: nat, c: bv8, n: nat)
    requires doff + n <= |before| && soff + n <= |src|
  {
    && |after| == |before|
    && forall q :: 0 <= q < |before| ==>
         after[q] == if doff <= q < doff + n then Add(before[q], Mul(c, src[soff + (q - doff)])) else before[q]
  }

  // after is before with c times n bytes of src (from soff) stored at doff.
  ghost predicate MulDone(before: seq<bv8>, after: seq<bv8>, doff: nat, src: seq<bv8>, soff: nat, c: bv8, n: nat)
    requires doff + n <= |before| && soff + n <= |src|
  {
    && |after| == |before|
    && forall q :: 0 <= q < |before| ==>
         after[q] == if doff <= q < doff + n then Mul(c, src[soff + (q - doff)]) else before[q]
  }

  // src still holds what it held when the loop began, except where the loop wrote.
  ghost predicate SourceKept(dst: array<bv8>, src: array<bv8>, before: seq<bv8>, from: seq<bv8>)
    reads src
  {
    if dst == src then before == from else src[..] == from
  }

  ghost predicate Apart(dst: array<bv8>, doff: nat, src: array<bv8>, soff: nat, n: nat) {
    dst != src || doff + n <= soff || soff + n <= doff
  }

  method AddMulByte(t: Tables, dst: array<bv8>, doff: nat, src: array<bv8>, soff: nat, c: bv8, ghost sz: nat, i: nat,
                    ghost before: seq<bv8>, ghost from: seq<bv8>)
    requires t.Valid() && dst !in t.Arrays() && i < sz
    requires |before| == dst.Length && doff + sz <= dst.Length && |from| == src.Length && soff + sz <= src.Length
    requires Apart(dst, doff, src, soff, sz) && SourceKept(dst, src, before, from)
    requires AddMulDone(before, dst[..], doff, from, soff, c, i)
    modifies dst
    ensures SourceKept(dst, src, before, from) && AddMulDone(before, dst[..], doff, from, soff, c, i + 1)
  {
    assert src[soff + i] == from[soff + i];
    var x := t.GfMul(c, src[soff + i]);
    AddIsXor(dst[doff + i], x);
    dst[doff + i] := dst[doff + i] ^ x;
  }

  // slow_addmul1, whose body is unrolled sixteen times
  method AddMul1(t: Tables, dst: array<bv8>, doff: nat, src: array<bv8>, soff: nat, c: bv8, sz: nat)
    requires t.Valid() && dst !in t.Arrays()
    requires doff + sz <= dst.Length && soff + sz <= src.Length && Apart(dst, doff, src, soff, sz)
    modifies dst
    ensures AddMulDone(old(dst[..]), dst[..], doff, old(src[..]), soff, c, sz)
  {
    var i := 0;
    ghost var before, from := dst[..], src[..];
    while i < sz - UNROLL + 1
      invariant i <= sz && SourceKept(dst, src, before, from)
      invariant AddMulDone(before, dst[..], doff, from, soff, c, i)
    {
      for u := 0 to UNROLL
        invariant SourceKept(dst, src, before, from)
        invariant AddMulDone(before, dst[..], doff, from, soff, c, i + u)
      {
        AddMulByte(t, dst, doff, src, soff, c, sz, i + u, before, from);
      }
      i := i + UNROLL;
    }
    while i < sz
      invariant i <= sz && SourceKept(dst, src, before, from)
      invariant AddMulDone(before, dst[..], doff, from, soff, c, i)
    {
      AddMulByte(t, dst, doff, src, soff, c, sz, i, before, from);
      i := i + 1;
    }
  }

  method AddMul(t: Tables, dst: array<bv8>, doff: nat, src: array<bv8>, soff: nat, c: bv8, sz: nat)
    requires t.Valid() && dst !in t.Arrays()
    requires doff + sz <= dst.Length && soff + sz <= src.Length && Apart(dst, doff, src, soff, sz)
    modifies dst
    ensures AddMulDone(old(dst[..]), dst[..], doff, old(src[..]), soff, c, sz)
  {
    if c != 0 {
      AddMul1(t, dst, doff, src, soff, c, sz);
    } else {
      forall q | doff <= q < doff + sz ensures dst[q] == Add(dst[q], Mul(c, src[soff + (q - doff)])) {
        MulZero(src[soff + (q - doff)]); AddZero(dst[q]);
      }
    }
  }

  method MulByte(t: Tables, dst: array<bv8>, doff: nat, src: array<bv8>, soff: nat, c: bv8, ghost sz: nat, i: nat,
                 ghost before: seq<bv8>, ghost from: seq<bv8>)
    requires t.Valid() && dst !in t.Arrays() && i < sz
    requires |before| == dst.Length && doff + sz <= dst.Length && |from| == src.Length && soff + sz <= src.Length
    requires Apart(dst, doff, src, soff, sz) && SourceKept(dst, src, before, from)
    requires MulDone(before, dst[..], doff, from, soff, c, i)
    modifies dst
    ensures SourceKept(dst, src, before, from) && MulDone(before, dst[..], doff, from, soff, c, i + 1)
  {
    assert src[soff + i] == from[soff + i];
    dst[doff + i] := t.GfMul(c, src[soff + i]);
  }

  // slow_mul1, unrolled like slow_addmul1
  method Mul1(t: Tables, dst: array<bv8>, doff: nat, src: array<bv8>, soff: nat, c: bv8, sz: nat)
    requires t.Valid() && dst !in t.Arrays()
    requires doff + sz <= dst.Length && soff + sz <= src.Length && Apart(dst, doff, src, soff, sz)
    modifies dst
    ensures MulDone(old(dst[..]), dst[..], doff, old(src[..]), soff, c, sz)
  {
    var i := 0;
    ghost var before, from := dst[..], src[..];
    while i < sz - UNROLL + 1
      invariant i <= sz && SourceKept(dst, src, before, from)
      invariant MulDone(before, dst[..], doff, from, soff, c, i)
    {
      for u := 0 to UNROLL
        invariant SourceKept(dst, src, before, from)
        invariant MulDone(before, dst[..], doff, from, soff, c, i + u)
      {
        MulByte(t, dst, doff, src, soff, c, sz, i + u, before, from);
      }
      i := i + UNROLL;
    }
    while i < sz
      invariant i <= sz && SourceKept(dst, src, before, from)
      invariant MulDone(before, dst[..], doff, from, soff, c, i)
    {
      MulByte(t, dst, doff, src, soff, c, sz, i, before, from);
      i := i + 1;
    }
  }

  method MulBlock(t: Tables, dst: array<bv8>, doff: nat, src: array<bv8>, soff: nat, c: bv8, sz: nat)
    requires t.Valid() && dst !in t.Arrays()
    requires doff + sz <= dst.Length && soff + sz <= src.Length && Apart(dst, doff, src, soff, sz)
    modifies dst
    ensures MulDone(old(dst[..]), dst[..], doff, old(src[..]), soff, c, sz)
  {
    if c != 0 {
      Mul1(t, dst, doff, src, soff, c, sz);
    } else {
      ghost var before, from := dst[..], src[..];
      for i := 0 to sz
        invariant MulDone(before, dst[..], doff, from, soff, c, i)
      {
        MulZero(from[soff + i]);
        dst[doff + i] := 0;
      }
    }
  }
}
