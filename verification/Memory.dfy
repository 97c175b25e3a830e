/** Copying bytes. */
module Memory {
  // memcpy
  method Copy(from: seq<bv8>, a: array<bv8>, at: nat)
    requires at + |from| <= a.Length
    modifies a
    ensures a[..] == old(a[..at]) + from + old(a[at + |from|..])
  {
    for i := 0 to |from|
      invariant forall k :: 0 <= k < i ==> a[at + k] == from[k]
      invariant forall k :: 0 <= k < at || at + i <= k < a.Length ==> a[k] == old(a[k])
    {
      a[at + i] := from[i];
    }
    assert forall k :: at <= k < at + |from| ==> a[k] == a[at + (k - at)];
  }
}
