/**
 * Byte buffers: the element type, and the in-place copy (`std::copy`) that
 * every field writer of the wire codecs uses.
 */
module Bytes {

  type byte = x: int | 0 <= x < 256

  /** `s` with the bytes at `off .. off + |x|` replaced by `x`. */
  function Splice(s: seq<byte>, off: nat, x: seq<byte>): (r: seq<byte>)
    requires off + |x| <= |s|
    ensures |r| == |s|
    ensures r[off..off + |x|] == x
    ensures forall i :: 0 <= i < |s| && !(off <= i < off + |x|) ==> r[i] == s[i]
  {
    s[..off] + x + s[off + |x|..]
  }

  /** Two ranges `[a, a + n)` and `[b, b + m)` share no index. */
  predicate Disjoint(a: nat, n: nat, b: nat, m: nat)
  {
    a + n <= b || b + m <= a
  }

  /** Splicing into one range leaves a disjoint range as it was. */
  lemma SpliceKeepsDisjoint(s: seq<byte>, off: nat, x: seq<byte>, b: nat, m: nat)
    requires off + |x| <= |s| && b + m <= |s|
    requires Disjoint(off, |x|, b, m)
    ensures Splice(s, off, x)[b..b + m] == s[b..b + m]
  {
  }

  /** `std::copy(src.begin(), src.end(), dst.begin() + off)`. */
  method CopyInto(dst: array<byte>, off: nat, src: seq<byte>)
    requires off + |src| <= dst.Length
    modifies dst
    ensures dst[..] == Splice(old(dst[..]), off, src)
  {
    var i := 0;
    while i < |src|
      invariant 0 <= i <= |src|
      invariant forall k :: 0 <= k < dst.Length && !(off <= k < off + i) ==> dst[k] == old(dst[k])
      invariant forall k :: off <= k < off + i ==> dst[k] == src[k - off]
    {
      dst[off + i] := src[i];
      i := i + 1;
    }
    assert dst[..] == Splice(old(dst[..]), off, src);
  }
}
