/**
 * `byte_swap_if_big_endian`: the wire format is little endian, so a scalar is
 * byte-swapped on a big-endian host and passed through on a little-endian
 * one.  Scalars are unsigned values of 1, 2, 4 or 8 bytes; the host byte
 * order, a compile-time choice in the source, is a parameter here.
 */
module Endianness {
  import opened Bytes

  datatype Endian = Little | Big

  function Pow256(n: nat): (r: nat)
    ensures r > 0
  {
    if n == 0 then 1 else 256 * Pow256(n - 1)
  }

  /** The `width` bytes of `v`, least significant first. */
  function LittleEndianBytes(width: nat, v: nat): (r: seq<byte>)
    ensures |r| == width
  {
    if width == 0 then [] else [v % 256] + LittleEndianBytes(width - 1, v / 256)
  }

  /** The value of bytes read least significant first. */
  function FromLittleEndian(b: seq<byte>): (v: nat)
    ensures v < Pow256(|b|)
  {
    if b == [] then 0 else b[0] + 256 * FromLittleEndian(b[1..])
  }

  function Reverse(s: seq<byte>): (r: seq<byte>)
    ensures |r| == |s|
    ensures forall i :: 0 <= i < |s| ==> r[i] == s[|s| - 1 - i]
  {
    if s == [] then [] else Reverse(s[1..]) + [s[0]]
  }

  lemma ReverseReverse(s: seq<byte>)
    ensures Reverse(Reverse(s)) == s
  {
  }

  lemma {:induction false} FromToLittleEndian(width: nat, v: nat)
    requires v < Pow256(width)
    ensures FromLittleEndian(LittleEndianBytes(width, v)) == v
  {
    if width > 0 {
      FromToLittleEndian(width - 1, v / 256);
      assert LittleEndianBytes(width, v)[1..] == LittleEndianBytes(width - 1, v / 256);
    }
  }

  lemma {:induction false} ToFromLittleEndian(b: seq<byte>)
    ensures LittleEndianBytes(|b|, FromLittleEndian(b)) == b
  {
    if b != [] {
      ToFromLittleEndian(b[1..]);
      var v := FromLittleEndian(b);
      assert v % 256 == b[0] && v / 256 == FromLittleEndian(b[1..]);
    }
  }

  /** The widths the source's compile-time branches handle. */
  predicate SupportedWidth(width: nat)
  {
    width == 1 || width == 2 || width == 4 || width == 8
  }

  /** The bytes a scalar occupies in the memory of a host. */
  function Representation(host: Endian, width: nat, v: nat): (r: seq<byte>)
    ensures |r| == width
  {
    match host
    case Little => LittleEndianBytes(width, v)
    case Big => Reverse(LittleEndianBytes(width, v))
  }

  /** The scalar a host reads from bytes in its memory. */
  function ValueOf(host: Endian, b: seq<byte>): (v: nat)
    ensures v < Pow256(|b|)
  {
    match host
    case Little => FromLittleEndian(b)
    case Big => FromLittleEndian(Reverse(b))
  }

  /** `byte_swap_if_big_endian(scalar)` for a scalar of `width` bytes. */
  function ByteSwapIfBigEndian(host: Endian, width: nat, v: nat): (r: nat)
    requires SupportedWidth(width) && v < Pow256(width)
    ensures r < Pow256(width)
  {
    if host == Little then v
    else if width == 1 then v
    else FromLittleEndian(Reverse(LittleEndianBytes(width, v)))
  }

  /** On a little-endian host the function is the identity. */
  lemma LittleEndianHostIsIdentity(width: nat, v: nat)
    requires SupportedWidth(width) && v < Pow256(width)
    ensures ByteSwapIfBigEndian(Little, width, v) == v
  {
  }

  /** A one-byte scalar is returned unchanged on every host. */
  lemma OneByteUnchanged(host: Endian, v: nat)
    requires v < 256
    ensures ByteSwapIfBigEndian(host, 1, v) == v
  {
  }

  /** On a big-endian host a multi-byte scalar has its byte order reversed. */
  lemma {:induction false} BigEndianHostReverses(width: nat, v: nat)
    requires SupportedWidth(width) && width > 1 && v < Pow256(width)
    ensures LittleEndianBytes(width, ByteSwapIfBigEndian(Big, width, v)) == Reverse(LittleEndianBytes(width, v))
  {
    ToFromLittleEndian(Reverse(LittleEndianBytes(width, v)));
  }

  /** Applying the function twice gives back the scalar. */
  lemma {:induction false} ByteSwapInvolution(host: Endian, width: nat, v: nat)
    requires SupportedWidth(width) && v < Pow256(width)
    ensures ByteSwapIfBigEndian(host, width, ByteSwapIfBigEndian(host, width, v)) == v
  {
    if host == Big && width > 1 {
      BigEndianHostReverses(width, v);
      ReverseReverse(LittleEndianBytes(width, v));
      FromToLittleEndian(width, v);
    }
  }

  /**
   * What a host stores for `byte_swap_if_big_endian(v)` is the little-endian
   * encoding of `v`, whatever the host's byte order.
   */
  lemma {:induction false} StoredBytesAreLittleEndian(host: Endian, width: nat, v: nat)
    requires SupportedWidth(width) && v < Pow256(width)
    ensures Representation(host, width, ByteSwapIfBigEndian(host, width, v)) == LittleEndianBytes(width, v)
  {
    if host == Big {
      if width == 1 {
        assert Reverse(LittleEndianBytes(1, v)) == LittleEndianBytes(1, v);
      } else {
        BigEndianHostReverses(width, v);
        ReverseReverse(LittleEndianBytes(width, v));
      }
    }
  }

  /**
   * Reading little-endian bytes on any host and swapping them if the host is
   * big endian gives the value they encode.
   */
  lemma {:induction false} LoadedValueIsLittleEndian(host: Endian, b: seq<byte>)
    requires SupportedWidth(|b|)
    ensures ByteSwapIfBigEndian(host, |b|, ValueOf(host, b)) == FromLittleEndian(b)
  {
    if host == Big {
      ToFromLittleEndian(Reverse(b));
      ReverseReverse(b);
      if |b| == 1 {
        assert Reverse(b) == b;
      }
    }
  }
}
