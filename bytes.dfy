/** Fixed-width integers of the target (a 32-bit little-endian ARM core) and
    their byte encodings, as the packed wire records lay them out. */
module Bytes {

  type uint8 = x: int | 0 <= x < 0x100
  type uint16 = x: int | 0 <= x < 0x1_0000
  type uint32 = x: int | 0 <= x < 0x1_0000_0000
  type int32 = x: int | -0x8000_0000 <= x < 0x8000_0000

  const TWO_TO_16: nat := 0x1_0000
  const TWO_TO_32: nat := 0x1_0000_0000

  /** 256 to the power n: the number of values n bytes can hold. */
  function Pow256(n: nat): (r: nat)
    ensures r > 0
  {
    if n == 0 then 1 else 256 * Pow256(n - 1)
  }

  /** The n low-order bytes of u, least significant first. */
  function EncodeLE(u: nat, n: nat): (bs: seq<uint8>)
    ensures |bs| == n
  {
    if n == 0 then [] else [u % 256] + EncodeLE(u / 256, n - 1)
  }

  /** The unsigned value of a little-endian byte string. */
  function DecodeLE(bs: seq<uint8>): (u: nat)
    ensures u < Pow256(|bs|)
  {
    if bs == [] then 0 else bs[0] + 256 * DecodeLE(bs[1..])
  }

  lemma {:induction false} DecodeEncodeLE(u: nat, n: nat)
    requires u < Pow256(n)
    ensures DecodeLE(EncodeLE(u, n)) == u
  {
    if n > 0 {
      var bs := EncodeLE(u, n);
      assert bs[1..] == EncodeLE(u / 256, n - 1);
      DecodeEncodeLE(u / 256, n - 1);
    }
  }

  lemma {:induction false} EncodeDecodeLE(bs: seq<uint8>)
    ensures EncodeLE(DecodeLE(bs), |bs|) == bs
  {
    if bs != [] {
      var u := DecodeLE(bs);
      assert u % 256 == bs[0] && u / 256 == DecodeLE(bs[1..]);
      EncodeDecodeLE(bs[1..]);
    }
  }

  /** The bit pattern of a 32-bit two's-complement integer, read as unsigned. */
  function AsUnsigned32(i: int32): (u: uint32)
    ensures i >= 0 ==> u == i
    ensures i < 0 ==> u >= 0x8000_0000
  {
    if i < 0 then i + TWO_TO_32 else i
  }

  /** An unsigned 32-bit pattern read as a two's-complement `int`. This is also
      what the C cast `(int)` does to a 32-bit `size_t` or `unsigned int`. */
  function AsSigned32(u: uint32): (i: int32)
    ensures AsUnsigned32(i) == u
  {
    if u < 0x8000_0000 then u else u - TWO_TO_32
  }

  lemma {:induction false} SignedUnsignedInverse(i: int32)
    ensures AsSigned32(AsUnsigned32(i)) == i
  {
  }

  function EncodeInt32(i: int32): (bs: seq<uint8>)
    ensures |bs| == 4
  {
    EncodeLE(AsUnsigned32(i), 4)
  }

  function DecodeInt32(bs: seq<uint8>): int32
    requires |bs| == 4
  {
    assert Pow256(4) == TWO_TO_32;
    AsSigned32(DecodeLE(bs))
  }

  lemma {:induction false} Int32RoundTrip(i: int32)
    ensures DecodeInt32(EncodeInt32(i)) == i
  {
    assert Pow256(4) == TWO_TO_32;
    DecodeEncodeLE(AsUnsigned32(i), 4);
  }

  /** s with the bytes from offset `off` on replaced by w: an in-place
      `memcpy(s + off, w, |w|)`. */
  function Splice(s: seq<uint8>, off: nat, w: seq<uint8>): (r: seq<uint8>)
    requires off + |w| <= |s|
    ensures |r| == |s|
    ensures r[off..off + |w|] == w
  {
    s[..off] + w + s[off + |w|..]
  }

  lemma {:induction false} SpliceAt(s: seq<uint8>, off: nat, w: seq<uint8>, k: nat)
    requires off + |w| <= |s| && k < |s|
    ensures Splice(s, off, w)[k] == if off <= k < off + |w| then w[k - off] else s[k]
  {
  }

  /** A splice leaves every byte range it does not overlap as it was. */
  lemma {:induction false} SpliceOutside(s: seq<uint8>, off: nat, w: seq<uint8>, lo: nat, hi: nat)
    requires off + |w| <= |s| && lo <= hi <= |s|
    requires hi <= off || off + |w| <= lo
    ensures Splice(s, off, w)[lo..hi] == s[lo..hi]
  {
    var r := Splice(s, off, w);
    forall k | lo <= k < hi ensures r[k] == s[k] {
      SpliceAt(s, off, w, k);
    }
  }

  /** Two copies to the same place, the second no longer than the first, are
      one copy of the first with the second written over its front. */
  lemma {:induction false} SpliceOver(s: seq<uint8>, off: nat, outer: seq<uint8>, inner: seq<uint8>)
    requires off + |outer| <= |s| && |inner| <= |outer|
    ensures Splice(Splice(s, off, outer), off, inner) == Splice(s, off, Splice(outer, 0, inner))
  {
    var a, b := Splice(Splice(s, off, outer), off, inner), Splice(s, off, Splice(outer, 0, inner));
    forall k | 0 <= k < |s| ensures a[k] == b[k] {
      SpliceAt(Splice(s, off, outer), off, inner, k);
      SpliceAt(s, off, outer, k);
      SpliceAt(s, off, Splice(outer, 0, inner), k);
      if off <= k < off + |outer| {
        SpliceAt(outer, 0, inner, k - off);
      }
    }
  }
}
