/** Bytes, Python-style slicing and big-endian integer decoding: the three
    primitives the extractor applies to the raw container buffer. */
module Bytes {

  /** One octet of the container buffer. */
  type byte = b: int | 0 <= b < 256

  /** An unsigned 32-bit value, the width of a record offset. */
  type uint32 = x: int | 0 <= x < 0x1_0000_0000

  function Min(a: nat, b: nat): nat { if a <= b then a else b }

  /** `s[lo:hi]` with Python's slice semantics for non-negative bounds: both
      bounds are clamped to `|s|`, and a reversed pair gives the empty slice.
      Python never raises an error here. */
  function Slice<T>(s: seq<T>, lo: nat, hi: nat): (r: seq<T>)
    ensures |r| <= |s|
    ensures lo <= hi <= |s| ==> r == s[lo..hi]
    ensures hi <= lo || |s| <= lo ==> r == []
    ensures lo <= |s| <= hi ==> r == s[lo..]
  {
    var l := Min(lo, |s|);
    var h := Min(hi, |s|);
    if l <= h then s[l..h] else []
  }

  /** The length of a Python slice of a sequence of length `n`. */
  lemma SliceLength<T>(s: seq<T>, lo: nat, hi: nat)
    ensures |Slice(s, lo, hi)| == if lo < hi && lo < |s| then Min(hi, |s|) - lo else 0
  {
  }

  /** Slices agree when the two sequences have the same length and agree on
      every position the slice covers. */
  lemma SliceAgree<T>(s: seq<T>, t: seq<T>, lo: nat, hi: nat)
    requires |s| == |t|
    requires forall p :: lo <= p < hi && p < |s| ==> s[p] == t[p]
    ensures Slice(s, lo, hi) == Slice(t, lo, hi)
  {
  }

  /** A prefix one longer is the shorter prefix and the next element. */
  lemma PrefixStep<T>(s: seq<T>, i: nat)
    requires i < |s|
    ensures s[..i + 1] == s[..i] + [s[i]]
  {
  }

  /** `int.from_bytes(s, byteorder='big')`: the unsigned big-endian value of
      `s`; the empty sequence gives 0. */
  function FromBytesBE(s: seq<byte>): nat
  {
    if s == [] then 0 else FromBytesBE(s[..|s| - 1]) * 256 + s[|s| - 1]
  }

  function Pow256(n: nat): (p: nat)
    ensures p >= 1
  {
    if n == 0 then 1 else 256 * Pow256(n - 1)
  }

  /** A big-endian value of `k` bytes is below `256^k`. */
  lemma {:induction false} FromBytesBEBound(s: seq<byte>)
    ensures FromBytesBE(s) < Pow256(|s|)
  {
    if s != [] {
      var init := s[..|s| - 1];
      FromBytesBEBound(init);
      assert FromBytesBE(init) <= Pow256(|init|) - 1;
      calc {
        FromBytesBE(s);
        FromBytesBE(init) * 256 + s[|s| - 1];
      <= (Pow256(|init|) - 1) * 256 + 255;
        Pow256(|s|) - 1;
      }
    }
  }

  /** Two bytes decode to `hi * 256 + lo`. */
  lemma FromBytesBE2(s: seq<byte>)
    requires |s| == 2
    ensures FromBytesBE(s) == (s[0] as int) * 256 + s[1]
  {
    var s1 := s[..1];
    assert s1[..0] == [];
    assert FromBytesBE(s1) == s[0];
  }

  /** Four bytes decode to the usual big-endian 32-bit value. */
  lemma FromBytesBE4(s: seq<byte>)
    requires |s| == 4
    ensures FromBytesBE(s) == (s[0] as int) * 0x100_0000 + (s[1] as int) * 0x1_0000 + (s[2] as int) * 0x100 + s[3]
  {
    var s3, s2, s1 := s[..3], s[..2], s[..1];
    assert s3[..2] == s2 && s2[..1] == s1 && s1[..0] == [];
    assert FromBytesBE(s1) == s[0];
    assert FromBytesBE(s2) == (s[0] as int) * 256 + s[1];
    assert FromBytesBE(s3) == ((s[0] as int) * 256 + s[1]) * 256 + s[2];
  }

  /** At most four bytes always fit in an unsigned 32-bit value. */
  lemma FromBytesBEFitsUint32(s: seq<byte>)
    requires |s| <= 4
    ensures FromBytesBE(s) < 0x1_0000_0000
  {
    FromBytesBEBound(s);
    assert Pow256(0) == 1 && Pow256(1) == 256 && Pow256(2) == 0x1_0000;
    assert Pow256(3) == 0x100_0000 && Pow256(4) == 0x1_0000_0000;
  }
}
