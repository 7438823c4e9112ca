/**
 Bytes and the fixed-width integers the kernel stores in byte buffers.
 Every on-disk or in-memory record of the model is read and written through
 these little-endian codecs.
 */
module Bytes {

  type byte = x: int | 0 <= x < 256

  /** 256 to the power `k`: one more than the largest value of a `k`-byte field. */
  function Limit(k: nat): (r: nat)
    ensures r >= 1
  {
    if k == 0 then 1 else 256 * Limit(k - 1)
  }

  /** The little-endian value of a byte string. */
  function Le(b: seq<byte>): (v: nat)
    ensures v < Limit(|b|)
  {
    if b == [] then 0 else b[0] + 256 * Le(b[1..])
  }

  /** The `k` low-order bytes of `v`, least significant first. */
  function LeBytes(v: nat, k: nat): (b: seq<byte>)
    ensures |b| == k
  {
    if k == 0 then [] else [v % 256] + LeBytes(v / 256, k - 1)
  }

  /** Writing a value that fits its field and reading it back is the identity. */
  lemma {:induction false} LeRoundTrip(v: nat, k: nat)
    requires v < Limit(k)
    ensures Le(LeBytes(v, k)) == v
  {
    if k > 0 {
      LeRoundTrip(v / 256, k - 1);
      assert LeBytes(v, k)[1..] == LeBytes(v / 256, k - 1);
    }
  }

  /** `m` with the bytes from `at` on replaced by `b`. */
  function Overwrite(m: seq<byte>, at: nat, b: seq<byte>): (r: seq<byte>)
    requires at + |b| <= |m|
    ensures |r| == |m|
  {
    m[..at] + b + m[at + |b|..]
  }

  lemma OverwriteRead(m: seq<byte>, at: nat, b: seq<byte>)
    requires at + |b| <= |m|
    ensures Overwrite(m, at, b)[at..at + |b|] == b
  {
  }

  lemma OverwriteFrame(m: seq<byte>, at: nat, b: seq<byte>, lo: nat, hi: nat)
    requires at + |b| <= |m| && lo <= hi <= |m| && (hi <= at || at + |b| <= lo)
    ensures Overwrite(m, at, b)[lo..hi] == m[lo..hi]
  {
    var r := Overwrite(m, at, b);
    assert forall i :: lo <= i < hi ==> r[i] == m[i];
  }

  /** The 16-bit and 32-bit little-endian fields at offset `o`. */
  function U16(b: seq<byte>, o: nat): nat
    requires o + 2 <= |b|
  {
    Le(b[o..o + 2])
  }

  function U32(b: seq<byte>, o: nat): nat
    requires o + 4 <= |b|
  {
    Le(b[o..o + 4])
  }

  function W16(b: seq<byte>, o: nat, v: nat): (r: seq<byte>)
    requires o + 2 <= |b|
    ensures |r| == |b|
  {
    Overwrite(b, o, LeBytes(v, 2))
  }

  function W32(b: seq<byte>, o: nat, v: nat): (r: seq<byte>)
    requires o + 4 <= |b|
    ensures |r| == |b|
  {
    Overwrite(b, o, LeBytes(v, 4))
  }

  lemma W16Reads(b: seq<byte>, o: nat, v: nat)
    requires o + 2 <= |b| && v < 0x1_0000
    ensures U16(W16(b, o, v), o) == v
  {
    hide Overwrite;
    Limits();
    LeRoundTrip(v, 2);
    OverwriteRead(b, o, LeBytes(v, 2));
  }

  lemma W32Reads(b: seq<byte>, o: nat, v: nat)
    requires o + 4 <= |b| && v < 0x1_0000_0000
    ensures U32(W32(b, o, v), o) == v
  {
    hide Overwrite;
    Limits();
    LeRoundTrip(v, 4);
    OverwriteRead(b, o, LeBytes(v, 4));
  }

  lemma U32Fits(b: seq<byte>, o: nat)
    requires o + 4 <= |b|
    ensures U32(b, o) < 0x1_0000_0000
  {
    Limits();
  }

  lemma U16Fits(b: seq<byte>, o: nat)
    requires o + 2 <= |b|
    ensures U16(b, o) < 0x1_0000
  {
    Limits();
  }

  lemma W16Frame(b: seq<byte>, o: nat, v: nat, lo: nat, hi: nat)
    requires o + 2 <= |b| && lo <= hi <= |b| && (hi <= o || o + 2 <= lo)
    ensures W16(b, o, v)[lo..hi] == b[lo..hi]
  {
    OverwriteFrame(b, o, LeBytes(v, 2), lo, hi);
  }

  lemma W32Frame(b: seq<byte>, o: nat, v: nat, lo: nat, hi: nat)
    requires o + 4 <= |b| && lo <= hi <= |b| && (hi <= o || o + 4 <= lo)
    ensures W32(b, o, v)[lo..hi] == b[lo..hi]
  {
    OverwriteFrame(b, o, LeBytes(v, 4), lo, hi);
  }

  /** The 32-bit words of a byte string. */
  function Words(b: seq<byte>): (w: seq<nat>)
    ensures |w| == |b| / 4
    ensures forall i :: 0 <= i < |w| ==> w[i] == U32(b, 4 * i)
  {
    seq(|b| / 4, i requires 0 <= i < |b| / 4 => U32(b, 4 * i))
  }

  function WordBytes(w: seq<nat>): (b: seq<byte>)
    ensures |b| == 4 * |w|
    ensures forall j :: 0 <= j < |b| ==> b[j] == LeBytes(w[j / 4], 4)[j % 4]
  {
    seq(4 * |w|, j requires 0 <= j < 4 * |w| => LeBytes(w[j / 4], 4)[j % 4])
  }

  lemma WordsRoundTrip(w: seq<nat>)
    requires forall i :: 0 <= i < |w| ==> w[i] < 0x1_0000_0000
    ensures Words(WordBytes(w)) == w
  {
    hide LeBytes, Le;
    Limits();
    var b := WordBytes(w);
    forall i | 0 <= i < |w| ensures U32(b, 4 * i) == w[i] {
      LeRoundTrip(w[i], 4);
      forall k | 0 <= k < 4 ensures b[4 * i + k] == LeBytes(w[i], 4)[k] {
        assert (4 * i + k) / 4 == i && (4 * i + k) % 4 == k;
      }
      assert b[4 * i..4 * i + 4] == LeBytes(w[i], 4);
    }
  }

  lemma WordUpdate(b: seq<byte>, i: nat, v: nat)
    requires 4 * i + 4 <= |b| && v < 0x1_0000_0000
    ensures Words(W32(b, 4 * i, v)) == Words(b)[i := v]
  {
    hide U32, W32;
    W32Reads(b, 4 * i, v);
    forall j | 0 <= j < |b| / 4 && j != i ensures U32(W32(b, 4 * i, v), 4 * j) == U32(b, 4 * j) {
      U32Kept(b, 4 * i, v, 4 * j);
    }
  }

  lemma U32Kept(b: seq<byte>, o: nat, v: nat, o': nat)
    requires o + 4 <= |b| && o' + 4 <= |b| && (o' + 4 <= o || o + 4 <= o')
    ensures U32(W32(b, o, v), o') == U32(b, o')
  {
    W32Frame(b, o, v, o', o' + 4);
  }

  lemma U16Kept(b: seq<byte>, o: nat, v: nat, o': nat)
    requires o + 2 <= |b| && o' + 2 <= |b| && (o' + 2 <= o || o + 2 <= o')
    ensures U16(W16(b, o, v), o') == U16(b, o')
  {
    W16Frame(b, o, v, o', o' + 2);
  }

  /** Fields depend on their own bytes. */
  lemma SameHalf(a: seq<byte>, b: seq<byte>, o: nat)
    requires o + 2 <= |a| == |b| && a[o..o + 2] == b[o..o + 2]
    ensures U16(a, o) == U16(b, o)
  {
  }

  lemma SameWord(a: seq<byte>, b: seq<byte>, o: nat)
    requires o + 4 <= |a| == |b| && a[o..o + 4] == b[o..o + 4]
    ensures U32(a, o) == U32(b, o)
  {
  }

  lemma Limits()
    ensures Limit(1) == 0x100 && Limit(2) == 0x1_0000
    ensures Limit(4) == 0x1_0000_0000 && Limit(8) == 0x1_0000_0000_0000_0000
  {
    assert Limit(2) == 0x1_0000;
    assert Limit(4) == 256 * (256 * Limit(2));
    assert Limit(6) == 256 * (256 * Limit(4));
    assert Limit(8) == 256 * (256 * Limit(6));
  }
}
