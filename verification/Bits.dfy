/**
 Bitmaps held in byte blocks: bit `i` is bit `i % 8` of byte `i / 8`.
 */
module Bits {
  import opened Bytes

  /** `1u << k` as a byte. */
  function Mask(k: nat): bv8
    requires k < 8
  {
    if k == 0 then 1 else if k == 1 then 2 else if k == 2 then 4 else if k == 3 then 8
    else if k == 4 then 16 else if k == 5 then 32 else if k == 6 then 64 else 128
  }

  function Bv(x: byte): bv8 { x as bv8 }

  function Unbv(v: bv8): byte { v as int }

  predicate Has(v: bv8, k: nat)
    requires k < 8
  {
    v & Mask(k) != 0
  }

  function With(v: bv8, k: nat): bv8
    requires k < 8
  {
    v | Mask(k)
  }

  function Without(v: bv8, k: nat): bv8
    requires k < 8
  {
    v & !Mask(k)
  }

  predicate BitOf(x: byte, k: nat)
    requires k < 8
  {
    Has(Bv(x), k)
  }

  function SetBit(x: byte, k: nat): byte
    requires k < 8
  {
    Unbv(With(Bv(x), k))
  }

  function ClearBit(x: byte, k: nat): byte
    requires k < 8
  {
    Unbv(Without(Bv(x), k))
  }

  /** Bit `k` is counted from the low end. */
  lemma BitIs(v: bv8, k: nat)
    requires k < 8
    ensures Has(v, k) <==> (v >> k) & 1 == 1
  {
    if k == 0 {
    } else if k == 1 {
    } else if k == 2 {
    } else if k == 3 {
    } else if k == 4 {
    } else if k == 5 {
    } else if k == 6 {
    }
  }

  lemma Masks(k: nat, j: nat)
    requires k < 8 && j < 8
    ensures Mask(k) & Mask(j) == if k == j then Mask(k) else 0
    ensures Mask(k) != 0
  {
  }

  /** Setting and clearing the bits of `a` as seen through `b`. */
  lemma ThroughMask(v: bv8, a: bv8, b: bv8)
    ensures a & b == 0 ==> (v | a) & b == v & b && (v & !a) & b == v & b
    ensures (v | a) & a == a && (v & !a) & a == 0
  {
  }

  lemma MaskOps(v: bv8, k: nat, j: nat)
    requires k < 8 && j < 8
    ensures Has(With(v, k), j) <==> j == k || Has(v, j)
    ensures Has(Without(v, k), j) <==> j != k && Has(v, j)
  {
    hide Mask;
    Masks(k, j);
    ThroughMask(v, Mask(k), Mask(j));
  }

  lemma BvUnbv(v: bv8)
    ensures Bv(Unbv(v)) == v
  {
  }

  lemma SetBitReads(x: byte, k: nat, j: nat)
    requires k < 8 && j < 8
    ensures BitOf(SetBit(x, k), j) <==> j == k || BitOf(x, j)
  {
    hide Bv, Unbv, Has, With, Without;
    MaskOps(Bv(x), k, j);
    BvUnbv(With(Bv(x), k));
  }

  lemma ClearBitReads(x: byte, k: nat, j: nat)
    requires k < 8 && j < 8
    ensures BitOf(ClearBit(x, k), j) <==> j != k && BitOf(x, j)
  {
    hide Bv, Unbv, Has, With, Without;
    MaskOps(Bv(x), k, j);
    BvUnbv(Without(Bv(x), k));
  }

  lemma ZeroByte(k: nat)
    requires k < 8
    ensures !BitOf(0, k)
  {
  }

  // ------------------------------------------------------------------ blocks

  predicate Bit(b: seq<byte>, i: nat)
    requires i < 8 * |b|
  {
    BitOf(b[i / 8], i % 8)
  }

  function Mark(b: seq<byte>, i: nat): (r: seq<byte>)
    requires i < 8 * |b|
    ensures |r| == |b|
  {
    b[i / 8 := SetBit(b[i / 8], i % 8)]
  }

  function Unmark(b: seq<byte>, i: nat): (r: seq<byte>)
    requires i < 8 * |b|
    ensures |r| == |b|
  {
    b[i / 8 := ClearBit(b[i / 8], i % 8)]
  }

  /** Block `b` holds exactly the bits `bits`. */
  ghost predicate BitsAre(b: seq<byte>, bits: seq<bool>) {
    |bits| == 8 * |b| && forall i :: 0 <= i < |bits| ==> Bit(b, i) == bits[i]
  }

  lemma MarkBits(b: seq<byte>, bits: seq<bool>, i: nat)
    requires BitsAre(b, bits) && i < |bits|
    ensures BitsAre(Mark(b, i), bits[i := true])
  {
    hide BitOf, SetBit;
    forall j | 0 <= j < |bits| ensures Bit(Mark(b, i), j) == bits[i := true][j] {
      assert Bit(b, j) == bits[j];
      SetBitReads(b[i / 8], i % 8, j % 8);
    }
  }

  lemma UnmarkBits(b: seq<byte>, bits: seq<bool>, i: nat)
    requires BitsAre(b, bits) && i < |bits|
    ensures BitsAre(Unmark(b, i), bits[i := false])
  {
    hide BitOf, ClearBit;
    forall j | 0 <= j < |bits| ensures Bit(Unmark(b, i), j) == bits[i := false][j] {
      assert Bit(b, j) == bits[j];
      ClearBitReads(b[i / 8], i % 8, j % 8);
    }
  }

  lemma ZeroBits(n: nat)
    ensures BitsAre(seq(n, _ => 0), seq(8 * n, _ => false))
  {
    hide BitOf;
    forall k | 0 <= k < 8 ensures !BitOf(0, k) { ZeroByte(k); }
  }

  // ---------------------------------------------------------------- counting

  /** Number of clear bits. */
  function Clear(bits: seq<bool>): nat {
    if bits == [] then 0 else (if bits[0] then 0 else 1) + Clear(bits[1..])
  }

  lemma {:induction false} ClearFlip(bits: seq<bool>, i: nat, v: bool)
    requires i < |bits| && bits[i] != v
    ensures Clear(bits[i := v]) == Clear(bits) + if v then -1 else 1
  {
    if i == 0 {
      assert bits[i := v][1..] == bits[1..];
    } else {
      ClearFlip(bits[1..], i - 1, v);
      assert bits[i := v][1..] == bits[1..][i - 1 := v];
    }
  }

  /** First clear bit of `bits` in `[from, limit)`, or `limit`. */
  function FirstClear(bits: seq<bool>, from: nat, limit: nat): (i: nat)
    requires from <= limit <= |bits|
    ensures from <= i <= limit && (i < limit ==> !bits[i])
    ensures forall j :: from <= j < i ==> bits[j]
    decreases limit - from
  {
    if from == limit || !bits[from] then from else FirstClear(bits, from + 1, limit)
  }
}
