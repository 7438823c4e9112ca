/**
 The streaming hash object of kernel/security/crypto.c and the two constructions built on it. The
 ghost `msg` is everything fed since init, so splitting a message over update calls cannot matter.
 */
module Crypto {
  import opened Bytes
  import opened Bits
  import opened Sha256

  class Sha {
    var h: State
    var bits: nat
    var n: nat
    const b: array<byte>
    ghost var msg: seq<byte>

    ghost predicate Valid()
      reads this, b
    {
      Holding() && bits == Count64(8 * |msg|)
    }

    /** init. */
    constructor ()
      ensures Valid() && msg == [] && fresh(b)
    {
      h, bits, n, msg := Initial(), 0, 0, [];
      b := new byte[64];
      new;
      Fresh();
    }

    lemma Fresh()
      requires b.Length == 64 && n == 0 && msg == [] && bits == 0 && h == Initial()
      ensures Valid()
    {
      hide Compress, Initial, Absorbed;
      AbsorbedNothing();
      assert msg[..|msg| - n] == [];
    }

    /** block: the compression of the buffer into the state. */
    method Block()
      requires b.Length == 64
      modifies this`h
      ensures h == Compress(old(h), b[..])
    {
      hide Round, NextWord, BigEndian, Constants, Initial;
      var w := LoadWords();
      ghost var w0 := w;
      while |w| < 64
        invariant 16 <= |w| <= 64 && Schedule(w) == Schedule(w0)
        decreases 64 - |w|
      {
        w := w + [NextWord(w)];
      }
      var was := h;
      var s: seq<word> := was;
      for i := 0 to 64
        invariant |s| == 8 && s == Rounds(was, w, i) && h == was
      {
        s := Round(s, Constants()[i], w[i]);
      }
      h := seq(8, i requires 0 <= i < 8 => was[i] + s[i]);
    }

    method LoadWords() returns (w: seq<word>)
      requires b.Length == 64
      ensures |w| == 16 && w == FirstWords(b[..])
    {
      hide BigEndian;
      w := [];
      for i := 0 to 16
        invariant |w| == i && forall k :: 0 <= k < i ==> w[k] == BigEndian(b[..], 4 * k)
      {
        w := w + [BigEndian(b[..], 4 * i)];
      }
    }

    /** The copying loop of update: `x` bytes into the buffer behind the first `n`. */
    method CopyIn(p: seq<byte>, at: nat, x: nat)
      requires b.Length == 64 && n + x <= 64 && at + x <= |p|
      modifies b
      ensures b[..n + x] == old(b[..n]) + p[at..at + x]
    {
      for i := 0 to x
        invariant b[..n + i] == old(b[..n]) + p[at..at + i]
      {
        b[n + i] := p[at + i];
        assert b[..n + i + 1] == b[..n + i] + [p[at + i]];
      }
    }

    /** One turn of update's loop: as many bytes as the buffer has room for. */
    method Feed(p: seq<byte>, at: nat) returns (x: nat)
      requires Holding() && at < |p|
      modifies this`h, this`n, this`msg, b
      ensures Holding() && 0 < x && at + x <= |p| && msg == old(msg) + p[at..at + x]
    {
      hide Compress, Initial, Absorbed;
      x := 64 - n;
      if x > |p| - at { x := |p| - at; }
      CopyIn(p, at, x);
      Joined(msg, n, p[at..at + x]);
      FullBlock(msg, n, p[at..at + x]);
      msg := msg + p[at..at + x];
      n := n + x;
      if n == 64 {
        assert b[..64] == b[..];
        Block();
        n := 0;
        assert b[..0] == [] && msg[..|msg|] == msg && msg[|msg|..] == [];
      }
    }

    /** update: the bytes join the message. */
    method Update(p: seq<byte>)
      requires Valid()
      modifies this, b
      ensures Valid() && msg == old(msg) + p
    {
      hide Sha.Holding, Count64;
      AddBits(8 * |msg|, 8 * |p|);
      bits := Count64(bits + 8 * |p|);
      ghost var m0, total := msg, bits;
      var at := 0;
      while at < |p|
        invariant at <= |p| && msg == m0 + p[..at] && Holding() && bits == total
        decreases |p| - at
      {
        var x := Feed(p, at);
        assert p[..at] + p[at..at + x] == p[..at + x];
        at := at + x;
      }
      assert p[..at] == p;
    }

    /** The part of `Valid` that does not speak of the bit count. */
    ghost predicate Holding()
      reads this`h, this`n, this`msg, b
    {
      && b.Length == 64 && n == |msg| % 64 && b[..n] == msg[|msg| - n..]
      && h == Absorbed(msg[..|msg| - n])
    }

    method FillZeros(to: nat)
      requires b.Length == 64 && n <= to <= 64
      modifies this`n, b
      ensures n == to && b[..to] == old(b[..n]) + Nothing(to - old(n))
    {
      ghost var n0 := n;
      while n < to
        invariant n0 <= n <= to && b[..n] == old(b[..n]) + Nothing(n - n0)
      {
        b[n] := 0;
        assert b[..n + 1] == b[..n] + [0];
        n := n + 1;
      }
    }

    /** The length in bits, written behind the padding. */
    method PutLength(length: nat)
      requires b.Length == 64 && n == 56
      modifies this`n, b
      ensures n == 64 && b[..] == old(b[..56]) + Be64(length)
    {
      hide LengthByte;
      for i := 0 to 8
        invariant n == 56 + i && b[..n] == old(b[..56]) + Be64(length)[..i]
      {
        b[n] := LengthByte(length, i);
        assert b[..n + 1] == b[..n] + [b[n]];
        n := n + 1;
      }
    }

    /** final: the digest of everything fed. */
    method Final() returns (out: seq<byte>)
      requires Valid()
      modifies this, b
      ensures out == Hash(msg) && msg == old(msg)
    {
      hide Compress, Initial, Absorbed, Digest, Be64, Nothing, Count64;
      var length := bits;
      ghost var m, n0 := msg, n;
      ghost var whole, rest := m[..|m| - n0], m[|m| - n0..];
      b[n] := 0x80;
      assert b[..n + 1] == rest + [0x80];
      n := n + 1;
      if n > 56 {
        FillZeros(64);
        assert b[..64] == b[..];
        Block();
        n := 0;
        assert b[..0] == [];
        FillZeros(56);
        PutLength(length);
        Block();
        LongPadding(m, n0, whole, rest);
      } else {
        FillZeros(56);
        PutLength(length);
        Block();
        ShortPadding(m, n0, whole, rest);
      }
      out := Output();
    }

    /** The state, written out big-endian. */
    method Output() returns (out: seq<byte>)
      ensures out == Digest(h)
    {
      hide Octet;
      out := [];
      for i := 0 to 8
        invariant |out| == 4 * i && forall k :: 0 <= k < 4 * i ==> out[k] == Octet(h[k / 4], 3 - k % 4)
      {
        out := out + [Octet(h[i], 3), Octet(h[i], 2), Octet(h[i], 1), Octet(h[i], 0)];
      }
    }
  }

  lemma AddBits(a: nat, c: nat)
    ensures Count64(Count64(a) + c) == Count64(a + c)
  {
    var q := a / 0x1_0000_0000_0000_0000;
    assert a == 0x1_0000_0000_0000_0000 * q + Count64(a);
    assert a + c == 0x1_0000_0000_0000_0000 * q + (Count64(a) + c);
  }

  lemma Joined(m: seq<byte>, n: nat, q: seq<byte>)
    requires n == |m| % 64
    ensures var m' := m + q;
            && m'[|m| - n..] == m[|m| - n..] + q && m'[..|m| - n] == m[..|m| - n]
            && (n + |q| < 64 ==> |m'| % 64 == n + |q|) && (n + |q| == 64 ==> |m'| % 64 == 0)
  {
  }

  lemma FullBlock(m: seq<byte>, n: nat, q: seq<byte>)
    requires n == |m| % 64
    ensures n + |q| == 64 ==>
              (|m + q| % 64 == 0 && Absorbed(m + q) == Compress(Absorbed(m[..|m| - n]), m[|m| - n..] + q))
  {
    hide Compress, Initial, Absorbed;
    if n + |q| == 64 {
      AbsorbedOne(m[..|m| - n], m[|m| - n..] + q);
      assert m + q == m[..|m| - n] + (m[|m| - n..] + q);
    }
  }

  lemma ShortPadding(m: seq<byte>, n: nat, whole: seq<byte>, rest: seq<byte>)
    requires n == |m| % 64 <= 55 && whole == m[..|m| - n] && rest == m[|m| - n..]
    ensures var last := rest + [0x80] + Nothing(56 - (n + 1)) + Be64(Count64(8 * |m|));
            |last| == 64 && |whole| % 64 == 0
            && Absorbed(Padded(m)) == Compress(Absorbed(whole), last)
  {
    hide Compress, Initial, Absorbed, Be64, PadZeros;
    var last := rest + [0x80] + Nothing(56 - (n + 1)) + Be64(Count64(8 * |m|));
    PadZerosAre(|m|, n);
    assert Padded(m) == whole + last;
    AbsorbedOne(whole, last);
  }

  lemma PadZerosAre(length: nat, n: nat)
    requires n == length % 64
    ensures PadZeros(length) == if n <= 55 then 55 - n else 119 - n
  {
  }

  lemma LongPadding(m: seq<byte>, n: nat, whole: seq<byte>, rest: seq<byte>)
    requires 55 < n == |m| % 64 && whole == m[..|m| - n] && rest == m[|m| - n..]
    ensures var first := rest + [0x80] + Nothing(64 - (n + 1));
            var last := [] + Nothing(56) + Be64(Count64(8 * |m|));
            |first| == 64 && |last| == 64 && |whole| % 64 == 0
            && Absorbed(Padded(m)) == Compress(Compress(Absorbed(whole), first), last)
  {
    hide Compress, Initial, Absorbed, Be64, PadZeros;
    var first := rest + [0x80] + Nothing(64 - (n + 1));
    var last := [] + Nothing(56) + Be64(Count64(8 * |m|));
    PadZerosAre(|m|, n);
    assert Nothing(119 - n) == Nothing(63 - n) + Nothing(56);
    assert Padded(m) == (whole + first) + last;
    AbsorbedOne(whole, first);
    AbsorbedOne(whole + first, last);
  }

  // ---------------------------------------------------------------------- HMAC

  function XorBits(a: bv8, c: bv8): bv8 { a ^ c }

  function Xor(a: byte, c: byte): byte { Unbv(XorBits(Bv(a), Bv(c))) }

  function XorAll(a: seq<byte>, c: byte): (r: seq<byte>)
    ensures |r| == |a|
  {
    seq(|a|, i requires 0 <= i < |a| => Xor(a[i], c))
  }

  function XorWith(a: seq<byte>, c: seq<byte>): (r: seq<byte>)
    requires |a| == |c|
    ensures |r| == |a|
  {
    seq(|a|, i requires 0 <= i < |a| => Xor(a[i], c[i]))
  }

  /** The key brought to one block: hashed when longer, then padded with zeros. */
  function BlockKey(key: seq<byte>): (k: seq<byte>)
    ensures |k| == 64
  {
    if |key| > 64 then Hash(key) + Nothing(32) else key + Nothing(64 - |key|)
  }

  /** HMAC-SHA-256. */
  function Hmac(key: seq<byte>, text: seq<byte>): (d: seq<byte>)
    ensures |d| == 32
  {
    Hash(XorAll(BlockKey(key), 0x5c) + Hash(XorAll(BlockKey(key), 0x36) + text))
  }

  /** Turning one pad into the other in place. */
  lemma RePad(x: byte, i: byte, o: byte)
    ensures Xor(Xor(x, i), Xor(i, o)) == Xor(x, o)
  {
    hide Bv, Unbv, XorBits;
    BvUnbv(XorBits(Bv(x), Bv(i)));
    BvUnbv(XorBits(Bv(i), Bv(o)));
    Cancel(Bv(x), Bv(i), Bv(o));
  }

  lemma Cancel(v: bv8, i: bv8, o: bv8)
    ensures XorBits(XorBits(v, i), XorBits(i, o)) == XorBits(v, o)
  {
  }

  /** Section 2 of RFC 2104: with a key of one block, pads that differ from it by 0x36 and 0x5c in every byte. */
  lemma HmacPads(key: seq<byte>, text: seq<byte>) returns (inner: seq<byte>, outer: seq<byte>)
    requires |key| == 64
    ensures |inner| == |outer| == 64 && Hmac(key, text) == Hash(outer + Hash(inner + text))
    ensures forall i :: 0 <= i < 64 ==> Xor(inner[i], key[i]) == 0x36 && Xor(outer[i], key[i]) == 0x5c
  {
    hide Hash, Xor;
    assert BlockKey(key) == key;
    inner, outer := XorAll(key, 0x36), XorAll(key, 0x5c);
    forall i | 0 <= i < 64 ensures Xor(inner[i], key[i]) == 0x36 && Xor(outer[i], key[i]) == 0x5c {
      XorBack(key[i]);
    }
  }

  lemma XorBack(k: byte)
    ensures Xor(Xor(k, 0x36), k) == 0x36 && Xor(Xor(k, 0x5c), k) == 0x5c
  {
    hide Bv, Unbv, XorBits;
    BvUnbv(XorBits(Bv(k), Bv(0x36)));
    BvUnbv(XorBits(Bv(k), Bv(0x5c)));
    XorTwice(Bv(k), Bv(0x36));
    XorTwice(Bv(k), Bv(0x5c));
    Pads();
  }

  lemma XorTwice(k: bv8, x: bv8)
    ensures XorBits(XorBits(k, x), k) == x
  {
  }

  lemma Pads()
    ensures Unbv(Bv(0x36)) == 0x36 && Unbv(Bv(0x5c)) == 0x5c
  {
  }

  /** A shorter key counts as if padded with zeros, a longer one as its hash. */
  lemma HmacKeys(key: seq<byte>, text: seq<byte>)
    ensures |key| < 64 ==> Hmac(key + [0], text) == Hmac(key, text)
    ensures |key| > 64 ==> Hmac(Hash(key), text) == Hmac(key, text)
  {
    hide Hash, Xor;
    assert |key| < 64 ==> BlockKey(key + [0]) == BlockKey(key);
  }

  /** SHA-256 of two pieces fed one after the other. */
  method HashTwo(a: seq<byte>, c: seq<byte>) returns (d: seq<byte>)
    ensures d == Hash(a + c)
  {
    hide Hash, Sha.Valid, Absorbed, Compress, Initial, Count64;
    var s := new Sha();
    s.Update(a);
    assert s.msg == a;
    s.Update(c);
    d := s.Final();
  }

  /** crypto_sha256. */
  method ComputeHash(data: seq<byte>) returns (d: seq<byte>)
    ensures d == Hash(data)
  {
    hide Hash, Sha.Valid;
    var s := new Sha();
    s.Update(data);
    assert [] + data == data;
    d := s.Final();
  }

  function Concat(pieces: seq<seq<byte>>): seq<byte> {
    if pieces == [] then [] else pieces[0] + Concat(pieces[1..])
  }

  /** A message fed in any number of pieces of any size. */
  method HashPieces(pieces: seq<seq<byte>>) returns (d: seq<byte>)
    ensures d == Hash(Concat(pieces))
  {
    hide Hash, Sha.Valid, Absorbed, Compress, Initial, Count64;
    var s := new Sha();
    assert pieces[0..] == pieces;
    for i := 0 to |pieces|
      invariant s.Valid() && fresh(s) && fresh(s.b) && s.msg + Concat(pieces[i..]) == Concat(pieces)
    {
      assert pieces[i..][1..] == pieces[i + 1..];
      assert s.msg + (pieces[i] + Concat(pieces[i + 1..])) == (s.msg + pieces[i]) + Concat(pieces[i + 1..]);
      s.Update(pieces[i]);
    }
    assert s.msg + [] == s.msg;
    d := s.Final();
  }

  method XorBlock(k: seq<byte>, c: byte) returns (r: seq<byte>)
    ensures r == XorAll(k, c)
  {
    hide Xor;
    r := [];
    for i := 0 to |k|
      invariant |r| == i && forall j :: 0 <= j < i ==> r[j] == Xor(k[j], c)
    {
      r := r + [Xor(k[i], c)];
    }
  }

  /** hmac: `text` is read before `out` is written, so the two may be the same buffer. */
  method ComputeHmac(key: seq<byte>, text: array<byte>, n: nat, out: array<byte>)
    requires n <= text.Length && out.Length >= 32
    modifies out
    ensures out[..32] == Hmac(key, old(text[..n])) && out[32..] == old(out[32..])
  {
    hide Hash, Xor, Nothing;
    var k0;
    if |key| > 64 {
      var d := ComputeHash(key);
      k0 := d + Nothing(32);
    } else {
      k0 := key + Nothing(64 - |key|);
    }
    ghost var k := k0;
    k0 := XorBlock(k0, 0x36);
    var inner := HashTwo(k0, text[..n]);
    k0 := XorBlock(k0, Xor(0x36, 0x5c));
    forall i | 0 <= i < 64 ensures k0[i] == Xor(k[i], 0x5c) { RePad(k[i], 0x36, 0x5c); }
    assert k0 == XorAll(k, 0x5c);
    var d := HashTwo(k0, inner);
    for i := 0 to 32
      invariant out[..i] == d[..i] && out[32..] == old(out[32..])
    {
      out[i] := d[i];
      assert out[..i + 1] == out[..i] + [d[i]];
    }
    assert d[..32] == d;
  }

  // -------------------------------------------------------------------- PBKDF2

  /** U_r of block 1. */
  function Iterate(password: seq<byte>, salt: seq<byte>, r: nat): (u: seq<byte>)
    ensures |u| == 32
  {
    if r == 0 then Hmac(password, salt + [0, 0, 0, 1]) else Hmac(password, Iterate(password, salt, r - 1))
  }

  /** U_1 xor ... xor U_(r+1). */
  function Block1(password: seq<byte>, salt: seq<byte>, r: nat): (t: seq<byte>)
    ensures |t| == 32
  {
    if r == 0 then Iterate(password, salt, 0) else XorWith(Block1(password, salt, r - 1), Iterate(password, salt, r))
  }

  /** The salt as pbkdf2_sha256 uses it: its first 64 bytes. */
  function ShortSalt(salt: seq<byte>): seq<byte> { if |salt| > 64 then salt[..64] else salt }

  method XorInto(out: array<byte>, u: array<byte>)
    requires out.Length >= 32 && u.Length == 32 && out != u
    modifies out
    ensures out[..32] == XorWith(old(out[..32]), u[..])
  {
    hide Xor;
    for i := 0 to 32
      invariant forall j :: 0 <= j < i ==> out[j] == Xor(old(out[j]), u[j])
      invariant forall j :: i <= j < 32 ==> out[j] == old(out[j])
    {
      out[i] := Xor(out[i], u[i]);
    }
  }

  /** pbkdf2_sha256: block 1 of the derived key, `u` hashed in place every round. */
  method Pbkdf2(password: seq<byte>, salt: seq<byte>, rounds: nat, out: array<byte>)
    requires out.Length >= 32
    modifies out
    ensures out[..32] == Block1(password, ShortSalt(salt), if rounds == 0 then 0 else rounds - 1)
    ensures ShortSalt(salt) == if |salt| > 64 then salt[..64] else salt
  {
    hide Hmac, XorWith;
    var text := ShortSalt(salt) + [0, 0, 0, 1];
    var buffer := new byte[|text|](i requires 0 <= i < |text| => text[i]);
    var u := new byte[32];
    assert buffer[..|text|] == text;
    ComputeHmac(password, buffer, |text|, u);
    assert u[..] == u[..32];
    ghost var first := u[..];
    for i := 0 to 32
      invariant out[..i] == first[..i] && u[..] == first
    {
      out[i] := u[i];
      assert out[..i + 1] == out[..i] + [first[i]];
    }
    var r := 1;
    while r < rounds
      invariant 1 <= r && (rounds > 0 ==> r <= rounds) && (rounds == 0 ==> r == 1)
      invariant u[..] == Iterate(password, ShortSalt(salt), r - 1)
                && out[..32] == Block1(password, ShortSalt(salt), r - 1)
    {
      assert u[..32] == u[..];
      ComputeHmac(password, u, 32, u);
      assert u[..32] == u[..];
      XorInto(out, u);
      r := r + 1;
    }
  }
}
