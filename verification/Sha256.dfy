/**
 SHA-256 as kernel/security/crypto.c streams it, HMAC and PBKDF2 on top. The specification follows
 section 5.1.1 of FIPS 180-4 (padding), section 2 of RFC 2104 and section 5.2 of RFC 8018.
 */
module Sha256 {
  import opened Bytes

  type word = bv32

  type State = h: seq<word> | |h| == 8 witness [0, 0, 0, 0, 0, 0, 0, 0]

  type Chunk = p: seq<byte> | |p| == 64 witness seq(64, _ => 0)

  /** A compression function: what `block` does to the state. */
  type Step = (State, Chunk) -> State

  type number = x: int | 0 <= x < 0x1_0000_0000

  /** The round constants as numbers, eight at a time. */
  function Row(r: nat): (ks: seq<number>)
    ensures |ks| == 8
  {
    if r == 0 then [0x428a2f98, 0x71374491, 0xb5c0fbcf, 0xe9b5dba5, 0x3956c25b, 0x59f111f1, 0x923f82a4, 0xab1c5ed5]
    else if r == 1 then [0xd807aa98, 0x12835b01, 0x243185be, 0x550c7dc3, 0x72be5d74, 0x80deb1fe, 0x9bdc06a7, 0xc19bf174]
    else if r == 2 then [0xe49b69c1, 0xefbe4786, 0x0fc19dc6, 0x240ca1cc, 0x2de92c6f, 0x4a7484aa, 0x5cb0a9dc, 0x76f988da]
    else if r == 3 then [0x983e5152, 0xa831c66d, 0xb00327c8, 0xbf597fc7, 0xc6e00bf3, 0xd5a79147, 0x06ca6351, 0x14292967]
    else if r == 4 then [0x27b70a85, 0x2e1b2138, 0x4d2c6dfc, 0x53380d13, 0x650a7354, 0x766a0abb, 0x81c2c92e, 0x92722c85]
    else if r == 5 then [0xa2bfe8a1, 0xa81a664b, 0xc24b8b70, 0xc76c51a3, 0xd192e819, 0xd6990624, 0xf40e3585, 0x106aa070]
    else if r == 6 then [0x19a4c116, 0x1e376c08, 0x2748774c, 0x34b0bcb5, 0x391c0cb3, 0x4ed8aa4a, 0x5b9cca4f, 0x682e6ff3]
    else [0x748f82ee, 0x78a5636f, 0x84c87814, 0x8cc70208, 0x90befffa, 0xa4506ceb, 0xbef9a3f7, 0xc67178f2]
  }

  function Number(i: nat): number { Row(i / 8)[i % 8] }

  function Constants(): (k: seq<word>)
    ensures |k| == 64
  {
    seq(64, i requires 0 <= i < 64 => Number(i) as word)
  }

  /** The initial state as numbers. */
  function Start(): (hs: seq<number>)
    ensures |hs| == 8
  {
    [0x6a09e667, 0xbb67ae85, 0x3c6ef372, 0xa54ff53a, 0x510e527f, 0x9b05688c, 0x1f83d9ab, 0x5be0cd19]
  }

  function Initial(): State { seq(8, i requires 0 <= i < 8 => Start()[i] as word) }

  // --------------------------------------------------------------- compression

  function BigEndian(p: seq<byte>, o: nat): word
    requires o + 4 <= |p|
  {
    ToWord(p[o], p[o + 1], p[o + 2], p[o + 3])
  }

  function ToWord(a: nat, b: nat, c: nat, d: nat): word
    requires a < 256 && b < 256 && c < 256 && d < 256
  {
    (a * 0x100_0000 + b * 0x1_0000 + c * 0x100 + d) as bv32
  }

  /** The four mixing functions of section 4.1.2 of FIPS 180-4. */
  function Small0(x: word): word { x.RotateRight(7) ^ x.RotateRight(18) ^ (x >> 3) }

  function Small1(x: word): word { x.RotateRight(17) ^ x.RotateRight(19) ^ (x >> 10) }

  function Large0(x: word): word { x.RotateRight(2) ^ x.RotateRight(13) ^ x.RotateRight(22) }

  function Large1(x: word): word { x.RotateRight(6) ^ x.RotateRight(11) ^ x.RotateRight(25) }

  /** They are what the shifts of the code make: two shifts in opposite directions for each rotation. */
  lemma Mixing(x: word)
    ensures Small0(x) == ((x >> 7) | (x << 25)) ^ ((x >> 18) | (x << 14)) ^ (x >> 3)
    ensures Small1(x) == ((x >> 17) | (x << 15)) ^ ((x >> 19) | (x << 13)) ^ (x >> 10)
    ensures Large0(x) == ((x >> 2) | (x << 30)) ^ ((x >> 13) | (x << 19)) ^ ((x >> 22) | (x << 10))
    ensures Large1(x) == ((x >> 6) | (x << 26)) ^ ((x >> 11) | (x << 21)) ^ ((x >> 25) | (x << 7))
  {
  }

  /** The next word of the message schedule. */
  function NextWord(w: seq<word>): word
    requires |w| >= 16
  {
    var i := |w|;
    Mixed(w[i - 16], w[i - 15], w[i - 7], w[i - 2])
  }

  function Mixed(a: word, b: word, c: word, d: word): word { a + Small0(b) + c + Small1(d) }

  /** The schedule's recurrence at every place, whatever the first words. */
  lemma {:induction false} ScheduleIs(w: seq<word>)
    requires 16 <= |w| <= 64
    ensures w <= Schedule(w)
    ensures forall i :: |w| <= i < 64 ==> Recurs(Schedule(w), i)
    decreases 64 - |w|
  {
    hide Mixed;
    if |w| < 64 {
      var w' := w + [NextWord(w)];
      ScheduleIs(w');
      assert Schedule(w)[..|w'|] == w';
      assert Recurs(Schedule(w), |w|);
    }
  }

  predicate Recurs(w: seq<word>, i: nat)
    requires 16 <= i < |w|
  {
    w[i] == Mixed(w[i - 16], w[i - 15], w[i - 7], w[i - 2])
  }

  function Schedule(w: seq<word>): (r: seq<word>)
    requires 16 <= |w| <= 64
    ensures |r| == 64
    decreases 64 - |w|
  {
    if |w| == 64 then w else Schedule(w + [NextWord(w)])
  }

  function FirstWords(p: seq<byte>): (w: seq<word>)
    requires |p| == 64
    ensures |w| == 16
  {
    seq(16, i requires 0 <= i < 16 => BigEndian(p, 4 * i))
  }

  /** Each bit is that of `f` where `e` has a one, and that of `g` where it has a zero. */
  function Choice(e: word, f: word, g: word): word { (e & f) ^ (!e & g) }

  /** Each bit is the one that at least two of the three have. */
  function Majority(a: word, b: word, c: word): word { (a & b) ^ (a & c) ^ (b & c) }

  /** Seen through any mask under which `e` is all ones or all zeros. */
  lemma ChoiceBits(e: word, f: word, g: word, mask: word)
    ensures e & mask == mask ==> Choice(e, f, g) & mask == f & mask
    ensures e & mask == 0 ==> Choice(e, f, g) & mask == g & mask
  {
  }

  /** Seen through any mask under which two of the three agree. */
  lemma MajorityBits(a: word, b: word, c: word, mask: word)
    ensures a & mask == b & mask ==> Majority(a, b, c) & mask == a & mask
    ensures a & mask == c & mask ==> Majority(a, b, c) & mask == a & mask
    ensures b & mask == c & mask ==> Majority(a, b, c) & mask == b & mask
  {
    hide Majority;
    Masked(a, b, c, mask);
    TwoAgree(a & mask, b & mask, c & mask);
  }

  lemma TwoAgree(a: word, b: word, c: word)
    ensures Majority(a, a, c) == Majority(a, b, a) == a && Majority(a, b, b) == b
  {
  }

  lemma Masked(a: word, b: word, c: word, mask: word)
    ensures Majority(a, b, c) & mask == Majority(a & mask, b & mask, c & mask)
  {
  }

  function Temp1(e: word, f: word, g: word, h: word, k: word, w: word): word { h + Large1(e) + Choice(e, f, g) + k + w }

  function Temp2(a: word, b: word, c: word): word { Large0(a) + Majority(a, b, c) }

  /** One round on the eight working variables. */
  function Round(s: seq<word>, k: word, w: word): (r: seq<word>)
    requires |s| == 8
    ensures |r| == 8
  {
    var a, b, c, e, f, g := s[0], s[1], s[2], s[4], s[5], s[6];
    var t1 := Temp1(e, f, g, s[7], k, w);
    [t1 + Temp2(a, b, c), a, b, c, s[3] + t1, e, f, g]
  }

  /** Step 3 of section 6.2.2 of FIPS 180-4. */
  lemma RoundIs(s: seq<word>, k: word, w: word)
    requires |s| == 8
    ensures var r, t1 := Round(s, k, w), Temp1(s[4], s[5], s[6], s[7], k, w);
            && r[0] == t1 + Temp2(s[0], s[1], s[2]) && r[1] == s[0] && r[2] == s[1] && r[3] == s[2]
            && r[4] == s[3] + t1 && r[5] == s[4] && r[6] == s[5] && r[7] == s[6]
  {
    hide Temp1, Temp2;
  }

  /** The working variables after the first `n` rounds. */
  function Rounds(s: seq<word>, w: seq<word>, n: nat): (r: seq<word>)
    requires |s| == 8 && |w| == 64 && n <= 64
    ensures |r| == 8
  {
    if n == 0 then s else Round(Rounds(s, w, n - 1), Constants()[n - 1], w[n - 1])
  }

  function Compress(h: State, p: Chunk): State {
    var w := Schedule(FirstWords(p));
    var s := Rounds(h, w, |w|);
    seq(8, i requires 0 <= i < 8 => h[i] + s[i])
  }

  // -------------------------------------------------------------- the standard

  /** Compression folded over whole blocks. */
  function Absorb(f: Step, h: State, m: seq<byte>): State
    requires |m| % 64 == 0
    decreases |m|
  {
    if m == [] then h else Absorb(f, f(h, m[..64]), m[64..])
  }

  /** Number of zero bytes in the padding: the least that brings the length to 56 modulo 64. */
  function PadZeros(n: nat): (k: nat)
    ensures k < 64 && (n + 1 + k) % 64 == 56
  {
    (55 - n) % 64
  }

  /** The length in bits, as eight big-endian bytes. */
  function Be64(v: nat): (b: seq<byte>)
    ensures |b| == 8
  {
    seq(8, i requires 0 <= i < 8 => LengthByte(v, i))
  }

  function LengthByte(v: nat, i: nat): byte
    requires i < 8
  {
    v / Limit(7 - i) % 256
  }

  function Nothing(k: nat): (z: seq<byte>)
    ensures |z| == k
  {
    seq(k, _ => 0)
  }

  /** A bit count, kept in 64 bits. */
  function Count64(v: nat): nat { v % 0x1_0000_0000_0000_0000 }

  function Padded(m: seq<byte>): (r: seq<byte>)
    ensures |r| % 64 == 0
  {
    m + [0x80] + Nothing(PadZeros(|m|)) + Be64(Count64(8 * |m|))
  }

  function Digest(h: State): (d: seq<byte>)
    ensures |d| == 32
  {
    seq(32, i requires 0 <= i < 32 => Octet(h[i / 4], 3 - i % 4))
  }

  /** Byte `k` of a word, counted from the low end. */
  function Octet(x: word, k: nat): byte { (x as int) / Limit(k) % 256 }

  /** The state once the whole blocks `m` are compressed. */
  function Absorbed(m: seq<byte>): State
    requires |m| % 64 == 0
  {
    Absorb(Compress, Initial(), m)
  }

  /** SHA-256 of a message. */
  function Hash(m: seq<byte>): (d: seq<byte>)
    ensures |d| == 32
  {
    Digest(Absorbed(Padded(m)))
  }

  lemma {:induction false} AbsorbAppend(f: Step, h: State, a: seq<byte>, b: seq<byte>)
    requires |a| % 64 == 0 && |b| % 64 == 0
    ensures Absorb(f, h, a + b) == Absorb(f, Absorb(f, h, a), b)
    decreases |a|
  {
    if a == [] {
      assert a + b == b;
    } else {
      assert (a + b)[..64] == a[..64] && (a + b)[64..] == a[64..] + b;
      AbsorbAppend(f, f(h, a[..64]), a[64..], b);
    }
  }

  lemma AbsorbOne(f: Step, h: State, a: seq<byte>, b: Chunk)
    requires |a| % 64 == 0
    ensures Absorb(f, h, a + b) == f(Absorb(f, h, a), b)
  {
    AbsorbAppend(f, h, a, b);
    assert b[..64] == b && b[64..] == [];
  }

  lemma AbsorbedOne(a: seq<byte>, b: Chunk)
    requires |a| % 64 == 0
    ensures Absorbed(a + b) == Compress(Absorbed(a), b)
  {
    hide Compress, Initial, Absorb;
    AbsorbOne(Compress, Initial(), a, b);
  }

  lemma AbsorbedNothing()
    ensures Absorbed([]) == Initial()
  {
    hide Compress, Initial;
  }
}
