/**
 The Internet checksum of kernel/net/net.c and the two headers that carry it. `Sum` adds the
 16-bit big-endian words; the code keeps it in 32 bits and folds the carries back in.
 */
module Checksum {
  import opened Bytes

  /** The sum of the 16-bit words; a last odd byte is the high half of a word. */
  function Sum(d: seq<byte>): nat {
    if |d| == 0 then 0
    else if |d| == 1 then Word(d[0], 0)
    else Word(d[0], d[1]) + Sum(d[2..])
  }

  /** read16: a big-endian word. */
  function Word(hi: nat, lo: nat): nat { hi * 256 + lo }

  /** End-around carry. */
  function Fold(x: nat): nat {
    if x < 0x1_0000 then x else Fold(x % 0x1_0000 + x / 0x1_0000)
  }

  /** checksum: the complement of the folded 32-bit sum. */
  function Check(d: seq<byte>): (c: nat)
    ensures c < 0x1_0000
  {
    FoldIs(Sum(d) % 0x1_0000_0000);
    0xffff - Fold(Sum(d) % 0x1_0000_0000)
  }

  /** write16: a big-endian word. */
  function Put16(d: seq<byte>, o: nat, v: nat): (r: seq<byte>)
    requires o + 2 <= |d| && v < 0x1_0000
    ensures |r| == |d|
  {
    d[o := v / 256][o + 1 := v % 256]
  }

  // -------------------------------------------------------------------- lemmas

  /** Folding is the residue modulo 65535, with 65535 standing for the nonzero multiples. */
  lemma {:induction false} FoldIs(x: nat)
    ensures Fold(x) == if x == 0 then 0 else 1 + (x - 1) % 0xffff
    decreases x
  {
    if x >= 0x1_0000 {
      var y := x % 0x1_0000 + x / 0x1_0000;
      FoldIs(y);
      assert x - 1 == (y - 1) + 0xffff * (x / 0x1_0000);
      SameResidue(y - 1, x / 0x1_0000);
    }
  }

  lemma {:induction false} SameResidue(a: nat, k: nat)
    ensures (a + 0xffff * k) % 0xffff == a % 0xffff
  {
    if k > 0 {
      SameResidue(a, k - 1);
      assert a + 0xffff * k == (a + 0xffff * (k - 1)) + 0xffff;
    }
  }

  /** Filling a zero field at an even offset adds its value to the sum. */
  lemma {:induction false} SumPut(d: seq<byte>, o: nat, v: nat)
    requires o % 2 == 0 && o + 2 <= |d| && v < 0x1_0000 && d[o] == 0 && d[o + 1] == 0
    ensures Sum(Put16(d, o, v)) == Sum(d) + v
    decreases o
  {
    var r := Put16(d, o, v);
    if o == 0 {
      assert r[2..] == d[2..];
    } else {
      assert r[2..] == Put16(d[2..], o - 2, v);
      SumPut(d[2..], o - 2, v);
    }
  }

  /** A buffer verifies exactly when its 32-bit sum is a nonzero multiple of 65535. */
  lemma VerifiesIff(d: seq<byte>)
    ensures var s := Sum(d) % 0x1_0000_0000; Check(d) == 0 <==> s > 0 && s % 0xffff == 0
  {
    hide Sum, Fold;
    var s := Sum(d) % 0x1_0000_0000;
    FoldIs(s);
    if s > 0 { assert (s - 1) % 0xffff == 0xfffe <==> s % 0xffff == 0; }
  }

  /**
   The computed checksum, written into its zero field at an even offset, makes the whole buffer verify. This
   holds for buffers of any length: 65535 divides 2^32 - 1, so filling the field never carries out of 32 bits.
   */
  lemma FilledVerifies(d: seq<byte>, o: nat)
    requires o % 2 == 0 && o + 2 <= |d| && d[o] == 0 && d[o + 1] == 0
    ensures Check(Put16(d, o, Check(d))) == 0
  {
    hide Sum, Fold;
    var c, s := Check(d), Sum(d) % 0x1_0000_0000;
    SumPut(d, o, c);
    FoldIs(s);
    ComplementCancels(s);
    Wraps(Sum(d), c);
    VerifiesIff(Put16(d, o, c));
  }

  lemma ComplementCancels(s: nat)
    requires s < 0x1_0000_0000
    ensures var t := s + (0xffff - if s == 0 then 0 else 1 + (s - 1) % 0xffff); 0 < t < 0x1_0000_0000 && t % 0xffff == 0
  {
    if s > 0 {
      var q, r := (s - 1) / 0xffff, (s - 1) % 0xffff;
      assert s - 1 == 0xffff * q + r;
      assert s + (0xffff - (1 + r)) == 0xffff * (q + 1);
      SameResidue(0, q + 1);
    }
  }

  /** What the sum is of: big-endian words, an odd last byte padded with zero. */
  lemma {:induction false} SumConcat(a: seq<byte>, b: seq<byte>)
    requires |a| % 2 == 0
    ensures Sum(a + b) == Sum(a) + Sum(b)
  {
    if a == [] {
      assert a + b == b;
    } else {
      SumConcat(a[2..], b);
      assert (a + b)[2..] == a[2..] + b;
    }
  }

  lemma SumWord(hi: byte, lo: byte)
    ensures Sum([hi, lo]) == 0x100 * hi as int + lo as int && Sum([hi]) == 0x100 * hi as int
  {
    assert [hi, lo][2..] == [];
  }

  // ------------------------------------------------------------------ the code

  /** The adding loop, in 32 bits. */
  method AddWords(d: seq<byte>) returns (sum: nat)
    ensures sum == Sum(d) % 0x1_0000_0000
  {
    hide Word;
    var i: nat := 0;
    sum := 0;
    assert d[0..] == d;
    while |d| - i > 1
      invariant i <= |d| && sum < 0x1_0000_0000 && (sum + Sum(d[i..])) % 0x1_0000_0000 == Sum(d) % 0x1_0000_0000
    {
      assert d[i..][2..] == d[i + 2..];
      Wraps(sum + Word(d[i], d[i + 1]), Sum(d[i + 2..]));
      sum := (sum + Word(d[i], d[i + 1])) % 0x1_0000_0000;
      i := i + 2;
    }
    if |d| - i == 1 { sum := (sum + Word(d[i], 0)) % 0x1_0000_0000; }
  }

  /** checksum. */
  method ComputeChecksum(d: seq<byte>) returns (c: nat)
    ensures c == Check(d)
  {
    hide Sum;
    var sum := AddWords(d);
    ghost var total := sum;
    while sum >= 0x1_0000
      invariant Fold(sum) == Fold(total)
    {
      sum := sum % 0x1_0000 + sum / 0x1_0000;
    }
    return 0xffff - sum;
  }

  lemma Wraps(a: nat, b: nat)
    ensures (a % 0x1_0000_0000 + b) % 0x1_0000_0000 == (a + b) % 0x1_0000_0000
  {
    var q := a / 0x1_0000_0000;
    assert a == 0x1_0000_0000 * q + a % 0x1_0000_0000;
  }

  // ------------------------------------------------------------------- headers

  /** The IPv4 header before its checksum is filled in. */
  function Ipv4Blank(length: nat, id: nat, protocol: byte, source: seq<byte>, destination: seq<byte>): (h: seq<byte>)
    requires length < 0x1_0000 && id < 0x1_0000 && |source| == |destination| == 4
    ensures |h| == 20 && h[10] == 0 && h[11] == 0
  {
    [0x45, 0, length / 256, length % 256, id / 256, id % 256, 0, 0, 64, protocol, 0, 0] + source + destination
  }

  /** The header's fields at their offsets, with the checksum filled in. */
  lemma BlankFields(length: nat, id: nat, protocol: byte, source: seq<byte>, destination: seq<byte>, c: nat)
    requires length < 0x1_0000 && id < 0x1_0000 && c < 0x1_0000 && |source| == |destination| == 4
    ensures var h := Put16(Ipv4Blank(length, id, protocol, source, destination), 10, c);
            && h[0] == 0x45 && h[1] == 0 && h[6] == h[7] == 0 && h[8] == 64 && h[9] == protocol
            && h[2] as int * 0x100 + h[3] as int == length && h[4] as int * 0x100 + h[5] as int == id
            && h[12..16] == source && h[16..] == destination
  {
    var b := Ipv4Blank(length, id, protocol, source, destination);
    var h := Put16(b, 10, c);
    assert b[12..16] == source && b[16..] == destination;
    assert h[12..16] == b[12..16] && h[16..] == b[16..];
  }

  /** What stands behind the 14 bytes of the Ethernet header. */
  lemma Behind(front: seq<byte>, h: seq<byte>)
    requires |front| == 14 && |h| == 20
    ensures var f := front + h;
            && f[..14] == front && f[14..] == h && f[26..30] == h[12..16] && f[30..] == h[16..]
            && forall i :: 14 <= i < 34 ==> f[i] == h[i - 14]
  {
  }

  /** The state of the sender: its addresses and the identification of the last packet. */
  class Sender {
    const ip: seq<byte>
    const mac: seq<byte>
    var ipId: nat

    ghost predicate Valid()
      reads this
    {
      |ip| == 4 && |mac| == 6 && ipId < 0x1_0000
    }

    /** ipv4_begin: the Ethernet and IPv4 headers of a packet; the IPv4 header verifies. */
    method Ipv4Begin(destination: seq<byte>, protocol: byte, payload: nat, nextHop: seq<byte>) returns (f: seq<byte>)
      requires Valid() && |destination| == 4 && |nextHop| == 6
      modifies this`ipId
      ensures Valid() && ipId == (old(ipId) + 1) % 0x1_0000
      ensures |f| == 34 && f[..14] == nextHop + mac + [8, 0] && Check(f[14..]) == 0
      ensures f[14] == 0x45 && f[15] == 0 && f[20] == f[21] == 0 && f[22] == 64 && f[23] == protocol
      ensures f[16] as int * 0x100 + f[17] as int == (20 + payload) % 0x1_0000
      ensures f[18] as int * 0x100 + f[19] as int == ipId
      ensures f[26..30] == ip && f[30..] == destination
    {
      hide Check, Ipv4Blank, Put16;
      ipId := (ipId + 1) % 0x1_0000;
      var h := Ipv4Blank((20 + payload) % 0x1_0000, ipId, protocol, ip, destination);
      FilledVerifies(h, 10);
      var c := ComputeChecksum(h);
      f := nextHop + mac + [8, 0] + Put16(h, 10, c);
      BlankFields((20 + payload) % 0x1_0000, ipId, protocol, ip, destination, c);
      Behind(nextHop + mac + [8, 0], Put16(h, 10, c));
    }

    /** tcp_checksum of a segment to `destination`: filled into the zeroed field, it makes the segment verify. */
    method TcpChecksum(destination: seq<byte>, segment: seq<byte>) returns (c: nat)
      requires Valid() && |destination| == 4 && |segment| <= 1468
      ensures c == Check(Pseudo(ip, destination, |segment|) + segment)
      ensures |segment| >= 18 && segment[16] == 0 && segment[17] == 0 ==>
                c < 0x1_0000 && Check(Pseudo(ip, destination, |segment|) + Put16(segment, 16, c)) == 0
    {
      hide Check, Pseudo;
      c := ComputeChecksum(Pseudo(ip, destination, |segment|) + segment);
      if |segment| >= 18 && segment[16] == 0 && segment[17] == 0 { SegmentVerifies(ip, destination, segment); }
    }
  }

  /** The pseudo header of a TCP segment of `n` bytes. */
  function Pseudo(source: seq<byte>, destination: seq<byte>, n: nat): (p: seq<byte>)
    requires |source| == |destination| == 4 && n < 0x1_0000
    ensures |p| == 12
  {
    source + destination + [0, 6, n / 256, n % 256]
  }

  /** The pseudo header adds both addresses, the protocol number 6 and the length to the sum of the segment. */
  lemma PseudoSum(source: seq<byte>, destination: seq<byte>, segment: seq<byte>)
    requires |source| == |destination| == 4 && |segment| < 0x1_0000
    ensures Sum(Pseudo(source, destination, |segment|) + segment)
            == Sum(source) + Sum(destination) + 6 + |segment| + Sum(segment)
  {
    hide Sum;
    var tail: seq<byte> := [0, 6, |segment| / 256, |segment| % 256];
    SumParts(source, destination, tail, segment);
    TailSum(|segment|, tail);
  }

  lemma SumParts(a: seq<byte>, b: seq<byte>, c: seq<byte>, d: seq<byte>)
    requires |a| == |b| == |c| == 4
    ensures Sum(a + b + c + d) == Sum(a) + Sum(b) + Sum(c) + Sum(d)
  {
    hide Sum;
    SumConcat(a + b + c, d);
    SumConcat(a + b, c);
    SumConcat(a, b);
  }

  lemma TailSum(n: nat, tail: seq<byte>)
    requires n < 0x1_0000 && tail == [0, 6, n / 256, n % 256]
    ensures Sum(tail) == 6 + n
  {
    assert tail == [0, 6] + [n / 256, n % 256];
    SumConcat([0, 6], [n / 256, n % 256]);
    SumWord(0, 6);
    SumWord(n / 256, n % 256);
  }

  /** A segment whose checksum field is filled as tcp_send does verifies together with its pseudo header. */
  lemma SegmentVerifies(source: seq<byte>, destination: seq<byte>, segment: seq<byte>)
    requires |source| == |destination| == 4 && 18 <= |segment| < 0x1_0000 && segment[16] == 0 && segment[17] == 0
    ensures var p := Pseudo(source, destination, |segment|);
            Check(p + Put16(segment, 16, Check(p + segment))) == 0
  {
    hide Check, Pseudo;
    var p := Pseudo(source, destination, |segment|);
    var c := Check(p + segment);
    FilledVerifies(p + segment, 28);
    assert Put16(p + segment, 28, c) == p + Put16(segment, 16, c);
  }
}
