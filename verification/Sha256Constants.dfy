/**
 Where the numbers of SHA-256 come from (sections 4.2.2 and 5.3.3 of FIPS 180-4): the round constants are the first 32
 bits of the fractional parts of the cube roots of the first 64 primes, the initial state those of the square roots of
 the first eight.
 */
module Sha256Constants {
  import opened Sha256

  // -------------------------------------------------------------------- primes

  predicate Prime(n: nat) { n >= 2 && forall d :: 2 <= d < n ==> n % d != 0 }

  /** The first 64 primes, eight at a time. */
  function PrimeRow(r: nat): (ps: seq<nat>)
    ensures |ps| == 8
  {
    if r == 0 then [2, 3, 5, 7, 11, 13, 17, 19]
    else if r == 1 then [23, 29, 31, 37, 41, 43, 47, 53]
    else if r == 2 then [59, 61, 67, 71, 73, 79, 83, 89]
    else if r == 3 then [97, 101, 103, 107, 109, 113, 127, 131]
    else if r == 4 then [137, 139, 149, 151, 157, 163, 167, 173]
    else if r == 5 then [179, 181, 191, 193, 197, 199, 211, 223]
    else if r == 6 then [227, 229, 233, 239, 241, 251, 257, 263]
    else [269, 271, 277, 281, 283, 293, 307, 311]
  }

  function PrimeAt(i: nat): nat { PrimeRow(i / 8)[i % 8] }

  /** None of the primes below 18 divides `n`, except `n` itself. */
  predicate Sieved(n: nat) {
    && (n == 2 || n % 2 != 0) && (n == 3 || n % 3 != 0) && (n == 5 || n % 5 != 0) && (n == 7 || n % 7 != 0)
    && (n == 11 || n % 11 != 0) && (n == 13 || n % 13 != 0) && (n == 17 || n % 17 != 0)
  }

  /** Up to 323 those suffice: a factor of a product below 18 * 18 is below 18. */
  lemma PrimeIff(n: nat)
    requires 2 <= n < 324
    ensures Prime(n) <==> Sieved(n)
  {
    if !Sieved(n) {
      var d := if n % 2 == 0 then 2 else if n % 3 == 0 then 3 else if n % 5 == 0 then 5 else if n % 7 == 0 then 7
               else if n % 11 == 0 then 11 else if n % 13 == 0 then 13 else 17;
      assert n % d == 0 && 2 <= d < n;
    }
    if Sieved(n) {
      forall d | 2 <= d < n ensures n % d != 0 { NoFactor(n, d); }
    }
  }

  lemma NoFactor(n: nat, d: nat)
    requires 2 <= d < n < 324 && Sieved(n)
    ensures n % d != 0
  {
    hide Sieved;
    if n % d == 0 {
      var e := n / d;
      assert n == d * e;
      if d < 18 {
        SmallFactor(n, d, e);
      } else {
        assert e >= 18 ==> d * e >= 18 * 18;
        assert e >= 2;
        SmallFactor(n, e, d);
      }
    }
  }

  lemma SmallFactor(n: nat, d: nat, e: nat)
    requires n == d * e && 2 <= d < 18 && 2 <= e
    ensures !Sieved(n)
  {
    var q := if d % 2 == 0 then 2 else if d % 3 == 0 then 3 else if d % 5 == 0 then 5 else d;
    assert d % q == 0 && (q == 2 || q == 3 || q == 5 || q == 7 || q == 11 || q == 13 || q == 17);
    var m := d / q;
    assert d == q * m && m >= 1;
    Reassociate(q, m, e);
    assert m * e >= 2 && n != q;
    Multiple(n, q, m * e);
  }

  lemma Multiple(n: nat, q: nat, k: nat)
    requires n == q * k && (q == 2 || q == 3 || q == 5 || q == 7 || q == 11 || q == 13 || q == 17) && n != q
    ensures !Sieved(n)
  {
    hide Sieved;
    Remainders(k);
    NotSieved(n, q);
  }

  lemma Remainders(k: nat)
    ensures 2 * k % 2 == 0 && 3 * k % 3 == 0 && 5 * k % 5 == 0 && 7 * k % 7 == 0
    ensures 11 * k % 11 == 0 && 13 * k % 13 == 0 && 17 * k % 17 == 0
  {
  }

  lemma NotSieved(n: nat, q: nat)
    requires (q == 2 || q == 3 || q == 5 || q == 7 || q == 11 || q == 13 || q == 17) && n % q == 0 && n != q
    ensures !Sieved(n)
  {
  }

  lemma Reassociate(a: nat, b: nat, c: nat)
    ensures a * b * c == a * (b * c)
  {
  }

  /** `p` is prime, and no prime lies between it and `before`. */
  ghost predicate NextPrime(before: nat, p: nat) { Prime(p) && forall n :: before < n < p ==> !Prime(n) }

  lemma Adjacent(before: nat, p: nat)
    requires 1 <= before < p < 324 && Sieved(p) && forall n :: before < n < p ==> !Sieved(n)
    ensures NextPrime(before, p)
  {
    hide Prime, Sieved;
    PrimeIff(p);
    forall n | before < n < p ensures !Prime(n) { PrimeIff(n); }
  }

  // --------------------------------------------------------------------- roots

  const ONE: nat := 0x1_0000_0000

  /** `whole` and the 32 bits `k` behind the point are the cube root of `p`, cut off. */
  predicate CubeRoot(whole: nat, k: nat, p: nat) {
    var x := whole * ONE + k;
    k < ONE && x * x * x <= p * (ONE * ONE * ONE) < (x + 1) * (x + 1) * (x + 1)
  }

  predicate SquareRoot(whole: nat, k: nat, p: nat) {
    var x := whole * ONE + k;
    k < ONE && x * x <= p * (ONE * ONE) < (x + 1) * (x + 1)
  }

  /** The constant of round `i` belongs to a prime, which follows the prime of the round before. */
  ghost predicate ConstantIs(i: nat) { FollowsAt(i) && RootAt(i) }

  ghost predicate FollowsAt(i: nat) { NextPrime(if i == 0 then 1 else PrimeAt(i - 1), PrimeAt(i)) }

  ghost predicate RootAt(i: nat) { exists whole :: CubeRoot(whole, Number(i), PrimeAt(i)) }

  lemma Follows(i: nat, before: nat, p: nat)
    requires PrimeAt(i) == p && before == if i == 0 then 1 else PrimeAt(i - 1)
    requires 1 <= before < p < 324 && Sieved(p) && NoneFrom(before + 1, p)
    ensures FollowsAt(i)
  {
    hide PrimeAt, Sieved;
    NoneBetween(before + 1, p);
    Adjacent(before, p);
  }

  /** The numbers from `n` on below `m` all have a small factor. */
  predicate NoneFrom(n: nat, m: nat)
    decreases m - n
  {
    n >= m || (!Sieved(n) && NoneFrom(n + 1, m))
  }

  lemma {:induction false} NoneBetween(n: nat, m: nat)
    requires NoneFrom(n, m)
    ensures forall k :: n <= k < m ==> !Sieved(k)
    decreases m - n
  {
    hide Sieved;
    if n < m { NoneBetween(n + 1, m); }
  }

  lemma Root(i: nat, whole: nat, k: nat, p: nat)
    requires Number(i) == k && PrimeAt(i) == p && CubeRoot(whole, k, p)
    ensures RootAt(i)
  {
    hide PrimeAt, Number, CubeRoot;
  }

  lemma PrimesFrom0()
    ensures forall i :: 0 <= i < 4 ==> FollowsAt(i)
  {
    hide FollowsAt;
    Follows(0, 1, 2);
    Follows(1, 2, 3);
    Follows(2, 3, 5);
    Follows(3, 5, 7);
  }

  lemma PrimesFrom4()
    ensures forall i :: 4 <= i < 8 ==> FollowsAt(i)
  {
    hide FollowsAt;
    assert NoneFrom(8, 11);
    Follows(4, 7, 11);
    Follows(5, 11, 13);
    assert NoneFrom(14, 17);
    Follows(6, 13, 17);
    Follows(7, 17, 19);
  }

  lemma PrimesFrom8()
    ensures forall i :: 8 <= i < 12 ==> FollowsAt(i)
  {
    hide FollowsAt;
    assert NoneFrom(20, 23);
    Follows(8, 19, 23);
    assert NoneFrom(24, 29);
    Follows(9, 23, 29);
    Follows(10, 29, 31);
    assert NoneFrom(32, 37);
    Follows(11, 31, 37);
  }

  lemma PrimesFrom12()
    ensures forall i :: 12 <= i < 16 ==> FollowsAt(i)
  {
    hide FollowsAt;
    assert NoneFrom(38, 41);
    Follows(12, 37, 41);
    Follows(13, 41, 43);
    assert NoneFrom(44, 47);
    Follows(14, 43, 47);
    assert NoneFrom(48, 53);
    Follows(15, 47, 53);
  }

  lemma PrimesFrom16()
    ensures forall i :: 16 <= i < 20 ==> FollowsAt(i)
  {
    hide FollowsAt;
    assert NoneFrom(54, 59);
    Follows(16, 53, 59);
    Follows(17, 59, 61);
    assert NoneFrom(62, 67);
    Follows(18, 61, 67);
    assert NoneFrom(68, 71);
    Follows(19, 67, 71);
  }

  lemma PrimesFrom20()
    ensures forall i :: 20 <= i < 24 ==> FollowsAt(i)
  {
    hide FollowsAt;
    Follows(20, 71, 73);
    assert NoneFrom(74, 79);
    Follows(21, 73, 79);
    assert NoneFrom(80, 83);
    Follows(22, 79, 83);
    assert NoneFrom(84, 89);
    Follows(23, 83, 89);
  }

  lemma PrimesFrom24()
    ensures forall i :: 24 <= i < 28 ==> FollowsAt(i)
  {
    hide FollowsAt;
    assert NoneFrom(90, 97);
    Follows(24, 89, 97);
    assert NoneFrom(98, 101);
    Follows(25, 97, 101);
    Follows(26, 101, 103);
    assert NoneFrom(104, 107);
    Follows(27, 103, 107);
  }

  lemma PrimesFrom28()
    ensures forall i :: 28 <= i < 32 ==> FollowsAt(i)
  {
    hide FollowsAt;
    Follows(28, 107, 109);
    assert NoneFrom(110, 113);
    Follows(29, 109, 113);
    assert NoneFrom(114, 127);
    Follows(30, 113, 127);
    assert NoneFrom(128, 131);
    Follows(31, 127, 131);
  }

  lemma PrimesFrom32()
    ensures forall i :: 32 <= i < 36 ==> FollowsAt(i)
  {
    hide FollowsAt;
    assert NoneFrom(132, 137);
    Follows(32, 131, 137);
    Follows(33, 137, 139);
    assert NoneFrom(140, 149);
    Follows(34, 139, 149);
    Follows(35, 149, 151);
  }

  lemma PrimesFrom36()
    ensures forall i :: 36 <= i < 40 ==> FollowsAt(i)
  {
    hide FollowsAt;
    assert NoneFrom(152, 157);
    Follows(36, 151, 157);
    assert NoneFrom(158, 163);
    Follows(37, 157, 163);
    assert NoneFrom(164, 167);
    Follows(38, 163, 167);
    assert NoneFrom(168, 173);
    Follows(39, 167, 173);
  }

  lemma PrimesFrom40()
    ensures forall i :: 40 <= i < 44 ==> FollowsAt(i)
  {
    hide FollowsAt;
    assert NoneFrom(174, 179);
    Follows(40, 173, 179);
    Follows(41, 179, 181);
    assert NoneFrom(182, 191);
    Follows(42, 181, 191);
    Follows(43, 191, 193);
  }

  lemma PrimesFrom44()
    ensures forall i :: 44 <= i < 48 ==> FollowsAt(i)
  {
    hide FollowsAt;
    assert NoneFrom(194, 197);
    Follows(44, 193, 197);
    Follows(45, 197, 199);
    assert NoneFrom(200, 211);
    Follows(46, 199, 211);
    assert NoneFrom(212, 223);
    Follows(47, 211, 223);
  }

  lemma PrimesFrom48()
    ensures forall i :: 48 <= i < 52 ==> FollowsAt(i)
  {
    hide FollowsAt;
    assert NoneFrom(224, 227);
    Follows(48, 223, 227);
    Follows(49, 227, 229);
    assert NoneFrom(230, 233);
    Follows(50, 229, 233);
    assert NoneFrom(234, 239);
    Follows(51, 233, 239);
  }

  lemma PrimesFrom52()
    ensures forall i :: 52 <= i < 56 ==> FollowsAt(i)
  {
    hide FollowsAt;
    Follows(52, 239, 241);
    assert NoneFrom(242, 251);
    Follows(53, 241, 251);
    assert NoneFrom(252, 257);
    Follows(54, 251, 257);
    assert NoneFrom(258, 263);
    Follows(55, 257, 263);
  }

  lemma PrimesFrom56()
    ensures forall i :: 56 <= i < 60 ==> FollowsAt(i)
  {
    hide FollowsAt;
    assert NoneFrom(264, 269);
    Follows(56, 263, 269);
    Follows(57, 269, 271);
    assert NoneFrom(272, 277);
    Follows(58, 271, 277);
    assert NoneFrom(278, 281);
    Follows(59, 277, 281);
  }

  lemma PrimesFrom60()
    ensures forall i :: 60 <= i < 64 ==> FollowsAt(i)
  {
    hide FollowsAt;
    Follows(60, 281, 283);
    assert NoneFrom(284, 293);
    Follows(61, 283, 293);
    assert NoneFrom(294, 307);
    Follows(62, 293, 307);
    assert NoneFrom(308, 311);
    Follows(63, 307, 311);
  }

  lemma RootsFrom0()
    ensures forall i :: 0 <= i < 8 ==> RootAt(i)
  {
    hide RootAt;
    Root(0, 1, 0x428a2f98, 2);
    Root(1, 1, 0x71374491, 3);
    Root(2, 1, 0xb5c0fbcf, 5);
    Root(3, 1, 0xe9b5dba5, 7);
    Root(4, 2, 0x3956c25b, 11);
    Root(5, 2, 0x59f111f1, 13);
    Root(6, 2, 0x923f82a4, 17);
    Root(7, 2, 0xab1c5ed5, 19);
  }

  lemma RootsFrom8()
    ensures forall i :: 8 <= i < 16 ==> RootAt(i)
  {
    hide RootAt;
    Root(8, 2, 0xd807aa98, 23);
    Root(9, 3, 0x12835b01, 29);
    Root(10, 3, 0x243185be, 31);
    Root(11, 3, 0x550c7dc3, 37);
    Root(12, 3, 0x72be5d74, 41);
    Root(13, 3, 0x80deb1fe, 43);
    Root(14, 3, 0x9bdc06a7, 47);
    Root(15, 3, 0xc19bf174, 53);
  }

  lemma RootsFrom16()
    ensures forall i :: 16 <= i < 24 ==> RootAt(i)
  {
    hide RootAt;
    Root(16, 3, 0xe49b69c1, 59);
    Root(17, 3, 0xefbe4786, 61);
    Root(18, 4, 0x0fc19dc6, 67);
    Root(19, 4, 0x240ca1cc, 71);
    Root(20, 4, 0x2de92c6f, 73);
    Root(21, 4, 0x4a7484aa, 79);
    Root(22, 4, 0x5cb0a9dc, 83);
    Root(23, 4, 0x76f988da, 89);
  }

  lemma RootsFrom24()
    ensures forall i :: 24 <= i < 32 ==> RootAt(i)
  {
    hide RootAt;
    Root(24, 4, 0x983e5152, 97);
    Root(25, 4, 0xa831c66d, 101);
    Root(26, 4, 0xb00327c8, 103);
    Root(27, 4, 0xbf597fc7, 107);
    Root(28, 4, 0xc6e00bf3, 109);
    Root(29, 4, 0xd5a79147, 113);
    Root(30, 5, 0x06ca6351, 127);
    Root(31, 5, 0x14292967, 131);
  }

  lemma RootsFrom32()
    ensures forall i :: 32 <= i < 40 ==> RootAt(i)
  {
    hide RootAt;
    Root(32, 5, 0x27b70a85, 137);
    Root(33, 5, 0x2e1b2138, 139);
    Root(34, 5, 0x4d2c6dfc, 149);
    Root(35, 5, 0x53380d13, 151);
    Root(36, 5, 0x650a7354, 157);
    Root(37, 5, 0x766a0abb, 163);
    Root(38, 5, 0x81c2c92e, 167);
    Root(39, 5, 0x92722c85, 173);
  }

  lemma RootsFrom40()
    ensures forall i :: 40 <= i < 48 ==> RootAt(i)
  {
    hide RootAt;
    Root(40, 5, 0xa2bfe8a1, 179);
    Root(41, 5, 0xa81a664b, 181);
    Root(42, 5, 0xc24b8b70, 191);
    Root(43, 5, 0xc76c51a3, 193);
    Root(44, 5, 0xd192e819, 197);
    Root(45, 5, 0xd6990624, 199);
    Root(46, 5, 0xf40e3585, 211);
    Root(47, 6, 0x106aa070, 223);
  }

  lemma RootsFrom48()
    ensures forall i :: 48 <= i < 56 ==> RootAt(i)
  {
    hide RootAt;
    Root(48, 6, 0x19a4c116, 227);
    Root(49, 6, 0x1e376c08, 229);
    Root(50, 6, 0x2748774c, 233);
    Root(51, 6, 0x34b0bcb5, 239);
    Root(52, 6, 0x391c0cb3, 241);
    Root(53, 6, 0x4ed8aa4a, 251);
    Root(54, 6, 0x5b9cca4f, 257);
    Root(55, 6, 0x682e6ff3, 263);
  }

  lemma RootsFrom56()
    ensures forall i :: 56 <= i < 64 ==> RootAt(i)
  {
    hide RootAt;
    Root(56, 6, 0x748f82ee, 269);
    Root(57, 6, 0x78a5636f, 271);
    Root(58, 6, 0x84c87814, 277);
    Root(59, 6, 0x8cc70208, 281);
    Root(60, 6, 0x90befffa, 283);
    Root(61, 6, 0xa4506ceb, 293);
    Root(62, 6, 0xbef9a3f7, 307);
    Root(63, 6, 0xc67178f2, 311);
  }

  /** All 64 constants, and the primes in order from 2 on. */
  lemma ConstantsAre()
    ensures PrimeAt(0) == 2 && forall i :: 0 <= i < 64 ==> ConstantIs(i) && Constants()[i] == Number(i) as word
  {
    hide FollowsAt, RootAt, Number;
    PrimesFrom0();
    PrimesFrom4();
    PrimesFrom8();
    PrimesFrom12();
    PrimesFrom16();
    PrimesFrom20();
    PrimesFrom24();
    PrimesFrom28();
    PrimesFrom32();
    PrimesFrom36();
    PrimesFrom40();
    PrimesFrom44();
    PrimesFrom48();
    PrimesFrom52();
    PrimesFrom56();
    PrimesFrom60();
    RootsFrom0();
    RootsFrom8();
    RootsFrom16();
    RootsFrom24();
    RootsFrom32();
    RootsFrom40();
    RootsFrom48();
    RootsFrom56();
  }

  /** The initial state: square roots of the first eight primes. */
  lemma InitialIs()
    ensures forall i :: 0 <= i < 8 ==>
              Initial()[i] == Start()[i] as word && SquareRootAt(i)
  {
    hide SquareRootAt;
    StartRoot(0, 1, 0x6a09e667, 2);
    StartRoot(1, 1, 0xbb67ae85, 3);
    StartRoot(2, 2, 0x3c6ef372, 5);
    StartRoot(3, 2, 0xa54ff53a, 7);
    StartRoot(4, 3, 0x510e527f, 11);
    StartRoot(5, 3, 0x9b05688c, 13);
    StartRoot(6, 4, 0x1f83d9ab, 17);
    StartRoot(7, 4, 0x5be0cd19, 19);
  }

  ghost predicate SquareRootAt(i: nat)
    requires i < 8
  {
    exists whole :: SquareRoot(whole, Start()[i], PrimeAt(i))
  }

  lemma StartRoot(i: nat, whole: nat, h: nat, p: nat)
    requires i < 8 && Start()[i] == h && PrimeAt(i) == p && SquareRoot(whole, h, p)
    ensures SquareRootAt(i)
  {
    hide PrimeAt, Start, SquareRoot;
  }
}
