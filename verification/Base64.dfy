/**
 package_decode of kernel/core/kernel.c: a streaming base64 decoder that skips white space and
 accepts trailing padding. The encoding is that of section 4 of RFC 4648.
 */
module Base64 {
  import opened Bytes

  const PAD: byte := 61
  const IMAGE_SIZE: nat := 262144
  const LEAST: nat := 20

  predicate IsSpace(c: byte) { c == 32 || c == 13 || c == 10 || c == 9 }

  /** base64_value, with 64 for a byte outside the alphabet. */
  function Value(c: byte): (v: nat)
    ensures v <= 64
  {
    if 65 <= c <= 90 then c - 65
    else if 97 <= c <= 122 then c - 71
    else if 48 <= c <= 57 then c + 4
    else if c == 43 then 62
    else if c == 47 then 63
    else 64
  }

  /** The alphabet. */
  function Char(v: nat): byte
    requires v < 64
  {
    if v < 26 then 65 + v else if v < 52 then 71 + v else if v < 62 then v - 4 else if v == 62 then 43 else 47
  }

  lemma CharBack(v: nat)
    requires v < 64
    ensures Value(Char(v)) == v && !IsSpace(Char(v)) && Char(v) != PAD
  {
  }

  // ----------------------------------------------------------------- encoding

  /** The six-bit digits of the bytes; one or two bytes at the end give two or three digits. */
  function Digits(b: seq<byte>): (d: seq<nat>)
    ensures forall i :: 0 <= i < |d| ==> d[i] < 64
  {
    if |b| == 0 then []
    else if |b| == 1 then [b[0] / 4, b[0] % 4 * 16]
    else if |b| == 2 then [b[0] / 4, b[0] % 4 * 16 + b[1] / 16, b[1] % 16 * 4]
    else [b[0] / 4, b[0] % 4 * 16 + b[1] / 16, b[1] % 16 * 4 + b[2] / 64, b[2] % 64] + Digits(b[3..])
  }

  function Chars(d: seq<nat>): (t: seq<byte>)
    requires forall i :: 0 <= i < |d| ==> d[i] < 64
    ensures |t| == |d|
  {
    seq(|d|, i requires 0 <= i < |d| => Char(d[i]))
  }

  /** The padding of the encoding: enough to fill the last group of four. */
  function Padding(n: nat): seq<byte> {
    if n % 3 == 1 then [PAD, PAD] else if n % 3 == 2 then [PAD] else []
  }

  // ----------------------------------------------------------------- decoding

  datatype State = State(out: seq<byte>, value: nat, bits: nat)

  predicate Sound(s: State) {
    (s.bits == 0 && s.value < 1) || (s.bits == 2 && s.value < 4) || (s.bits == 4 && s.value < 16)
        || (s.bits == 6 && s.value < 64)
  }

  function Power(k: nat): nat { if k == 0 then 1 else if k == 2 then 4 else if k == 4 then 16 else 64 }

  /** One digit into the bit accumulator; eight bits make a byte. */
  function Step(s: State, d: nat): (r: State)
    requires Sound(s) && d < 64
    ensures Sound(r)
  {
    var v := s.value * 64 + d;
    if s.bits + 6 >= 8
    then State(s.out + [v / Power(s.bits - 2)], v % Power(s.bits - 2), s.bits - 2)
    else State(s.out, v, 6)
  }

  function After(d: seq<nat>, s: State): (r: State)
    requires Sound(s) && forall i :: 0 <= i < |d| ==> d[i] < 64
    ensures Sound(r)
    decreases |d|
  {
    if d == [] then s else After(d[1..], Step(s, d[0]))
  }

  lemma {:induction false} AfterMore(d: seq<nat>, x: nat, s: State)
    requires Sound(s) && x < 64 && forall i :: 0 <= i < |d| ==> d[i] < 64
    ensures After(d + [x], s) == Step(After(d, s), x)
    decreases |d|
  {
    hide Step;
    if d == [] {
      assert (d + [x])[1..] == [];
    } else {
      assert (d + [x])[1..] == d[1..] + [x];
      AfterMore(d[1..], x, Step(s, d[0]));
    }
  }

  /** Bytes come out at eight bits each. */
  lemma {:induction false} AfterLength(d: seq<nat>, s: State)
    requires Sound(s) && forall i :: 0 <= i < |d| ==> d[i] < 64
    ensures var r := After(d, s); 8 * |r.out| + r.bits == 8 * |s.out| + s.bits + 6 * |d|
    decreases |d|
  {
    if d != [] { AfterLength(d[1..], Step(s, d[0])); }
  }

  const START := State([], 0, 0)

  lemma Quad(o: seq<byte>, a: byte, b: byte, c: byte, d: seq<nat>)
    requires |d| >= 4 && d[0] == a / 4 && d[1] == a % 4 * 16 + b / 16 && d[2] == b % 16 * 4 + c / 64 && d[3] == c % 64
    requires forall i :: 0 <= i < |d| ==> d[i] < 64
    ensures After(d, State(o, 0, 0)) == After(d[4..], State(o + [a, b, c], 0, 0))
  {
    hide After, Step;
    FirstDigit(o, a);
    SecondByte(o, a, b / 16);
    ThirdByte(o + [a], b, c / 64);
    LastByte(o + [a] + [b], c);
    Unroll(d, State(o, 0, 0));
    Unroll(d[1..], State(o, a / 4, 6));
    Unroll(d[2..], State(o + [a], b / 16, 4));
    Unroll(d[3..], State(o + [a] + [b], c / 64, 2));
    assert d[1..][1..] == d[2..] && d[2..][1..] == d[3..] && d[3..][1..] == d[4..];
    assert o + [a] + [b] + [c] == o + [a, b, c];
  }

  lemma FirstDigit(o: seq<byte>, a: byte)
    ensures a / 4 < 64 && Step(State(o, 0, 0), a / 4) == State(o, a / 4, 6)
  {
  }

  lemma LastByte(o: seq<byte>, c: byte)
    ensures c % 64 < 64 && Step(State(o, c / 64, 2), c % 64) == State(o + [c], 0, 0)
  {
  }

  lemma Unroll(d: seq<nat>, s: State)
    requires Sound(s) && d != [] && forall i :: 0 <= i < |d| ==> d[i] < 64
    ensures After(d, s) == After(d[1..], Step(s, d[0]))
  {
  }

  lemma SecondByte(o: seq<byte>, a: byte, n: nat)
    requires n < 16
    ensures a % 4 * 16 + n < 64 && Step(State(o, a / 4, 6), a % 4 * 16 + n) == State(o + [a], n, 4)
  {
    var v := a / 4 * 64 + (a % 4 * 16 + n);
    assert v == 16 * a + n;
  }

  lemma ThirdByte(o: seq<byte>, b: byte, n: nat)
    requires n < 4
    ensures b % 16 * 4 + n < 64 && Step(State(o, b / 16, 4), b % 16 * 4 + n) == State(o + [b], n, 2)
  {
    var v := b / 16 * 64 + (b % 16 * 4 + n);
    assert v == 4 * b + n;
  }

  /** Decoding the digits of the bytes gives the bytes, with fewer than six bits left over. */
  lemma {:induction false} DigitsBack(b: seq<byte>, o: seq<byte>)
    ensures var r := After(Digits(b), State(o, 0, 0)); r.out == o + b && r.bits < 6
    decreases |b|
  {
    hide After, Step;
    var d := Digits(b);
    if |b| == 0 {
      NoDigits(State(o, 0, 0));
      assert o + b == o;
    } else if |b| == 1 {
      OneByte(o, b[0], d);
      assert o + [b[0]] == o + b;
    } else if |b| == 2 {
      TwoBytes(o, b[0], b[1], d);
      assert o + [b[0]] + [b[1]] == o + b;
    } else {
      Quad(o, b[0], b[1], b[2], d);
      assert d[4..] == Digits(b[3..]);
      DigitsBack(b[3..], o + [b[0], b[1], b[2]]);
      assert o + [b[0], b[1], b[2]] + b[3..] == o + b;
    }
  }

  lemma NoDigits(s: State)
    requires Sound(s)
    ensures After([], s) == s
  {
  }

  lemma OneByte(o: seq<byte>, a: byte, d: seq<nat>)
    requires |d| == 2 && d[0] == a / 4 && d[1] == a % 4 * 16
    ensures d[0] < 64 && d[1] < 64 && After(d, State(o, 0, 0)) == State(o + [a], 0, 4)
  {
    hide After, Step;
    FirstDigit(o, a);
    SecondByte(o, a, 0);
    Unroll(d, State(o, 0, 0));
    Unroll(d[1..], State(o, a / 4, 6));
    NoDigits(State(o + [a], 0, 4));
    assert d[1..][1..] == [];
  }

  lemma TwoBytes(o: seq<byte>, a: byte, b: byte, d: seq<nat>)
    requires |d| == 3 && d[0] == a / 4 && d[1] == a % 4 * 16 + b / 16 && d[2] == b % 16 * 4
    ensures d[0] < 64 && d[1] < 64 && d[2] < 64 && After(d, State(o, 0, 0)) == State(o + [a] + [b], 0, 2)
  {
    hide After, Step;
    FirstDigit(o, a);
    SecondByte(o, a, b / 16);
    ThirdByte(o + [a], b, 0);
    Unroll(d, State(o, 0, 0));
    Unroll(d[1..], State(o, a / 4, 6));
    Unroll(d[2..], State(o + [a], b / 16, 4));
    NoDigits(State(o + [a] + [b], 0, 2));
    assert d[1..][1..] == d[2..] && d[2..][1..] == [];
  }

  // -------------------------------------------------------------- whole texts

  /** The text without its white space. */
  function Strip(t: seq<byte>): seq<byte> {
    if t == [] then [] else Strip(t[..|t| - 1]) + if IsSpace(t[|t| - 1]) then [] else [t[|t| - 1]]
  }

  /** `text` is the alphabet characters `body` followed by `pads` padding characters. */
  ghost predicate Shaped(text: seq<byte>, body: seq<byte>, pads: nat) {
    text == body + seq(pads, _ => PAD) && forall i :: 0 <= i < |body| ==> Value(body[i]) < 64
  }

  function Values(body: seq<byte>): (d: seq<nat>)
    requires forall i :: 0 <= i < |body| ==> Value(body[i]) < 64
    ensures |d| == |body| && forall i :: 0 <= i < |d| ==> d[i] < 64
  {
    seq(|body|, i requires 0 <= i < |body| => Value(body[i]))
  }

  /** The texts package_decode accepts, stripped, and the image each stands for. */
  ghost predicate Accepts(text: seq<byte>, body: seq<byte>, pads: nat) {
    && Shaped(text, body, pads) && pads <= 2
    && After(Values(body), START).bits < 6 && LEAST <= |After(Values(body), START).out| <= IMAGE_SIZE
  }

  /** package_decode. */
  method Decode(input: seq<byte>) returns (ok: bool, data: seq<byte>, ghost body: seq<byte>, ghost pads: nat)
    ensures ok ==> Accepts(Strip(input), body, pads) && data == After(Values(body), START).out
    ensures !ok ==> forall x, p :: !Accepts(Strip(input), x, p)
  {
    hide Value, Step, After, Strip;
    var s := START;
    StartIs();
    body, pads := [], 0;
    var padding := 0;
    assert input[..0] == [];
    for i := 0 to |input|
      invariant padding == pads && Shaped(Strip(input[..i]), body, pads) && s == After(Values(body), START)
                && |s.out| <= IMAGE_SIZE
    {
      var c := input[i];
      StripMore(input, i);
      if IsSpace(c) { continue; }
      if c == PAD {
        assert Strip(input[..i + 1]) == body + seq(pads + 1, _ => PAD);
        padding, pads := padding + 1, pads + 1;
        continue;
      }
      if padding > 0 || Value(c) >= 64 {
        Refused(input, i, body, pads);
        return false, [], body, pads;
      }
      ValuesMore(body, c);
      AfterMore(Values(body), Value(c), START);
      StepSize(s, Value(c));
      if s.bits + 6 >= 8 && |s.out| >= IMAGE_SIZE {
        TooLong(input, i, body + [c]);
        return false, [], body, pads;
      }
      s := Step(s, Value(c));
      body := body + [c];
      assert Strip(input[..i + 1]) == body + seq(0, _ => PAD);
    }
    assert input[..|input|] == input;
    if padding > 2 || s.bits >= 6 || |s.out| < LEAST {
      OnlyShape(Strip(input), body, pads);
      return false, [], body, pads;
    }
    return true, s.out, body, pads;
  }

  lemma StartIs()
    ensures Values([]) == [] && After([], START) == START && Strip([]) == []
  {
  }

  lemma StripMore(t: seq<byte>, i: nat)
    requires i < |t|
    ensures Strip(t[..i + 1]) == Strip(t[..i]) + if IsSpace(t[i]) then [] else [t[i]]
  {
    assert t[..i + 1][..i] == t[..i];
  }

  lemma ValuesMore(body: seq<byte>, c: byte)
    requires (forall i :: 0 <= i < |body| ==> Value(body[i]) < 64) && Value(c) < 64
    ensures Values(body + [c]) == Values(body) + [Value(c)]
  {
    hide Value;
  }

  lemma StepSize(s: State, d: nat)
    requires Sound(s) && d < 64
    ensures |Step(s, d).out| == |s.out| + if s.bits + 6 >= 8 then 1 else 0
  {
  }

  lemma {:induction false} StripPrefix(t: seq<byte>, i: nat)
    requires i <= |t|
    ensures Strip(t[..i]) <= Strip(t)
    decreases |t| - i
  {
    hide Strip;
    if i < |t| {
      StripMore(t, i);
      StripPrefix(t, i + 1);
    } else {
      assert t[..i] == t;
    }
  }

  /** Padding is not in the alphabet. */
  lemma PadIsNot()
    ensures Value(PAD) == 64
  {
  }

  /** What a shape says about one character. */
  lemma ShapeAt(text: seq<byte>, body: seq<byte>, pads: nat, i: nat)
    requires Shaped(text, body, pads) && i < |text|
    ensures (text[i] == PAD <==> i >= |body|) && (i < |body| ==> Value(text[i]) < 64) && |body| <= |text|
  {
    hide Value;
    PadIsNot();
  }

  /** A text has at most one shape. */
  lemma OnlyShape(text: seq<byte>, body: seq<byte>, pads: nat)
    requires Shaped(text, body, pads)
    ensures forall x, p :: Shaped(text, x, p) ==> x == body && p == pads
  {
    hide Value;
    forall x, p | Shaped(text, x, p) ensures x == body && p == pads {
      var k := if |x| < |body| then |x| else |body|;
      if k < |text| {
        ShapeAt(text, x, p, k);
        ShapeAt(text, body, pads, k);
      }
      assert x == text[..|x|] && body == text[..|body|];
    }
  }

  /** A character that fits no shape. */
  lemma Refused(t: seq<byte>, i: nat, body: seq<byte>, pads: nat)
    requires i < |t| && !IsSpace(t[i]) && t[i] != PAD && Shaped(Strip(t[..i]), body, pads)
             && (pads > 0 || Value(t[i]) >= 64)
    ensures forall x, p :: !Shaped(Strip(t), x, p)
  {
    hide Value, Strip;
    StripMore(t, i);
    StripPrefix(t, i + 1);
    var s, n := Strip(t), |Strip(t[..i])|;
    assert s[n] == t[i] && s[..n] == Strip(t[..i]);
    assert pads > 0 ==> s[n - 1] == s[..n][n - 1] && s[n - 1] == PAD;
    forall x, p ensures !Shaped(s, x, p) {
      if Shaped(s, x, p) {
        if pads > 0 { ShapeAt(s, x, p, n - 1); }
        ShapeAt(s, x, p, n);
      }
    }
  }

  /** Too many digits for the image. */
  lemma TooLong(t: seq<byte>, i: nat, body: seq<byte>)
    requires i < |t| && Shaped(Strip(t[..i + 1]), body, 0)
    requires |After(Values(body), START).out| > IMAGE_SIZE
    ensures forall x, p :: !Accepts(Strip(t), x, p)
  {
    hide Value, Strip, After;
    StripPrefix(t, i + 1);
    forall x, p ensures !Accepts(Strip(t), x, p) {
      if Shaped(Strip(t), x, p) { Longer(Strip(t), body, x, p); }
    }
  }

  lemma Longer(text: seq<byte>, body: seq<byte>, x: seq<byte>, p: nat)
    requires (forall i :: 0 <= i < |body| ==> Value(body[i]) < 64) && body <= text && Shaped(text, x, p)
    ensures |After(Values(body), START).out| <= |After(Values(x), START).out|
  {
    hide Value, After;
    PadIsNot();
    AfterLength(Values(body), START);
    AfterLength(Values(x), START);
    assert |x| < |body| ==> text[|x|] == body[|x|];
    if |x| < |text| { ShapeAt(text, x, p, |x|); }
    Few(After(Values(body), START));
    Few(After(Values(x), START));
  }

  lemma Few(s: State)
    requires Sound(s)
    ensures s.bits <= 6
  {
  }

  // ----------------------------------------------------------------- by value

  /** The sixty-four characters of table 1 of RFC 4648, and the padding. */
  lemma Alphabet(v: nat)
    requires v < 64
    ensures Char(v) == if v < 26 then 'A' as int + v else if v < 52 then 'a' as int + (v - 26)
                       else if v < 62 then '0' as int + (v - 52) else if v == 62 then '+' as int else '/' as int
    ensures PAD == '=' as int
  {
  }

  /** The number whose digits in base `base` these are, the most significant first. */
  function Big(d: seq<nat>, base: nat): nat {
    if d == [] then 0 else Big(d[..|d| - 1], base) * base + d[|d| - 1]
  }

  /** As numbers, the bytes that come out, followed by the bits left over, are the digits that went in. */
  lemma {:induction false} AfterValue(d: seq<nat>)
    requires forall i :: 0 <= i < |d| ==> d[i] < 64
    ensures var r := After(d, START);
            Big(r.out, 256) * Power(r.bits) + r.value == Big(d, 64) && r.value < Power(r.bits)
  {
    hide After, Step;
    if d == [] {
      NoDigits(START);
    } else {
      var front, x := d[..|d| - 1], d[|d| - 1];
      assert front + [x] == d;
      AfterValue(front);
      AfterMore(front, x, START);
      StepValue(After(front, START), x);
    }
  }

  lemma StepValue(s: State, d: nat)
    requires Sound(s) && d < 64
    ensures var r := Step(s, d);
            && Big(r.out, 256) * Power(r.bits) + r.value == (Big(s.out, 256) * Power(s.bits) + s.value) * 64 + d
            && r.value < Power(r.bits)
  {
    var r := Step(s, d);
    if s.bits > 0 {
      var x := r.out[|s.out|];
      assert r.out[..|s.out|] == s.out;
      assert Big(r.out, 256) == Big(s.out, 256) * 256 + x;
    }
  }

  /** The refusals by value: padding of at most two, no digit on its own in the last group, 20 to 262144 bytes. */
  lemma AcceptsIff(text: seq<byte>, body: seq<byte>, pads: nat)
    ensures Accepts(text, body, pads) <==>
            Shaped(text, body, pads) && pads <= 2 && |body| % 4 != 1 && 20 <= |body| * 3 / 4 <= 262144
  {
    hide After, Value;
    if Shaped(text, body, pads) {
      AfterLength(Values(body), START);
      Few(After(Values(body), START));
    }
  }

  /** `t` is `clean` with tabs, line feeds, carriage returns and spaces put in anywhere. */
  ghost predicate Spread(t: seq<byte>, clean: seq<byte>)
    decreases |t|
  {
    if t == [] then clean == []
    else
      var c, front := t[|t| - 1], t[..|t| - 1];
      || ((c == 9 || c == 10 || c == 13 || c == 32) && Spread(front, clean))
      || (clean != [] && c == clean[|clean| - 1] && Spread(front, clean[..|clean| - 1]))
  }

  lemma {:induction false} SpreadStrips(t: seq<byte>, clean: seq<byte>)
    requires Spread(t, clean) && 9 !in clean && 10 !in clean && 13 !in clean && 32 !in clean
    ensures Strip(t) == clean
    decreases |t|
  {
    if t != [] {
      var c, front := t[|t| - 1], t[..|t| - 1];
      if (c == 9 || c == 10 || c == 13 || c == 32) && Spread(front, clean) {
        SpreadStrips(front, clean);
      } else {
        SpreadStrips(front, clean[..|clean| - 1]);
        assert clean[|clean| - 1] in clean;
      }
    }
  }

  function Encoded(b: seq<byte>, padded: bool): seq<byte> {
    Chars(Digits(b)) + if padded then Padding(|b|) else []
  }

  lemma EncodedClean(b: seq<byte>, padded: bool)
    ensures var t := Encoded(b, padded); 9 !in t && 10 !in t && 13 !in t && 32 !in t
  {
    hide Digits, Char;
    var d := Digits(b);
    forall i | 0 <= i < |d| ensures !IsSpace(Chars(d)[i]) { CharBack(d[i]); }
  }

  /** The encoding of section 4 of RFC 4648, group by group: three bytes and four digits are the same number. */
  lemma DigitsAre(a: byte, b: byte, c: byte, rest: seq<byte>)
    ensures var d := Digits([a, b, c] + rest);
            && |d| >= 4 && d[4..] == Digits(rest)
            && ((d[0] * 64 + d[1]) * 64 + d[2]) * 64 + d[3] == (a as int * 256 + b as int) * 256 + c as int
    ensures var d := Digits([a, b]); |d| == 3 && (d[0] * 64 + d[1]) * 64 + d[2] == (a as int * 256 + b as int) * 4
    ensures var d := Digits([a]); |d| == 2 && d[0] * 64 + d[1] == a as int * 16
  {
    assert ([a, b, c] + rest)[3..] == rest;
  }

  /**
   Decoding inverts encoding: for 20 to 262144 bytes, the encoded text is accepted with white space anywhere and with
   or without its padding, and stands for exactly those bytes.
   */
  lemma EncodedAccepted(b: seq<byte>, t: seq<byte>, padded: bool)
    requires 20 <= |b| <= 262144 && Spread(t, Encoded(b, padded))
    ensures var body, pads := Chars(Digits(b)), if padded then |Padding(|b|)| else 0;
            Accepts(Strip(t), body, pads) && After(Values(body), START).out == b
    ensures forall x, p :: Accepts(Strip(t), x, p) ==> After(Values(x), START).out == b
  {
    hide Strip, Digits, After, Char, Value, Spread;
    EncodedClean(b, padded);
    SpreadStrips(t, Encoded(b, padded));
    var d := Digits(b);
    var body := Chars(d);
    forall i | 0 <= i < |body| ensures Value(body[i]) == d[i] { CharBack(d[i]); }
    assert Values(body) == d;
    DigitsBack(b, []);
    assert [] + b == b;
    var pads := if padded then |Padding(|b|)| else 0;
    assert (if padded then Padding(|b|) else []) == seq(pads, _ => PAD);
    OnlyShape(Strip(t), body, pads);
  }
}
