/**
 Clock arithmetic of kernel/core/timed.c: 32.32 fixed-point NTP timestamps, their differences in
 nanoseconds, and the clock offset and delay of timed_sync. Times of the client are nanoseconds
 since 1970; a timestamp counts units of 2^-32 seconds since 1900, kept in 64 bits.
 */
module Ntp {
  import Calendar

  const NS: int := 1_000_000_000
  const NTP_EPOCH: int := 2208988800
  const UNIT: int := 0x1_0000_0000
  const WRAP: int := 0x1_0000_0000_0000_0000
  const HALF: int := 0x8000_0000_0000_0000
  const MAX_DELAY: int := 30_000_000_000
  const OK: int := 1
  const TIMESTAMP_ERROR: int := -11

  // -------------------------------------------------------------- C arithmetic

  /** Division toward zero. */
  function Quotient(a: int, d: int): int
    requires d > 0
  {
    if a >= 0 then a / d else -((-a) / d)
  }

  function Remainder(a: int, d: int): int
    requires d > 0
  {
    a - Quotient(a, d) * d
  }

  /** The signed reading of 64 bits. */
  function Signed(x: int): (r: int)
    ensures -HALF <= r < HALF
  {
    var u := x % WRAP;
    if u < HALF then u else u - WRAP
  }

  lemma SignedIs(d: int)
    requires -HALF <= d < HALF
    ensures Signed(d) == d
  {
    if d < 0 { assert d % WRAP == d + WRAP; }
  }

  lemma SignedDifference(a: int, b: int)
    requires -HALF <= a - b < HALF
    ensures Signed(a % WRAP - b % WRAP) == a - b
  {
    var p, q := a / WRAP, b / WRAP;
    assert a % WRAP - b % WRAP == (a - b) + (q - p) * WRAP;
    SameResidue(a - b, q - p);
    SignedIs(a - b);
  }

  lemma SameResidue(a: int, k: int)
    ensures (a + k * WRAP) % WRAP == a % WRAP
  {
    var q := a / WRAP;
    assert a + k * WRAP == (q + k) * WRAP + a % WRAP;
  }

  // ----------------------------------------------------------------- the code

  /** Bitwise or. */
  function Or(a: nat, b: nat): nat
    decreases a + b
  {
    if a == 0 then b
    else if b == 0 then a
    else 2 * Or(a / 2, b / 2) + if a % 2 == 1 || b % 2 == 1 then 1 else 0
  }

  /** ntp_from_ns, for any signed time: quotient and remainder round toward zero, the rest happens in 64 bits. */
  function NtpFromNs(ns: int): nat {
    Or((Quotient(ns, NS) + NTP_EPOCH) % UNIT * UNIT, Remainder(ns, NS) * UNIT % WRAP / NS)
  }

  /** The timestamp a client time should have, before it is cut to 64 bits. */
  function Stamp(ns: int): int { (ns / NS + NTP_EPOCH) * UNIT + ns % NS * UNIT / NS }

  /** The seconds of a timestamp count from the start of 1900: it lies this many days before 1970. */
  lemma EpochIs()
    ensures NTP_EPOCH == (Calendar.TlsYear(1970) - Calendar.TlsYear(1900)) * 86400 && Calendar.TlsYear(1970) == 719528
  {
  }

  /** The timestamp of a date, by the calendar: days since 1900 and the time of day, in seconds of 32 bits. */
  lemma StampOfDate(t: Calendar.Time)
    requires Calendar.Exists(t)
    ensures var days := Calendar.TlsDays(t) - Calendar.TlsYear(1900);
            NtpFromNs(Calendar.Epoch(t) * 1_000_000_000)
            == (days * 86400 + 3600 * t.hour + 60 * t.minute + t.second) % 0x1_0000_0000 * 0x1_0000_0000
  {
    hide Calendar.TlsYear, Calendar.Days, Calendar.TlsDays, Calendar.MonthDays, Or;
    EpochIs();
    Calendar.TlsDaysIs(t);
    var s := Calendar.Epoch(t);
    assert Quotient(s * NS, NS) == s && Remainder(s * NS, NS) == 0;
    OrNothing((s + NTP_EPOCH) % UNIT * UNIT);
  }

  lemma OrNothing(a: nat)
    ensures Or(a, 0) == a
  {
  }

  /** Times that are not negative, or whole seconds. */
  predicate Stampable(ns: int) { ns >= 0 || ns % NS == 0 }

  /** fixed_delta_ns. */
  function FixedDelta(a: nat, b: nat): int {
    var d := Signed(a - b);
    Quotient(d, UNIT) * NS + Quotient(Remainder(d, UNIT) * NS, UNIT)
  }

  /** elapsed_ns in 64 bits: whole seconds and the rest apart. */
  function Elapsed(ticks: nat, hz: nat): nat
    requires hz > 0
  {
    (ticks / hz * NS % WRAP + ticks % hz * NS % WRAP / hz) % WRAP
  }

  // ---------------------------------------------------------- 64 bits are enough

  /** Both products of fixed_delta_ns, their sum, and the sum of two such results stay inside 63 bits and a sign. */
  lemma DeltaFits(a: nat, b: nat)
    ensures var d := Signed(a - b);
            && -HALF / 4 <= Quotient(d, UNIT) * NS <= HALF / 4
            && -HALF / 2 <= Remainder(d, UNIT) * NS <= HALF / 2
            && -HALF / 2 < FixedDelta(a, b) < HALF / 2
  {
    var d := Signed(a - b);
    Truncates(d);
    var q, r := Quotient(d, UNIT), Remainder(d, UNIT);
    assert -0x8000_0000 <= q <= 0x8000_0000;
    assert -NS <= Quotient(r * NS, UNIT) <= NS;
  }

  /**
   elapsed_ns is the exact quotient, rounded down once and cut to 64 bits, exactly when the rest of the
   division fits once it is multiplied; so for every number of ticks when the clock runs below 18 GHz.
   */
  lemma ElapsedIff(ticks: nat, hz: nat)
    requires 0 < hz < WRAP
    ensures Elapsed(ticks, hz) == ticks * NS / hz % WRAP <==> ticks % hz * NS < WRAP
    ensures hz <= 18_446_744_073 ==> ticks % hz * NS < WRAP
  {
    var q, r := ticks / hz, ticks % hz;
    ElapsedExact(ticks, hz);
    Quotients(r * NS, hz);
    Quotients(r * NS % WRAP, hz);
    var k, j := r * NS / hz, r * NS % WRAP / hz;
    Below(r, hz, k);
    ElapsedParts(q * NS, r * NS, hz, k, j);
  }

  lemma Quotients(p: nat, hz: nat)
    requires hz > 0
    ensures 0 <= p / hz && p / hz * hz <= p < (p / hz + 1) * hz
  {
  }

  lemma Below(r: nat, hz: nat, k: nat)
    requires r < hz && k * hz <= r * NS
    ensures k < NS
  {
    assert k >= NS ==> k * hz >= NS * hz;
  }

  /** `k` and `j` are the quotients of `p` and of its low 64 bits. */
  lemma ElapsedParts(a: nat, p: nat, hz: nat, k: nat, j: nat)
    requires 0 < hz < WRAP && k * hz <= p < (k + 1) * hz && j * hz <= p % WRAP < (j + 1) * hz && k < NS
    ensures (a % WRAP + j) % WRAP == (a + k) % WRAP <==> p < WRAP
  {
    Residues(a, j);
    if p < WRAP {
      Ordered(j, k, hz);
      Ordered(k, j, hz);
    } else {
      assert p >= p % WRAP + hz;
      Ordered(k, j, hz);
      Differs(a, k, j);
    }
  }

  lemma Ordered(k: nat, j: nat, hz: nat)
    requires hz > 0
    ensures k < j ==> (k + 1) * hz <= j * hz
    ensures k <= j ==> (k + 1) * hz <= j * hz + hz
  {
    if k < j { assert (j - k - 1) * hz >= 0; }
    if k <= j { assert (j - k) * hz >= 0; }
  }

  lemma Residues(a: nat, b: nat)
    ensures (a % WRAP + b) % WRAP == (a + b) % WRAP
  {
    SameResidue(a % WRAP + b, a / WRAP);
    assert a % WRAP + b + a / WRAP * WRAP == a + b;
  }

  lemma Differs(a: nat, k: nat, j: nat)
    requires j < k < NS
    ensures (a + j) % WRAP != (a + k) % WRAP
  {
    var p, q := (a + j) / WRAP, (a + k) / WRAP;
    assert (a + j) % WRAP == (a + k) % WRAP ==> k - j == (q - p) * WRAP;
  }

  /** Splitting off the seconds loses nothing. */
  lemma ElapsedExact(ticks: nat, hz: nat)
    requires hz > 0
    ensures ticks / hz * NS + ticks % hz * NS / hz == ticks * NS / hz
  {
    var q, r := ticks / hz, ticks % hz;
    var k := r * NS / hz;
    assert ticks * NS == q * NS * hz + r * NS by { assert ticks == q * hz + r; Expand(q, hz, r); }
    assert r * NS == k * hz + r * NS % hz;
    assert ticks * NS == (q * NS + k) * hz + r * NS % hz by { Collect(q * NS, k, hz); }
    Unique(ticks * NS, hz, q * NS + k, r * NS % hz);
  }

  lemma Expand(q: nat, hz: nat, r: nat)
    ensures (q * hz + r) * NS == q * NS * hz + r * NS
  {
  }

  lemma Collect(a: nat, k: nat, hz: nat)
    ensures a * hz + k * hz == (a + k) * hz
  {
  }

  lemma Unique(n: nat, d: nat, q: nat, r: nat)
    requires d > 0 && n == q * d + r && r < d
    ensures n / d == q
  {
    var p := n / d;
    assert n == p * d + n % d;
    assert p < q ==> (p + 1) * d <= q * d;
    assert q < p ==> (q + 1) * d <= p * d;
  }

  // --------------------------------------------------------------- bitwise or

  lemma {:induction false} OrBetween(a: nat, b: nat)
    ensures a <= Or(a, b) <= a + b
    decreases a + b
  {
    if a != 0 && b != 0 { OrBetween(a / 2, b / 2); }
  }

  function Two(k: nat): (r: nat)
    ensures r >= 1
  {
    if k == 0 then 1 else 2 * Two(k - 1)
  }

  lemma {:induction false} Tower(k: nat)
    ensures Two(k + 8) == 256 * Two(k)
  {
    assert Two(k + 8) == 2 * Two(k + 7) == 4 * Two(k + 6) == 8 * Two(k + 5) == 16 * Two(k + 4);
    assert Two(k + 4) == 2 * Two(k + 3) == 4 * Two(k + 2) == 8 * Two(k + 1) == 16 * Two(k);
  }

  lemma TwoUnit()
    ensures Two(32) == UNIT
  {
    hide Two;
    Tower(0);
    Tower(8);
    Tower(16);
    Tower(24);
    TwoZero();
  }

  lemma TwoZero()
    ensures Two(0) == 1
  {
  }

  lemma OrTwice(g: nat, b: nat)
    ensures Or(2 * g, b) == 2 * Or(g, b / 2) + b % 2
  {
    assert 2 * g / 2 == g && 2 * g % 2 == 0;
  }

  /** Below a shifted value, or is sum. */
  lemma {:induction false} OrShifted(h: nat, q: nat, r: nat, k: nat, t: nat)
    requires t == Two(k) && r < t && 0 <= h * t && 0 <= q * t + r
    ensures Or(h * t, q * t + r) == t * Or(h, q) + r
    decreases k
  {
    hide Or;
    if k > 0 {
      var t' := Two(k - 1);
      Twice(h, t');
      Twice(q, t');
      assert (q * t + r) / 2 == q * t' + r / 2 && (q * t + r) % 2 == r % 2;
      OrShifted(h, q, r / 2, k - 1, t');
      OrTwice(h * t', q * t + r);
      Twice(Or(h, q), t');
    }
  }

  lemma Twice(h: nat, t: nat)
    ensures h * (2 * t) == 2 * (h * t) && 0 <= h * t
  {
  }

  /** The timestamp ntp_from_ns makes: the or carries into the seconds only if the fraction does not fit 32 bits. */
  lemma NtpIs(ns: int)
    ensures var s, x := (Quotient(ns, NS) + NTP_EPOCH) % UNIT, Remainder(ns, NS) * UNIT % WRAP / NS;
            && NtpFromNs(ns) == UNIT * Or(s, x / UNIT) + x % UNIT
            && s <= Or(s, x / UNIT) <= s + x / UNIT
            && (x < UNIT ==> NtpFromNs(ns) == UNIT * s + x)
  {
    hide Quotient, Remainder, Or, Two;
    var s, x := (Quotient(ns, NS) + NTP_EPOCH) % UNIT, Remainder(ns, NS) * UNIT % WRAP / NS;
    TwoUnit();
    OrShifted(s, x / UNIT, x % UNIT, 32, UNIT);
    OrBetween(s, x / UNIT);
    if x < UNIT { assert x / UNIT == 0 && x % UNIT == x; }
  }

  /** ntp_from_ns gives a time its timestamp exactly when the time is not negative or a whole number of seconds. */
  lemma StampIff(ns: int)
    ensures NtpFromNs(ns) == Stamp(ns) % WRAP <==> Stampable(ns)
  {
    hide NtpFromNs, Or, Stamp;
    NtpIs(ns);
    if Stampable(ns) { StampRight(ns); } else { StampWrong(ns); }
  }

  lemma StampRight(ns: int)
    requires Stampable(ns)
    ensures NtpFromNs(ns) == Stamp(ns) % WRAP
  {
    hide NtpFromNs, Or;
    NtpIs(ns);
    WholeSeconds(ns);
    var q, r := ns / NS, ns % NS;
    assert r * UNIT % WRAP == r * UNIT;
    var x := r * UNIT / NS;
    assert x < UNIT;
    Shifted(q + NTP_EPOCH, x);
  }

  lemma WholeSeconds(ns: int)
    requires Stampable(ns)
    ensures Quotient(ns, NS) == ns / NS && Remainder(ns, NS) == ns % NS
  {
    if ns < 0 {
      assert ns == ns / NS * NS;
      assert -ns == -(ns / NS) * NS;
    }
  }

  lemma Shifted(s: int, x: int)
    requires 0 <= x < UNIT
    ensures (s * UNIT + x) % WRAP == s % UNIT * UNIT + x
  {
    SameResidue(s % UNIT * UNIT + x, s / UNIT);
    assert s * UNIT + x == s % UNIT * UNIT + x + s / UNIT * WRAP;
  }

  lemma StampWrong(ns: int)
    requires !Stampable(ns)
    ensures NtpFromNs(ns) != Stamp(ns) % WRAP
  {
    hide NtpFromNs, Or, Quotient, Remainder;
    NtpIs(ns);
    NegativeParts(ns);
    var q, r := Quotient(ns, NS), -Remainder(ns, NS);
    var x := Remainder(ns, NS) * UNIT % WRAP / NS;
    assert x < 5 * UNIT by { NegativeFraction(r); }
    var s := (q + NTP_EPOCH) % UNIT;
    var f := UNIT - (NS - r) * UNIT / NS;
    assert 1 <= f <= UNIT by { Ceiling(r); }
    assert Stamp(ns) == (q + NTP_EPOCH) * UNIT - f;
    var error := NtpFromNs(ns) - (s * UNIT - f);
    assert 0 < error < WRAP;
    Apart(q + NTP_EPOCH, f, NtpFromNs(ns));
  }

  lemma NegativeParts(ns: int)
    requires ns < 0 && ns % NS != 0
    ensures ns / NS == Quotient(ns, NS) - 1 && ns % NS == NS + Remainder(ns, NS) && -NS < Remainder(ns, NS) < 0
  {
    var m := -ns;
    var q, r := m / NS, m % NS;
    assert r == 0 ==> ns == -q * NS;
    assert ns == (-q - 1) * NS + (NS - r);
  }

  lemma NegativeFraction(r: int)
    requires 0 < r < NS
    ensures -r * UNIT % WRAP / NS < 5 * UNIT
  {
    assert -r * UNIT % WRAP < WRAP;
    assert WRAP <= 5 * UNIT * NS;
  }

  lemma Ceiling(r: int)
    requires 0 < r < NS
    ensures 0 <= (NS - r) * UNIT / NS < UNIT
  {
  }

  lemma Apart(s: int, f: int, n: nat)
    requires 0 < n - (s % UNIT * UNIT - f) < WRAP
    ensures n != (s * UNIT - f) % WRAP
  {
    SameResidue(s % UNIT * UNIT - f, s / UNIT);
    assert s * UNIT - f == s % UNIT * UNIT - f + s / UNIT * WRAP;
    var base := s % UNIT * UNIT - f;
    var k := base / WRAP;
    assert base == k * WRAP + base % WRAP;
  }

  // ---------------------------------------------------------------- rounding

  /** A timestamp as nanoseconds since 1970. */
  function Nanos(s: int): real { s as real * NS as real / UNIT as real - (NTP_EPOCH * NS) as real }

  /** A client time is at or after its timestamp, by less than a quarter of a nanosecond. */
  lemma StampClose(ns: int)
    ensures 0.0 <= ns as real - Nanos(Stamp(ns)) < 0.25
  {
    var q, r := ns / NS, ns % NS;
    var f := r * UNIT / NS;
    assert r * UNIT == f * NS + r * UNIT % NS;
    assert Stamp(ns) == (q + NTP_EPOCH) * UNIT + f;
    var gap := r * UNIT - f * NS;
    assert 0 <= gap < NS;
    assert Stamp(ns) * NS == (q * NS + NTP_EPOCH * NS) * UNIT + f * NS;
    assert (Stamp(ns) * NS) as real == ((q * NS + NTP_EPOCH * NS) * UNIT) as real + (f * NS) as real;
    Scaled(Stamp(ns), q * NS + NTP_EPOCH * NS, f * NS);
    Scaled2(r, gap, f);
  }

  lemma Scaled(s: int, whole: int, part: int)
    requires s * NS == whole * UNIT + part
    ensures s as real * NS as real / UNIT as real == whole as real + part as real / UNIT as real
  {
    assert (s * NS) as real == s as real * NS as real;
    assert (whole * UNIT + part) as real == whole as real * UNIT as real + part as real;
  }

  lemma Scaled2(r: int, gap: int, f: int)
    requires gap == r * UNIT - f * NS && 0 <= gap < NS
    ensures 0.0 <= r as real - (f * NS) as real / UNIT as real < 0.25
  {
    assert (f * NS) as real == r as real * UNIT as real - gap as real;
  }

  /** A difference of timestamps in nanoseconds is off by less than one. */
  lemma DeltaClose(a: int, b: int)
    requires -HALF <= a - b < HALF
    ensures var exact := Nanos(a) - Nanos(b); exact - 1.0 < FixedDelta(a % WRAP, b % WRAP) as real < exact + 1.0
  {
    var d := a - b;
    SignedDifference(a, b);
    var q, r := Quotient(d, UNIT), Remainder(d, UNIT);
    Truncates(d);
    assert d * NS == q * NS * UNIT + r * NS;
    Scaled(d, q * NS, r * NS);
    Fraction(r);
    assert (q * NS + Quotient(r * NS, UNIT)) as real == (q * NS) as real + Quotient(r * NS, UNIT) as real;
    assert Nanos(a) - Nanos(b) == d as real * NS as real / UNIT as real;
  }

  lemma Truncates(d: int)
    ensures -UNIT < Remainder(d, UNIT) < UNIT && d == Quotient(d, UNIT) * UNIT + Remainder(d, UNIT)
  {
  }

  lemma Fraction(r: int)
    ensures var q := Quotient(r * NS,
            UNIT); (r * NS) as real / UNIT as real - 1.0 < q as real < (r * NS) as real / UNIT as real + 1.0
  {
    var n, q := r * NS, Quotient(r * NS, UNIT);
    assert -UNIT < n - q * UNIT < UNIT;
    assert (n - q * UNIT) as real == n as real - q as real * UNIT as real;
  }

  // ------------------------------------------------------------ offset and delay

  function Offset(t1: nat, receive: nat, transmit: nat, t4: nat): int {
    Quotient(FixedDelta(receive, t1) + FixedDelta(transmit, t4), 2)
  }

  function Delay(t1: nat, receive: nat, transmit: nat, t4: nat): int {
    FixedDelta(t4, t1) - FixedDelta(transmit, receive)
  }

  /** The four instants are close enough together that no 64-bit difference wraps. */
  predicate SameEra(s1: int, receive: int, transmit: int, s4: int) {
    && -HALF <= receive - s1 < HALF && -HALF <= transmit - s4 < HALF
    && -HALF <= transmit - receive < HALF && -HALF <= s4 - s1 < HALF
  }

  /** The server's clock is `theta` nanoseconds ahead of the client's and neither packet arrives before it is sent. */
  predicate Honest(t1: int, t4: int, receive: int, transmit: int, theta: real) {
    && SameEra(Stamp(t1), receive, transmit, Stamp(t4)) && Stampable(t1) && Stampable(t4)
    && t1 as real + theta <= Nanos(receive) && Nanos(transmit) - theta <= t4 as real
  }

  /** Then the computed offset is within half the computed delay of `theta`, plus three nanoseconds of rounding. */
  lemma OffsetBound(t1: int, t4: int, receive: int, transmit: int, theta: real)
    requires Honest(t1, t4, receive, transmit, theta)
    ensures var o := Offset(NtpFromNs(t1), receive % WRAP, transmit % WRAP, NtpFromNs(t4));
            var d := Delay(NtpFromNs(t1), receive % WRAP, transmit % WRAP, NtpFromNs(t4));
            -(d as real / 2.0 + 3.0) <= o as real - theta <= d as real / 2.0 + 3.0
  {
    hide Stamp, Nanos, FixedDelta, Quotient, NtpFromNs;
    var s1, s4 := Stamp(t1), Stamp(t4);
    StampIff(t1);
    StampIff(t4);
    StampClose(t1);
    StampClose(t4);
    DeltaClose(receive, s1);
    DeltaClose(transmit, s4);
    DeltaClose(transmit, receive);
    DeltaClose(s4, s1);
    var a, b := FixedDelta(receive % WRAP, s1 % WRAP), FixedDelta(transmit % WRAP, s4 % WRAP);
    Halved(a + b);
    assert (a + b) as real == a as real + b as real;
    var local, server := FixedDelta(s4 % WRAP, s1 % WRAP), FixedDelta(transmit % WRAP, receive % WRAP);
    assert (local - server) as real == local as real - server as real;
  }

  lemma Halved(x: int)
    ensures x as real / 2.0 - 0.5 <= Quotient(x, 2) as real <= x as real / 2.0 + 0.5
  {
    var q := Quotient(x, 2);
    assert -1 <= x - 2 * q <= 1;
    assert (x - 2 * q) as real == x as real - 2.0 * q as real;
  }

  /** An offset that is accepted is within 15 seconds and 3 nanoseconds of the true one. */
  lemma AcceptedBound(t1: int, t4: int, receive: int, transmit: int, theta: real)
    requires Honest(t1, t4, receive, transmit, theta)
    requires Delay(NtpFromNs(t1), receive % WRAP, transmit % WRAP, NtpFromNs(t4)) <= MAX_DELAY
    ensures var o := Offset(NtpFromNs(t1), receive % WRAP, transmit % WRAP, NtpFromNs(t4));
            -15_000_000_003.0 <= o as real - theta <= 15_000_000_003.0
  {
    hide Offset, Delay, Stamp, Nanos, Honest, NtpFromNs;
    OffsetBound(t1, t4, receive, transmit, theta);
  }

  /** What network_ntp_query fills in. */
  datatype Reply = Reply(receive: nat, transmit: nat, address: nat, stratum: nat)

  /** The adjustable clock. */
  class Clock {
    var correction: int
    var lastOffset: int
    var lastDelay: int
    var synchronized: bool
    var lastError: int
    var lastAddress: nat
    var lastStratum: nat
    var lastSync: int
    var nextAttempt: nat
    var updates: nat
    var failures: nat

    /**
     The end of timed_sync, once a reply is in: implausible delays are refused, others correct the clock. `now` is
     the monotonic clock in nanoseconds and `interval` the seconds to the next attempt. If the reply is honest about
     instants `received` and `sent`, an accepted correction brings the clock within 15 seconds and 3 nanoseconds.
     */
    method Accept(t1ns: int, t4ns: int, reply: Reply, now: nat, interval: nat,
                  ghost received: int, ghost sent: int, ghost theta: real)
      returns (result: int)
      modifies this
      ensures lastOffset == Offset(NtpFromNs(t1ns), reply.receive, reply.transmit, NtpFromNs(t4ns))
      ensures lastDelay == Delay(NtpFromNs(t1ns), reply.receive, reply.transmit, NtpFromNs(t4ns))
      ensures (result, lastError) == if 0 <= lastDelay <= MAX_DELAY then (1, 0) else (-11, -11)
      ensures result == OK && reply.receive == received % WRAP && reply.transmit == sent % WRAP
              && Honest(t1ns, t4ns, received, sent, theta) ==>
                -15_000_000_003.0 <= (correction - old(correction)) as real - theta <= 15_000_000_003.0
      ensures if result == OK
              then && correction == old(correction) + lastOffset && synchronized && failures == old(failures)
                   && (lastAddress, lastStratum) == (reply.address, reply.stratum) && updates == old(updates) + 1
                   && lastSync == Quotient(t4ns + lastOffset, NS) && nextAttempt == now + interval * NS
              else && correction == old(correction) && synchronized == old(synchronized)
                   && failures == old(failures) + 1
                   && (lastAddress, lastStratum) == old((lastAddress, lastStratum)) && updates == old(updates)
                   && lastSync == old(lastSync) && nextAttempt == old(nextAttempt)
    {
      hide FixedDelta, Stamp, Quotient, NtpFromNs, Honest;
      var t1, t4 := NtpFromNs(t1ns), NtpFromNs(t4ns);
      var a, b := FixedDelta(reply.receive, t1), FixedDelta(reply.transmit, t4);
      var server, local := FixedDelta(reply.transmit, reply.receive), FixedDelta(t4, t1);
      lastOffset := Quotient(a + b, 2);
      lastDelay := local - server;
      if lastDelay < 0 || lastDelay > MAX_DELAY {
        lastError := TIMESTAMP_ERROR;
        failures := failures + 1;
        return lastError;
      }
      correction := correction + lastOffset;
      synchronized, lastError := true, 0;
      lastAddress, lastStratum := reply.address, reply.stratum;
      lastSync := Quotient(t4ns + lastOffset, NS);
      nextAttempt := now + interval * NS;
      updates := updates + 1;
      if reply.receive == received % WRAP && reply.transmit == sent % WRAP
          && Honest(t1ns, t4ns, received, sent, theta) {
        AcceptedBound(t1ns, t4ns, received, sent, theta);
      }
      result := OK;
    }
  }
}
