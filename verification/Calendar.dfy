/**
 Calendar arithmetic: to_epoch and from_epoch of kernel/core/timed.c and the closed-form day count of
 kernel/security/tls_platform.c.
 */
module Calendar {
  const DAY: nat := 86400
  const TLS_SHIFT: nat := 719528            // days from year 0 to 1970
  const YEARS: nat := 0x1_0000_0000         // the year counter of from_epoch has 32 bits
  const LAST_DAY: nat := 23217004           // days from 1970 to the year 65536

  datatype Time = Time(year: nat, month: nat, day: nat, hour: nat, minute: nat, second: nat)

  predicate Leap(y: nat) { y % 4 == 0 && (y % 100 != 0 || y % 400 == 0) }

  function YearDays(y: nat): (n: nat)
    ensures n > 0
  {
    if Leap(y) then 366 else 365
  }

  function MonthTable(): (t: seq<nat>)
    ensures |t| == 12 && forall i :: 0 <= i < 12 ==> 28 <= t[i] <= 31
  {
    [31, 28, 31, 30, 31, 30, 31, 31, 30, 31, 30, 31]
  }

  function MonthDays(y: nat, m: nat): (n: nat)
    requires 1 <= m <= 12
    ensures n > 0
  {
    MonthTable()[m - 1] + if m == 2 && Leap(y) then 1 else 0
  }

  /** Days from the start of 1970 to the start of year `y`. */
  function DaysToYear(y: nat): nat {
    if y <= 1970 then 0 else DaysToYear(y - 1) + YearDays(y - 1)
  }

  /** Days from the start of year `y` to the start of its month `m`. */
  function DaysToMonth(y: nat, m: nat): nat
    requires 1 <= m <= 13
  {
    if m == 1 then 0 else DaysToMonth(y, m - 1) + MonthDays(y, m - 1)
  }

  /** A date that exists, and a time of day. */
  predicate Exists(t: Time) {
    && 1970 <= t.year && 1 <= t.month <= 12 && 1 <= t.day <= MonthDays(t.year, t.month)
    && t.hour < 24 && t.minute < 60 && t.second < 60
  }

  function Days(t: Time): nat
    requires 1 <= t.month <= 12 && t.day >= 1
  {
    DaysToYear(t.year) + DaysToMonth(t.year, t.month) + t.day - 1
  }

  /** Seconds since the start of 1970. */
  function Epoch(t: Time): nat
    requires 1 <= t.month <= 12 && t.day >= 1
  {
    Days(t) * DAY + t.hour * 3600 + t.minute * 60 + t.second
  }

  // ------------------------------------------------------------ and back again

  /** The year that holds day `days` counted from the start of `y`, and the day within it. */
  function YearOf(days: nat, y: nat): (nat, nat) {
    if days < YearDays(y) then (y, days) else YearOf(days - YearDays(y), y + 1)
  }

  /** The month of year `y` that holds day `days` counted from the start of month `m`, and the day within it. */
  function MonthOf(y: nat, days: nat, m: nat): (nat, nat)
    requires 1 <= m <= 13
  {
    if m == 13 || days < MonthDays(y, m) then (m, days) else MonthOf(y, days - MonthDays(y, m), m + 1)
  }

  /** The date and time of a number of seconds since 1970. */
  function Civil(value: nat): Time {
    var (y, d) := YearOf(value / DAY, 1970);
    var (m, k) := MonthOf(y, d, 1);
    var s := value % DAY;
    Time(y, m, k + 1, s / 3600, s % 3600 / 60, s % 60)
  }

  lemma {:induction false} YearOfIs(days: nat, y: nat)
    requires y >= 1970
    ensures var (z, d) := YearOf(days, y); y <= z && d < YearDays(z) && DaysToYear(y) + days == DaysToYear(z) + d
    decreases days
  {
    if days >= YearDays(y) { YearOfIs(days - YearDays(y), y + 1); }
  }

  lemma {:induction false} MonthOfIs(y: nat, days: nat, m: nat)
    requires 1 <= m <= 13
    ensures var (k, d) := MonthOf(y, days, m);
            && m <= k <= 13 && (k <= 12 ==> d < MonthDays(y, k)) && DaysToMonth(y, m) + days == DaysToMonth(y, k) + d
    decreases 13 - m
  {
    if m < 13 && days >= MonthDays(y, m) { MonthOfIs(y, days - MonthDays(y, m), m + 1); }
  }

  lemma YearIsTwelveMonths(y: nat)
    ensures DaysToMonth(y, 13) == YearDays(y)
  {
    Table(y);
    assert DaysToMonth(y, 13) == DaysToMonth(y, 12) + 31;
  }

  /** from_epoch yields a date that exists, and to_epoch takes it back to the same second. */
  lemma CivilEpoch(value: nat)
    ensures Exists(Civil(value)) && Epoch(Civil(value)) == value
  {
    hide DaysToMonth, DaysToYear, Leap;
    hide YearOf, MonthOf;
    var (y, d) := YearOf(value / DAY, 1970);
    var (m, k) := MonthOf(y, d, 1);
    YearOfIs(value / DAY, 1970);
    MonthOfIs(y, d, 1);
    YearIsTwelveMonths(y);
    Starts(y);
    assert m <= 12;
    TimeOfDay(value % DAY);
  }

  lemma Starts(y: nat)
    ensures DaysToMonth(y, 1) == 0 && DaysToYear(1970) == 0
  {
  }

  lemma TimeOfDay(s: nat)
    requires s < DAY
    ensures s / 3600 < 24 && s % 3600 / 60 < 60 && s % 60 < 60 && s / 3600 * 3600 + s % 3600 / 60 * 60 + s % 60 == s
  {
  }

  lemma {:induction false} YearOfDays(y: nat, d: nat, from: nat)
    requires 1970 <= from <= y && d < YearDays(y)
    ensures DaysToYear(from) <= DaysToYear(y) && YearOf(DaysToYear(y) - DaysToYear(from) + d, from) == (y, d)
    decreases y - from
  {
    hide Leap;
    if from < y {
      YearOfDays(y, d, from + 1);
      assert DaysToYear(from + 1) == DaysToYear(from) + YearDays(from);
    }
  }

  lemma {:induction false} MonthOfDays(y: nat, m: nat, k: nat, from: nat)
    requires 1 <= from <= m <= 12 && k < MonthDays(y, m)
    ensures DaysToMonth(y, from) <= DaysToMonth(y, m)
            && MonthOf(y, DaysToMonth(y, m) - DaysToMonth(y, from) + k, from) == (m, k)
    decreases m - from
  {
    hide Leap;
    if from < m {
      MonthOfDays(y, m, k, from + 1);
      assert DaysToMonth(y, from + 1) == DaysToMonth(y, from) + MonthDays(y, from);
    }
  }

  lemma {:induction false} MonthInYear(y: nat, m: nat)
    requires 1 <= m <= 12
    ensures DaysToMonth(y, m) + MonthDays(y, m) <= YearDays(y)
    decreases 13 - m
  {
    if m == 12 { YearIsTwelveMonths(y); } else { MonthInYear(y, m + 1); }
  }

  /** to_epoch followed by from_epoch gives the date back. */
  lemma EpochCivil(t: Time)
    requires Exists(t)
    ensures Civil(Epoch(t)) == t
  {
    hide DaysToMonth, DaysToYear, Leap, MonthDays, YearDays, YearOf, MonthOf;
    var k := t.day - 1;
    MonthInYear(t.year, t.month);
    MonthOfDays(t.year, t.month, k, 1);
    Starts(t.year);
    YearOfDays(t.year, DaysToMonth(t.year, t.month) + k, 1970);
    Clock(Days(t), t.hour, t.minute, t.second);
  }

  // ------------------------------------------------- what from_epoch really stores

  /** YearOf with the year counted in 32 bits. */
  function CountedYear(days: nat, y: nat): (nat, nat) {
    if days < YearDays(y) then (y, days) else CountedYear(days - YearDays(y), (y + 1) % YEARS)
  }

  /** The date from_epoch stores: the year is counted in 32 bits and kept in 16. */
  function Stored(value: nat): Time {
    var (y, d) := CountedYear(value / DAY, 1970);
    var (m, k) := MonthOf(y, d, 1);
    var s := value % DAY;
    Time(y % 0x1_0000, m, k + 1, s / 3600, s % 3600 / 60, s % 60)
  }

  lemma {:induction false} CountedInYear(days: nat, y: nat)
    ensures CountedYear(days, y).1 < YearDays(CountedYear(days, y).0)
    decreases days
  {
    hide Leap;
    if days >= YearDays(y) { CountedInYear(days - YearDays(y), (y + 1) % YEARS); }
  }

  lemma {:induction false} CountedIs(days: nat, y: nat)
    requires 1970 <= y && YearOf(days, y).0 < YEARS
    ensures CountedYear(days, y) == YearOf(days, y)
    decreases days
  {
    hide Leap;
    if days >= YearDays(y) {
      YearOfIs(days - YearDays(y), y + 1);
      CountedIs(days - YearDays(y), y + 1);
    }
  }

  lemma {:induction false} YearsGrow(a: nat, b: nat)
    requires a <= b
    ensures DaysToYear(a) <= DaysToYear(b)
    decreases b - a
  {
    hide Leap;
    if a < b { YearsGrow(a, b - 1); }
  }

  lemma LastYear(y: nat)
    requires y == 0x1_0000
    ensures DaysToYear(y) == LAST_DAY
  {
    hide DaysToYear;
    TlsYearIs(y);
    assert TlsYear(y) == LAST_DAY + TLS_SHIFT;
  }

  /** A second lies before the year 65536 exactly when it is below the bound. */
  lemma YearFits(value: nat)
    ensures Civil(value).year < 0x1_0000 <==> value < LAST_DAY * DAY
  {
    hide DaysToYear, YearOf, MonthOf, Leap, YearDays;
    var days := value / DAY;
    YearOfIs(days, 1970);
    Starts(1970);
    var (y, d) := YearOf(days, 1970);
    var last: nat := 0x1_0000;
    LastYear(last);
    NextYear(y);
    if y < last { YearsGrow(y + 1, last); } else { YearsGrow(last, y); }
  }

  lemma NextYear(y: nat)
    ensures y >= 1970 ==> DaysToYear(y + 1) == DaysToYear(y) + YearDays(y)
    ensures DaysToYear(y + 1) <= DaysToYear(y) + YearDays(y)
  {
    hide Leap;
  }

  /** Whatever the year was, the date stored lies before the year 65536. */
  lemma StoredBelow(value: nat)
    ensures var t := Stored(value); 1 <= t.month <= 12 && t.day >= 1 && Epoch(t) < LAST_DAY * DAY
  {
    hide DaysToYear, CountedYear, MonthOf, Leap, DaysToMonth;
    var (y, d) := CountedYear(value / DAY, 1970);
    var (m, k) := MonthOf(y, d, 1);
    CountedInYear(value / DAY, 1970);
    MonthOfIs(y, d, 1);
    YearIsTwelveMonths(y);
    Starts(y);
    var t := Stored(value);
    DayInYear(y, t.year, m, k);
    var last: nat := 0x1_0000;
    LastYear(last);
    EndOfYear(t.year, last, DaysToMonth(t.year, m) + k);
    TimeOfDay(value % DAY);
    assert Days(t) < LAST_DAY;
    assert Epoch(t) < (Days(t) + 1) * DAY;
  }

  /** A month and day taken from year `y` lie inside any other year `z`, a 29 February included. */
  lemma DayInYear(y: nat, z: nat, m: nat, k: nat)
    requires 1 <= m <= 12 && k < MonthDays(y, m)
    ensures DaysToMonth(z, m) + k < if z >= 1970 then YearDays(z) else 366
  {
    hide Leap, DaysToMonth;
    Table(z);
    assert MonthTable()[m - 1] <= 31;
  }

  lemma EndOfYear(y: nat, last: nat, d: nat)
    requires y < last && last == 0x1_0000 && d < if y >= 1970 then YearDays(y) else 366
    ensures DaysToYear(y) + d < DaysToYear(last)
  {
    hide DaysToYear, Leap;
    LastYear(last);
    if y >= 1970 {
      NextYear(y);
      YearsGrow(y + 1, last);
    } else {
      YearsGrow(y, 1970);
      Starts(y);
    }
  }

  /** from_epoch followed by to_epoch gives the second back exactly below the year 65536. */
  lemma StoredEpochIff(value: nat)
    ensures Epoch(StoredTime(value)) == value <==> value < LAST_DAY * DAY
  {
    hide Civil, Epoch, Stored;
    StoredBelow(value);
    YearFits(value);
    if value < LAST_DAY * DAY {
      CivilEpoch(value);
      StoredIs(value);
    }
  }

  /** The stored date, which always has a month and a day. */
  function StoredTime(value: nat): (t: Time)
    ensures 1 <= t.month <= 12 && t.day >= 1
  {
    StoredBelow(value);
    Stored(value)
  }

  /** Up to a year of 32 bits, the date stored is the true one but for the upper half of the year. */
  lemma StoredIs(value: nat)
    requires Civil(value).year < YEARS
    ensures Stored(value) == Civil(value).(year := Civil(value).year % 0x1_0000)
  {
    hide CountedYear, YearOf, MonthOf;
    CountedIs(value / DAY, 1970);
  }

  /** What from_epoch stores for to_epoch's result is the date itself exactly when the year fits 16 bits. */
  lemma SixteenBitYears(t: Time)
    requires Exists(t)
    ensures Stored(Epoch(t)) == t <==> t.year < 0x1_0000
  {
    hide Civil, Epoch, CountedYear, MonthOf;
    EpochCivil(t);
    if t.year < 0x1_0000 {
      StoredIs(Epoch(t));
    } else {
      assert Stored(Epoch(t)).year < 0x1_0000;
    }
  }

  lemma Clock(days: nat, h: nat, m: nat, s: nat)
    requires h < 24 && m < 60 && s < 60
    ensures var v := days * DAY + h * 3600 + m * 60 + s; v / DAY == days && v % DAY == h * 3600 + m * 60 + s
    ensures var r := h * 3600 + m * 60 + s; r / 3600 == h && r % 3600 / 60 == m && r % 60 == s
  {
    var r := h * 3600 + m * 60 + s;
    assert r < DAY;
  }

  // ----------------------------------------------------------------- closed form

  /** tls_validation_time's day count, from the year 0. */
  function TlsDays(t: Time): int
    requires 1 <= t.month <= 12
  {
    TlsYear(t.year) + Before()[t.month - 1] + t.day - 1 + if t.month > 2 && Leap(t.year) then 1 else 0
  }

  function TlsYear(y: nat): int { 365 * y + (y + 3) / 4 - (y + 99) / 100 + (y + 399) / 400 }

  function Before(): (t: seq<nat>)
    ensures |t| == 12
  {
    [0, 31, 59, 90, 120, 151, 181, 212, 243, 273, 304, 334]
  }

  lemma TlsYearStep(y: nat)
    ensures TlsYear(y + 1) == TlsYear(y) + YearDays(y)
  {
    assert (y + 4) / 4 - (y + 3) / 4 == if y % 4 == 0 then 1 else 0;
    assert (y + 100) / 100 - (y + 99) / 100 == if y % 100 == 0 then 1 else 0;
    assert (y + 400) / 400 - (y + 399) / 400 == if y % 400 == 0 then 1 else 0;
    assert y % 400 == 0 ==> y % 100 == 0;
    assert y % 100 == 0 ==> y % 4 == 0;
  }

  lemma {:induction false} TlsYearIs(y: nat)
    requires y >= 1970
    ensures TlsYear(y) == DaysToYear(y) + TLS_SHIFT
  {
    if y > 1970 {
      TlsYearIs(y - 1);
      TlsYearStep(y - 1);
    }
  }

  /** The cumulative table agrees with adding the months one by one. */
  lemma Table(y: nat)
    ensures forall m :: 1 <= m <= 12 ==> DaysToMonth(y, m) == Before()[m - 1] + if m > 2 && Leap(y) then 1 else 0
  {
    hide Leap;
    var b := Before();
    assert DaysToMonth(y, 1) == 0 && DaysToMonth(y, 2) == 31;
    var l := if Leap(y) then 1 else 0;
    assert DaysToMonth(y, 3) == 59 + l;
    assert DaysToMonth(y, 4) == 90 + l;
    assert DaysToMonth(y, 5) == 120 + l;
    assert DaysToMonth(y, 6) == 151 + l;
    assert DaysToMonth(y, 7) == 181 + l;
    assert DaysToMonth(y, 8) == 212 + l;
    assert DaysToMonth(y, 9) == 243 + l;
    assert DaysToMonth(y, 10) == 273 + l;
    assert DaysToMonth(y, 11) == 304 + l;
    assert DaysToMonth(y, 12) == 334 + l;
  }

  /** The closed form and the year-by-year count agree on every date from 1970 on. */
  lemma TlsDaysIs(t: Time)
    requires t.year >= 1970 && 1 <= t.month <= 12 && t.day >= 1
    ensures TlsDays(t) == Days(t) + TLS_SHIFT
  {
    hide Leap, DaysToYear, DaysToMonth, TlsYear;
    TlsYearIs(t.year);
    Table(t.year);
  }

  // ------------------------------------------------------------------- the loops

  /** to_epoch. */
  method ToEpoch(t: Time) returns (value: nat)
    requires 1 <= t.month <= 12 && t.day >= 1
    ensures value == Epoch(t)
  {
    hide Leap;
    var days := 0;
    var y := 1970;
    while y < t.year
      invariant 1970 <= y && (y <= t.year || y == 1970) && days == DaysToYear(y)
    {
      days := days + YearDays(y);
      y := y + 1;
    }
    assert DaysToYear(t.year) == days;
    var m := 1;
    while m < t.month
      invariant 1 <= m <= t.month && days == DaysToYear(t.year) + DaysToMonth(t.year, m)
    {
      days := days + MonthDays(t.year, m);
      m := m + 1;
    }
    value := (days + t.day - 1) * DAY + t.hour * 3600 + t.minute * 60 + t.second;
  }

  /** from_epoch. */
  method FromEpoch(value: nat) returns (t: Time)
    ensures t == Stored(value)
  {
    hide Leap, MonthDays;
    var days: nat, s: nat := value / DAY, value % DAY;
    ghost var d0 := days;
    var y: nat := 1970;
    while days >= YearDays(y)
      invariant CountedYear(days, y) == CountedYear(d0, 1970)
      decreases days
    {
      days := days - YearDays(y);
      y := (y + 1) % YEARS;
    }
    ghost var d1 := days;
    YearIsTwelveMonths(y);
    Starts(y);
    var m := 1;
    while days >= MonthDays(y, m)
      invariant 1 <= m <= 12 && MonthOf(y, days, m) == MonthOf(y, d1, 1) && DaysToMonth(y, m) + days == d1
      decreases 13 - m
    {
      assert DaysToMonth(y, m + 1) == DaysToMonth(y, m) + MonthDays(y, m);
      days := days - MonthDays(y, m);
      m := m + 1;
    }
    t := Time(y % 0x1_0000, m, days + 1, s / 3600, s % 3600 / 60, s % 60);
  }

  /** tls_validation_time: the day count and the second of the day, from 2024 on. */
  method ValidationTime(t: Time) returns (ok: bool, days: int, seconds: nat)
    requires Exists(t)
    ensures ok == (t.year >= 2024)
    ensures ok ==> days == Days(t) + TLS_SHIFT && Epoch(t) == (days - TLS_SHIFT) * DAY + seconds && seconds < DAY
  {
    hide Leap, Days, TlsYear;
    if t.year < 2024 { return false, 0, 0; }
    TlsDaysIs(t);
    days := TlsYear(t.year);
    days := days + Before()[t.month - 1] + t.day - 1;
    if t.month > 2 && Leap(t.year) { days := days + 1; }
    seconds := t.hour * 3600 + t.minute * 60 + t.second;
    ok := true;
  }
}
