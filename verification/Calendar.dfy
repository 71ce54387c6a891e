/**
 Calendar arithmetic of the real-time clock driver: day counting from 1970, its inverse, and the weekday
 formula, with C's division that truncates toward zero.
 */
module Calendar {

  /** `rtc_time_t`; the weekday counts from Sunday = 1. */
  datatype Time = Time(second: nat, minute: nat, hour: nat, day: nat, month: nat, year: nat, weekday: nat)

  predicate IsLeap(y: nat) {
    (y % 4 == 0 && y % 100 != 0) || y % 400 == 0
  }

  function YearDays(y: nat): nat {
    if IsLeap(y) then 366 else 365
  }

  function MonthDays(m: nat, y: nat): (n: nat)
    ensures 1 <= m <= 12 ==> 28 <= n <= 31
  {
    if m < 1 || m > 12 then 0
    else if m == 2 then (if IsLeap(y) then 29 else 28)
    else if m == 4 || m == 6 || m == 9 || m == 11 then 30
    else 31
  }

  /** Days from 1970-01-01 to the first day of year `y`. */
  function DaysBeforeYear(y: nat): nat {
    if y <= 1970 then 0 else DaysBeforeYear(y - 1) + YearDays(y - 1)
  }

  /** Days from the first day of year `y` to the first day of month `m`. */
  function DaysBeforeMonth(m: nat, y: nat): nat {
    if m <= 1 then 0 else DaysBeforeMonth(m - 1, y) + MonthDays(m - 1, y)
  }

  predicate ValidDate(y: nat, m: nat, d: nat) {
    1 <= m <= 12 && 1 <= d <= MonthDays(m, y)
  }

  predicate ValidTime(t: Time) {
    ValidDate(t.year, t.month, t.day) && t.hour < 24 && t.minute < 60 && t.second < 60
  }

  /** Days from 1970-01-01 to the date; -1 is the day before. */
  function DayNumber(y: nat, m: nat, d: nat): int {
    DaysBeforeYear(y) + DaysBeforeMonth(m, y) + d - 1
  }

  /** Seconds from 1970-01-01 00:00:00. */
  function UnixOf(t: Time): int {
    DayNumber(t.year, t.month, t.day) * 86400 + t.hour * 3600 + t.minute * 60 + t.second
  }

  // ---------- the weekday ----------

  function CDiv(a: int, b: int): int
    requires b > 0
  {
    if a >= 0 then a / b else -((-a) / b)
  }

  function CRem(a: int, b: int): int
    requires b > 0
  {
    a - b * CDiv(a, b)
  }

  /** `rtc_calculate_weekday`: Zeller's congruence, in C's arithmetic. */
  function Weekday(year: nat, month: nat, day: nat): int {
    var m := if month < 3 then month + 12 else month;
    var y: int := if month < 3 then year - 1 else year;
    var k, j := CRem(y, 100), CDiv(y, 100);
    var h := CRem(day + CDiv(13 * (m + 1), 5) + k + CDiv(k, 4) + CDiv(j, 4) - 2 * j, 7);
    CRem(h + 6, 7) + 1
  }

  /** Leap years from year 1 up to and including year `y`. */
  function LeapsThrough(y: nat): int {
    y / 4 - y / 100 + y / 400
  }

  lemma QuotientSteps(y: nat)
    requires y > 0
    ensures y / 4 == (y - 1) / 4 + if y % 4 == 0 then 1 else 0
    ensures y / 100 == (y - 1) / 100 + if y % 100 == 0 then 1 else 0
    ensures y / 400 == (y - 1) / 400 + if y % 400 == 0 then 1 else 0
  {
  }

  lemma Divisors(y: nat)
    ensures y % 400 == 0 ==> y % 100 == 0
    ensures y % 100 == 0 ==> y % 4 == 0
  {
    if y % 400 == 0 {
      MultipleOf(4 * (y / 400), y);
    } else if y % 100 == 0 {
      MultipleOf(y / 100, y);
    }
  }

  lemma MultipleOf(q: nat, y: nat)
    requires y == 100 * q
    ensures y % 100 == 0 && y % 4 == 0
  {
    Hundreds(q);
    Fours(25 * q);
  }

  lemma Hundreds(q: nat)
    ensures 100 * q % 100 == 0
  {
  }

  lemma Fours(q: nat)
    ensures 4 * q % 4 == 0
  {
  }

  lemma LeapStep(y: nat)
    requires y > 0
    ensures LeapsThrough(y) == LeapsThrough(y - 1) + if IsLeap(y) then 1 else 0
  {
    QuotientSteps(y);
    Divisors(y);
  }

  /** Counting years one by one gives the closed form: 477 leap years precede 1970. */
  lemma {:induction false} YearClosedForm(y: nat)
    requires y >= 1970
    ensures DaysBeforeYear(y) == 365 * (y - 1970) + LeapsThrough(y - 1) - 477
  {
    if y > 1970 {
      YearClosedForm(y - 1);
      LeapStep(y - 1);
    }
  }

  /** Days from the first of March to the first of month `m`, for the months from March on. */
  function SinceMarch(m: nat): nat
    requires 3 <= m <= 13
  {
    [0, 31, 61, 92, 122, 153, 184, 214, 245, 275, 306][m - 3]
  }

  lemma MonthTable(y: nat, m: nat)
    requires 1 <= m <= 13
    ensures var leap := if IsLeap(y) then 1 else 0;
            DaysBeforeMonth(m, y) == if m == 1 then 0 else if m == 2 then 31 else 59 + leap + SinceMarch(m)
  {
    if m > 1 {
      MonthTable(y, m - 1);
    }
  }

  /** The month term of the formula follows the days since March, modulo seven. */
  lemma MonthTerm(m: nat)
    requires 3 <= m <= 12
    ensures SinceMarch(m) + 3 == 13 * (m + 1) / 5 + 7 * (4 * m - 13)
  {
  }

  /** The truncated remainder, shifted by six, is the Euclidean one. */
  lemma ShiftedRemainder(a: int)
    ensures CRem(CRem(a, 7) + 6, 7) == (a + 6) % 7
  {
  }

  /** The year terms of the formula follow the day count, modulo seven. */
  lemma YearTerm(y: nat, j: nat, k: nat)
    requires y == 100 * j + k && k < 100
    ensures 365 * y + LeapsThrough(y) == 7 * (5218 * j + 52 * k) + (k + k / 4 + j / 4 - 2 * j)
  {
    assert y / 4 == 25 * j + k / 4;
    assert y / 100 == j;
    assert y / 400 == j / 4;
  }

  lemma SameModSeven(a: int, b: int, q: int)
    requires a == b + 7 * q
    ensures a % 7 == b % 7
  {
  }

  /** The sum inside Zeller's congruence, before the remainder is taken. */
  function ZellerSum(year: nat, month: nat, day: nat): int
    requires year > 0
  {
    var m, y := if month < 3 then month + 12 else month, if month < 3 then year - 1 else year;
    day + 13 * (m + 1) / 5 + y % 100 + y % 100 / 4 + y / 100 / 4 - 2 * (y / 100)
  }

  lemma WeekdayIsZeller(y: nat, m: nat, d: nat)
    requires y > 0
    ensures Weekday(y, m, d) == (ZellerSum(y, m, d) + 6) % 7 + 1
  {
    ShiftedRemainder(ZellerSum(y, m, d));
  }

  lemma ZellerFromMarch(y: nat, m: nat, d: nat)
    requires y >= 1970 && 3 <= m <= 12
    ensures (ZellerSum(y, m, d) + 6) % 7 == (DayNumber(y, m, d) + 4) % 7
  {
    hide LeapsThrough, SinceMarch, IsLeap, DaysBeforeYear, DaysBeforeMonth;
    MonthTable(y, m);
    YearClosedForm(y);
    YearTerm(y, y / 100, y % 100);
    LeapStep(y);
    MonthTerm(m);
    SameModSeven(DayNumber(y, m, d) + 4, ZellerSum(y, m, d) + 6,
        5218 * (y / 100) + 52 * (y % 100) + 4 * m - 13 - 102782);
  }

  lemma ZellerBeforeMarch(y: nat, m: nat, d: nat)
    requires y >= 1970 && 1 <= m <= 2
    ensures (ZellerSum(y, m, d) + 6) % 7 == (DayNumber(y, m, d) + 4) % 7
  {
    hide LeapsThrough, SinceMarch, IsLeap, DaysBeforeYear, DaysBeforeMonth;
    MonthTable(y, m);
    YearClosedForm(y);
    YearTerm(y - 1, (y - 1) / 100, (y - 1) % 100);
    SameModSeven(DayNumber(y, m, d) + 4, ZellerSum(y, m, d) + 6,
      5218 * ((y - 1) / 100) + 52 * ((y - 1) % 100) - if m == 1 then 102743 else 102739);
  }

  /**
   Zeller's congruence agrees with counting days: 1970-01-01 was a Thursday, and every valid date from
   then on gets the weekday that counting gives it, although the C remainder may be negative on the way.
   */
  lemma WeekdayCorrect(y: nat, m: nat, d: nat)
    requires y >= 1970 && ValidDate(y, m, d)
    ensures Weekday(y, m, d) == (DayNumber(y, m, d) + 4) % 7 + 1
  {
    WeekdayIsZeller(y, m, d);
    if m < 3 {
      ZellerBeforeMarch(y, m, d);
    } else {
      ZellerFromMarch(y, m, d);
    }
  }

  // ---------- timestamps ----------

  const TWO_64: nat := 0x1_0000_0000_0000_0000

  lemma {:induction false} YearBound(y: nat)
    ensures DaysBeforeYear(y) <= 366 * (if y <= 1970 then 0 else y - 1970)
  {
    if y > 1970 {
      YearBound(y - 1);
    }
  }

  lemma {:induction false} MonthBound(m: nat, y: nat)
    ensures DaysBeforeMonth(m, y) <= 31 * m
  {
    if m > 1 {
      MonthBound(m - 1, y);
    }
  }

  /** `rtc_time_to_unix` on every field value: the exact count, in 64 bits; 0 before 1970. */
  method TimeToUnix(t: Time) returns (ts: nat)
    requires t.year < 65536 && t.month < 256 && t.day < 256 && t.hour < 256 && t.minute < 256 && t.second < 256
    ensures ts == if t.year < 1970 then 0 else UnixOf(t) % TWO_64
  {
    hide IsLeap, MonthDays;
    if t.year < 1970 {
      return 0;
    }
    ts := 0;
    var year := 1970;
    while year < t.year
      invariant 1970 <= year <= t.year && ts == DaysBeforeYear(year)
    {
      ts := ts + if IsLeap(year) then 366 else 365;
      year := year + 1;
    }
    var month := 1;
    while month < t.month
      invariant 1 <= month && (month <= t.month || month == 1)
      invariant ts == DaysBeforeYear(t.year) + DaysBeforeMonth(month, t.year)
    {
      ts := ts + MonthDays(month, t.year);
      month := month + 1;
    }
    YearBound(t.year);
    MonthBound(t.month, t.year);
    ts := Seconds(ts, t);
  }

  /** The last lines of `rtc_time_to_unix`: days to seconds, in unsigned 64-bit arithmetic. */
  function Seconds(days: nat, t: Time): (ts: nat)
    requires days < 0x1_0000_0000 && t.day < 256 && t.hour < 256 && t.minute < 256 && t.second < 256
    ensures ts == ((days + t.day - 1) * 86400 + t.hour * 3600 + t.minute * 60 + t.second) % TWO_64
  {
    var d := (days + t.day - 1) % TWO_64;
    var s := d * 86400 % TWO_64;
    WrapSteps(days + t.day - 1, t.hour * 3600 + t.minute * 60 + t.second);
    (s + t.hour * 3600 + t.minute * 60 + t.second) % TWO_64
  }

  lemma WrapAt(x: int, q: int, r: int)
    requires x == q * TWO_64 + r && 0 <= r < TWO_64 && -1 <= q <= 0
    ensures x % TWO_64 == r
  {
  }

  /** Taking the remainder after every operation gives the remainder of the exact result. */
  lemma WrapSteps(d: int, secs: nat)
    requires -1 <= d < 0x1_0000_0200 && secs < 0x10_0000
    ensures ((d % TWO_64) * 86400 % TWO_64 + secs) % TWO_64 == (d * 86400 + secs) % TWO_64
  {
    if d >= 0 {
      WrapAt(d, 0, d);
      WrapAt(d * 86400, 0, d * 86400);
    } else {
      WrapAt(-1, -1, TWO_64 - 1);
      assert (TWO_64 - 1) * 86400 == 86399 * TWO_64 + (TWO_64 - 86400);
      if secs < 86400 {
        WrapAt(secs - 86400, -1, TWO_64 - 86400 + secs);
        WrapAt(TWO_64 - 86400 + secs, 0, TWO_64 - 86400 + secs);
      } else {
        WrapAt(secs - 86400, 0, secs - 86400);
      }
    }
  }

  lemma {:induction false} MonthsFill(m: nat, y: nat)
    requires 1 <= m <= 13
    ensures DaysBeforeMonth(m, y) <= YearDays(y) && DaysBeforeMonth(13, y) == YearDays(y)
    ensures m <= 12 ==> DaysBeforeMonth(m, y) + MonthDays(m, y) == DaysBeforeMonth(m + 1, y)
  {
    MonthTable(y, m);
    MonthTable(y, 13);
  }

  /** The year loop: whole years are taken off the day count; the year is kept in 16 bits. */
  method SplitYears(days: nat) returns (year: nat, rest: nat)
    ensures year < 65536 && rest < YearDays(year)
    ensures days < DaysBeforeYear(65536) ==> year >= 1970 && DaysBeforeYear(year) + rest == days
  {
    hide IsLeap;
    year, rest := 1970, days;
    while rest >= YearDays(year)
      invariant year < 65536
      invariant days < DaysBeforeYear(65536) ==> year >= 1970 && DaysBeforeYear(year) + rest == days
      decreases rest
    {
      rest := rest - YearDays(year);
      year := (year + 1) % 65536;
    }
  }

  /** The month loop; it never passes December. */
  method SplitMonths(days: nat, year: nat) returns (month: nat, rest: nat)
    requires days < YearDays(year)
    ensures 1 <= month <= 12 && rest < MonthDays(month, year)
    ensures DaysBeforeMonth(month, year) + rest == days
  {
    hide IsLeap, MonthDays, DaysBeforeMonth;
    month, rest := 1, days;
    MonthTable(year, 1);
    while rest >= MonthDays(month, year)
      invariant 1 <= month <= 12 && DaysBeforeMonth(month, year) + rest == days
      decreases 13 - month
    {
      MonthsFill(month, year);
      rest := rest - MonthDays(month, year);
      month := month + 1;
    }
  }

  /** `rtc_unix_to_time`: a valid time with the counted weekday, and for years up to 65535 the exact one. */
  method UnixToTime(ts: nat) returns (t: Time)
    requires ts < TWO_64
    ensures ValidTime(t) && t.year < 65536 && t.weekday == Weekday(t.year, t.month, t.day)
    ensures ts < DaysBeforeYear(65536) * 86400 ==> t.year >= 1970 && UnixOf(t) == ts
  {
    hide IsLeap, MonthDays, DaysBeforeMonth, DaysBeforeYear, YearDays;
    var days, secs := ts / 86400, ts % 86400;
    var year, inYear := SplitYears(days);
    var month, inMonth := SplitMonths(inYear, year);
    TimeOfDay(secs);
    var w := Weekday(year, month, inMonth + 1);
    WeekdayRange(year, month, inMonth + 1);
    t := Time(secs % 60, secs % 3600 / 60, secs / 3600, inMonth + 1, month, year, w);
  }

  lemma TimeOfDay(secs: nat)
    requires secs < 86400
    ensures secs / 3600 < 24 && secs % 3600 / 60 < 60
    ensures secs / 3600 * 3600 + secs % 3600 / 60 * 60 + secs % 60 == secs
  {
  }

  /** Seconds, minutes, hours and days are determined by the number of seconds they make up. */
  lemma TimeOfDayUnique(d: int, h: nat, m: nat, s: nat, d': int, h': nat, m': nat, s': nat)
    requires h < 24 && m < 60 && s < 60 && h' < 24 && m' < 60 && s' < 60
    requires d * 86400 + h * 3600 + m * 60 + s == d' * 86400 + h' * 3600 + m' * 60 + s'
    ensures d == d' && h == h' && m == m' && s == s'
  {
  }

  lemma WeekdayRange(y: nat, m: nat, d: nat)
    ensures 1 <= Weekday(y, m, d) <= 7
  {
  }

  lemma {:induction false} YearsIncrease(a: nat, b: nat)
    requires 1970 <= a < b
    ensures DaysBeforeYear(a) + YearDays(a) <= DaysBeforeYear(b)
  {
    if a + 1 < b {
      YearsIncrease(a, b - 1);
    }
  }

  lemma {:induction false} MonthsIncrease(a: nat, b: nat, y: nat)
    requires 1 <= a < b <= 13
    ensures DaysBeforeMonth(a, y) + MonthDays(a, y) <= DaysBeforeMonth(b, y)
  {
    if a + 1 < b {
      MonthsIncrease(a, b - 1, y);
    }
  }

  lemma DateInYear(y: nat, m: nat, d: nat)
    requires ValidDate(y, m, d)
    ensures 0 <= DaysBeforeMonth(m, y) + d - 1 < YearDays(y)
  {
    MonthsFill(m, y);
    MonthsFill(m + 1, y);
  }

  /** Different valid dates from 1970 on have different day numbers. */
  lemma DayNumberInjective(y: nat, m: nat, d: nat, y': nat, m': nat, d': nat)
    requires y >= 1970 && y' >= 1970 && ValidDate(y, m, d) && ValidDate(y', m', d')
    requires DayNumber(y, m, d) == DayNumber(y', m', d')
    ensures y == y' && m == m' && d == d'
  {
    hide MonthDays, YearDays, DaysBeforeMonth, DaysBeforeYear;
    DateInYear(y, m, d);
    DateInYear(y', m', d');
    if y < y' {
      YearsIncrease(y, y');
    } else if y' < y {
      YearsIncrease(y', y);
    } else if m < m' {
      MonthsIncrease(m, m', y);
    } else if m' < m {
      MonthsIncrease(m', m, y);
    }
  }

  /** A valid date and time of the years 1970 to 65535 survives the conversion to a timestamp and back. */
  method TimeRoundTrip(t: Time) returns (t': Time)
    requires ValidTime(t) && 1970 <= t.year < 65536
    ensures t' == t.(weekday := Weekday(t.year, t.month, t.day))
  {
    hide MonthDays, YearDays, DaysBeforeMonth, DaysBeforeYear, Weekday, DayNumber;
    MonthDaysBound(t.month, t.year);
    var ts := TimeToUnix(t);
    UnixBelowLimit(t);
    t' := UnixToTime(ts);
    TimeOfDayUnique(DayNumber(t.year, t.month, t.day), t.hour, t.minute, t.second,
      DayNumber(t'.year, t'.month, t'.day), t'.hour, t'.minute, t'.second);
    DayNumberInjective(t.year, t.month, t.day, t'.year, t'.month, t'.day);
  }

  lemma MonthDaysBound(m: nat, y: nat)
    ensures MonthDays(m, y) <= 31
  {
  }

  lemma UnixBelowLimit(t: Time)
    requires ValidTime(t) && 1970 <= t.year < 65536
    ensures 0 <= UnixOf(t) < DaysBeforeYear(65536) * 86400 < TWO_64
  {
    hide MonthDays, YearDays, DaysBeforeMonth, DaysBeforeYear;
    DateInYear(t.year, t.month, t.day);
    YearsIncrease(t.year, 65536);
    YearBound(65536);
  }

  /** A timestamp survives the conversion to a date and back exactly when its year fits in 16 bits. */
  method UnixRoundTrip(ts: nat) returns (ts': nat)
    requires ts < TWO_64
    ensures ts' == ts <==> ts < DaysBeforeYear(65536) * 86400
  {
    hide MonthDays, YearDays, DaysBeforeMonth, DaysBeforeYear, Weekday;
    var t := UnixToTime(ts);
    MonthDaysBound(t.month, t.year);
    if t.year >= 1970 {
      UnixBelowLimit(t);
    }
    LimitPositive();
    ts' := TimeToUnix(t);
  }

  lemma LimitPositive()
    ensures DaysBeforeYear(65536) > 0
  {
    YearsIncrease(1970, 65536);
  }
}
