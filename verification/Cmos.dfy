/**
 The CMOS clock registers: setting and getting the time in the four combinations of BCD or binary data and
 12 or 24 hour mode, and the double read that guards against a clock that ticks while it is being read.
 */
module Cmos {
  import opened Bytes
  import opened Calendar

  type Reg = Byte

  datatype Regs = Regs(second: Reg, minute: Reg, hour: Reg, day: Reg, month: Reg, year: Reg, weekday: Reg, century: Reg)

  datatype Mode = Mode(binary: bool, hours24: bool)

  function FromBcd(b: Reg): (x: Reg) {
    (b / 16 * 10 + b % 16) % 256
  }

  function ToBcd(x: Reg): (b: Reg) {
    (x / 10 * 16 + x % 10) % 256
  }

  lemma BcdRoundTrip(x: Reg)
    requires x < 100
    ensures FromBcd(ToBcd(x)) == x && (x < 80 ==> ToBcd(x) < 0x80)
  {
    hide FromBcd, ToBcd;
    BcdDigits(x);
    BcdValue(x / 10, x % 10);
    assert ToBcd(x) == 16 * (x / 10) + x % 10;
  }

  /** A BCD byte has the tens in its high half and the ones in its low half. */
  lemma BcdDigits(x: Reg)
    requires x < 100
    ensures ToBcd(x) / 16 == x / 10 && ToBcd(x) % 16 == x % 10
  {
    Digits(x);
    Nibbles(x / 10, x % 10);
  }

  lemma BcdValue(hi: nat, lo: nat)
    requires hi < 16 && lo < 16
    ensures FromBcd(16 * hi + lo) == 10 * hi + lo
  {
    Nibbles(hi, lo);
  }

  lemma Digits(x: nat)
    requires x < 100
    ensures x / 10 < 10 && x % 10 < 10 && x == 10 * (x / 10) + x % 10 && (x < 80 ==> x / 10 < 8)
  {
  }

  lemma Nibbles(hi: nat, lo: nat)
    requires hi < 16 && lo < 16
    ensures (16 * hi + lo) / 16 == hi && (16 * hi + lo) % 16 == lo
  {
  }

  function ToData(mode: Mode, x: Reg): Reg {
    if mode.binary then x else ToBcd(x)
  }

  function FromData(mode: Mode, x: Reg): Reg {
    if mode.binary then x else FromBcd(x)
  }

  /** The hour register: in 12 hour mode bit 7 marks the afternoon, and midnight and noon are both 12. */
  function ToHour(mode: Mode, hour: Reg): Reg
    requires hour < 24
  {
    if mode.hours24 then ToData(mode, hour)
    else
      var twelve := if hour == 0 then 12 else if hour > 12 then hour - 12 else hour;
      (if hour >= 12 then 0x80 else 0) + ToData(mode, twelve) % 0x80
  }

  function FromHour(mode: Mode, reg: Reg): Reg {
    if mode.hours24 then FromData(mode, reg)
    else
      var pm, h := reg >= 0x80, FromData(mode, reg % 0x80);
      if pm && h != 12 then (h + 12) % 256 else if !pm && h == 12 then 0 else h
  }

  lemma HighBit(x: Reg)
    requires x < 0x80
    ensures x % 0x80 == x && (0x80 + x) % 0x80 == x
  {
  }

  /**
   The hour register: the hour itself in 24 hour mode; in 12 hour mode bit 7 exactly from noon on, and below it the
   hour on a clock face, from 1 to 12.
   */
  lemma HourRegisterIs(mode: Mode, hour: Reg)
    requires hour < 24
    ensures mode.hours24 ==> ToHour(mode, hour) == ToData(mode, hour)
    ensures !mode.hours24 ==> (ToHour(mode, hour) >= 0x80 <==> hour >= 12)
    ensures !mode.hours24 ==>
              ToHour(mode, hour) % 0x80 == ToData(mode, if hour % 12 == 0 then 12 else hour % 12)
  {
    hide ToBcd;
    var twelve := if hour == 0 then 12 else if hour > 12 then hour - 12 else hour;
    assert twelve == if hour % 12 == 0 then 12 else hour % 12;
    BcdRoundTrip(twelve);
    HighBit(ToData(mode, twelve));
  }

  lemma HourRoundTrip(mode: Mode, hour: Reg)
    requires hour < 24
    ensures FromHour(mode, ToHour(mode, hour)) == hour
  {
    hide FromBcd, ToBcd;
    var twelve := if hour == 0 then 12 else if hour > 12 then hour - 12 else hour;
    BcdRoundTrip(hour);
    BcdRoundTrip(twelve);
    HighBit(ToData(mode, twelve));
  }

  predicate Accepted(t: Time) {
    1 <= t.month <= 12 && 1 <= t.day <= 31 && t.hour <= 23 && t.minute <= 59 && t.second <= 59
  }

  /** The full year from the century and year registers; centuries other than 19 to 21 are not believed. */
  function FullYear(century: Reg, year: Reg): nat {
    if 19 <= century <= 21 then century * 100 + year
    else if year > 80 then 1900 + year
    else 2000 + year
  }

  /** A century that is not believed leaves the year between 1981 and 2080 with the same last two digits. */
  lemma YearWithoutCentury(century: Reg, year: Reg)
    requires !(19 <= century <= 21) && year < 100
    ensures 1981 <= FullYear(century, year) <= 2080 && FullYear(century, year) % 100 == year
  {
  }

  class Clock {
    var regs: Regs
    const mode: Mode

    constructor (mode: Mode, regs: Regs)
      ensures this.mode == mode && this.regs == regs
    {
      this.mode, this.regs := mode, regs;
    }

    /** The hour handling of `rtc_set_time`: 12 hour conversion, then BCD around the afternoon bit. */
    method HourRegister(hour0: Reg) returns (hour: Reg)
      requires hour0 < 24
      ensures hour == ToHour(mode, hour0)
    {
      hide ToBcd;
      hour := hour0;
      if !mode.hours24 {
        if hour == 0 {
          hour := 12;
        } else if hour > 12 {
          hour := hour - 12;
        }
        HighBit(hour);
        if hour0 >= 12 {
          hour := hour + 0x80;
        }
      } else {
        HighBit(hour);
      }
      if !mode.binary {
        BcdRoundTrip(hour % 0x80);
        HighBit(ToBcd(hour % 0x80));
        hour := (if hour >= 0x80 then 0x80 else 0) + ToBcd(hour % 0x80);
      }
    }

    /** `rtc_set_time` on fields of their C widths. */
    method SetTime(t: Time) returns (r: int)
      requires t.year < 65536 && t.weekday < 256
      modifies this
      ensures r == if 1 <= t.month <= 12 && 1 <= t.day <= 31 && t.hour <= 23 && t.minute <= 59 && t.second <= 59
                   then 0 else -1
      ensures r != 0 ==> regs == old(regs)
      ensures r == 0 ==> regs == RegsOf(mode, t)
      ensures r == 0 ==> regs.second == ToData(mode, t.second) && regs.minute == ToData(mode, t.minute)
      ensures r == 0 ==> regs.hour == ToHour(mode, t.hour) && regs.day == ToData(mode, t.day)
      ensures r == 0 ==> regs.month == ToData(mode, t.month) && regs.year == ToData(mode, t.year % 100)
      ensures r == 0 ==> regs.century == ToData(mode, t.year / 100 % 256)
      ensures r == 0 && 1 <= t.weekday <= 7 ==> regs.weekday == ToData(mode, t.weekday)
    {
      if !Accepted(t) {
        return -1;
      }
      hide ToBcd, Weekday, ToHour;
      var second: Reg, minute: Reg, hour: Reg, day: Reg, month: Reg := t.second, t.minute, t.hour, t.day, t.month;
      var year: Reg, century: Reg, weekday: Reg := t.year % 100, t.year / 100 % 256, t.weekday;
      if weekday < 1 || weekday > 7 {
        WeekdayRange(t.year, t.month, t.day);
        weekday := Weekday(t.year, t.month, t.day);
      }
      hour := HourRegister(hour);
      if !mode.binary {
        second, minute := ToBcd(second), ToBcd(minute);
        day, month, year := ToBcd(day), ToBcd(month), ToBcd(year);
        century, weekday := ToBcd(century), ToBcd(weekday);
      }
      regs := Regs(second, minute, hour, day, month, year, weekday, century);
      r := 0;
    }

    /** The decoding half of `rtc_get_time`, on a clock that stands still. */
    method GetTime() returns (t: Time)
      ensures t == TimeOf(mode, regs)
      ensures t.second == FromData(mode, regs.second) && t.minute == FromData(mode, regs.minute)
      ensures t.hour == FromHour(mode, regs.hour) && t.day == FromData(mode, regs.day)
      ensures t.month == FromData(mode, regs.month)
      ensures t.year == FullYear(FromData(mode, regs.century), FromData(mode, regs.year))
      ensures 1 <= FromData(mode, regs.weekday) <= 7 ==> t.weekday == FromData(mode, regs.weekday)
    {
      t := TimeOf(mode, regs);
    }

    /** On a stopped clock an accepted time is read back as it was set exactly when its year is 1900 to 2199. */
    method SetThenGet(t: Time) returns (t': Time)
      requires t.year < 65536 && t.weekday < 256 && Accepted(t)
      modifies this
      ensures t' == t.(weekday := SetWeekday(t)) <==> 1900 <= t.year <= 2199
    {
      var r := SetTime(t);
      t' := GetTime();
      RegsRoundTrip(mode, t);
    }
  }

  /** A weekday out of range is replaced by the computed one. */
  function SetWeekday(t: Time): (w: Reg)
    requires t.weekday < 256
    ensures 1 <= w <= 7
  {
    WeekdayRange(t.year, t.month, t.day);
    if 1 <= t.weekday <= 7 then t.weekday else Weekday(t.year, t.month, t.day)
  }

  /** The register contents `rtc_set_time` writes. */
  function RegsOf(mode: Mode, t: Time): Regs
    requires Accepted(t) && t.year < 65536 && t.weekday < 256
  {
    Regs(
      ToData(mode, t.second), ToData(mode, t.minute), ToHour(mode, t.hour), ToData(mode, t.day), ToData(mode, t.month),
      ToData(mode, t.year % 100), ToData(mode, SetWeekday(t)), ToData(mode, t.year / 100 % 256))
  }

  /** The time `rtc_get_time` makes of the registers. */
  function TimeOf(mode: Mode, r: Regs): Time {
    var second, minute, day, month :=
        FromData(mode, r.second), FromData(mode, r.minute), FromData(mode, r.day), FromData(mode, r.month);
    var year := FullYear(FromData(mode, r.century), FromData(mode, r.year));
    var weekday := FromData(mode, r.weekday);
    WeekdayRange(year, month, day);
    Time(second, minute, FromHour(mode, r.hour), day, month, year,
      if 1 <= weekday <= 7 then weekday else Weekday(year, month, day))
  }

  lemma DataRoundTrip(mode: Mode, x: Reg)
    requires x < 100
    ensures FromData(mode, ToData(mode, x)) == x
  {
    BcdRoundTrip(x);
  }

  /** The year comes back exactly when it is in the three believed centuries; otherwise it lands inside them. */
  lemma YearRoundTrip(mode: Mode, year: nat)
    requires year < 65536
    ensures FullYear(FromData(mode, ToData(mode, year / 100 % 256)), FromData(mode, ToData(mode, year % 100))) == year
            <==> 1900 <= year <= 2199
  {
    hide FromData, ToData;
    DataRoundTrip(mode, year % 100);
    if 1900 <= year <= 2199 {
      DataRoundTrip(mode, year / 100);
    }
  }

  /** Decoding the registers written for a time gives that time, up to the century. */
  lemma RegsRoundTrip(mode: Mode, t: Time)
    requires Accepted(t) && t.year < 65536 && t.weekday < 256
    ensures TimeOf(mode, RegsOf(mode, t)) == t.(weekday := SetWeekday(t)) <==> 1900 <= t.year <= 2199
  {
    hide ToData, FromData, ToHour, FromHour, FullYear, Weekday;
    DataRoundTrip(mode, t.second);
    DataRoundTrip(mode, t.minute);
    DataRoundTrip(mode, t.day);
    DataRoundTrip(mode, t.month);
    DataRoundTrip(mode, SetWeekday(t));
    HourRoundTrip(mode, t.hour);
    YearRoundTrip(mode, t.year);
  }

  // ---------- the double read ----------

  /** The seconds register shows the tick count modulo 60. */
  ghost predicate CountsSeconds(clock: nat -> Regs)
  {
    forall n: nat, m: nat :: clock(n).second == clock(m).second ==> n % 60 == m % 60
  }

  ghost predicate Nondecreasing(times: seq<nat>)
  {
    forall i, j :: 0 <= i <= j < |times| ==> times[i] <= times[j]
  }

  /** The six registers of the second pass of attempt `k` are those of the first. */
  predicate Agree(clock: nat -> Regs, times: seq<nat>, k: nat)
    requires 14 * k + 14 <= |times|
  {
    var b := 14 * k;
    && clock(times[b]).second == clock(times[b + 8]).second && clock(times[b + 1]).minute == clock(times[b + 9]).minute
    && clock(times[b + 2]).hour == clock(times[b + 10]).hour && clock(times[b + 3]).day == clock(times[b + 11]).day
    && clock(times[b + 4]).month == clock(times[b + 12]).month && clock(times[b + 5]).year == clock(times[b + 13]).year
  }

  /** The eight registers of the first pass of attempt `k`, each as the clock showed it when it was read. */
  function FirstPass(clock: nat -> Regs, times: seq<nat>, k: nat): Regs
    requires 14 * k + 14 <= |times|
  {
    var b := 14 * k;
    Regs(clock(times[b]).second, clock(times[b + 1]).minute, clock(times[b + 2]).hour, clock(times[b + 3]).day,
      clock(times[b + 4]).month, clock(times[b + 5]).year, clock(times[b + 6]).weekday, clock(times[b + 7]).century)
  }

  /** Two agreeing passes less than a minute apart saw the clock standing still. */
  lemma AgreeStable(clock: nat -> Regs, times: seq<nat>, k: nat)
    requires CountsSeconds(clock) && Nondecreasing(times) && 14 * k + 14 <= |times| && Agree(clock, times, k)
    requires times[14 * k + 8] < times[14 * k] + 60
    ensures forall i :: 14 * k <= i <= 14 * k + 8 ==> times[i] == times[14 * k]
    ensures FirstPass(clock, times, k) == clock(times[14 * k])
  {
    var b := 14 * k;
    assert times[b] <= times[b + 8] && times[b] % 60 == times[b + 8] % 60;
    SameTick(times[b], times[b + 8]);
    assert forall i :: b <= i <= b + 8 ==> times[b] <= times[i] <= times[b + 8];
  }

  lemma SameTick(a: nat, b: nat)
    requires a <= b < a + 60 && a % 60 == b % 60
    ensures a == b
  {
  }

  /**
   The loop of `rtc_get_time` over a ticking clock. `times[i]` is the tick at which the i-th register read
   of the whole run happens: eight reads and then six more per attempt. The loop stops at the first
   attempt whose two passes agree; `None` means it is still trying when the reads run out.
   */
  method ReadStable(clock: nat -> Regs, times: seq<nat>) returns (r: Option<Regs>, k: nat)
    requires CountsSeconds(clock) && Nondecreasing(times)
    ensures r.Some? ==> 14 * k + 14 <= |times| && Agree(clock, times, k) && r.value == FirstPass(clock, times, k)
    ensures r.None? ==> 14 * k + 14 > |times|
    ensures forall j: nat :: j < k && 14 * j + 14 <= |times| ==> !Agree(clock, times, j)
    ensures r.Some? && times[14 * k + 8] < times[14 * k] + 60 ==>
              forall i :: 14 * k <= i <= 14 * k + 8 ==> clock(times[i]) == r.value
  {
    hide CountsSeconds, Nondecreasing, Agree, FirstPass;
    k := 0;
    while 14 * k + 14 <= |times|
      invariant forall j: nat :: j < k && 14 * j + 14 <= |times| ==> !Agree(clock, times, j)
      decreases |times| - 14 * k
    {
      var regs, same := Attempt(clock, times, k);
      if same {
        if times[14 * k + 8] < times[14 * k] + 60 {
          AgreeStable(clock, times, k);
        }
        return Some(regs), k;
      }
      k := k + 1;
    }
    r := None;
  }

  /** One turn of the loop: the registers read, and whether the second pass read the same. */
  method Attempt(clock: nat -> Regs, times: seq<nat>, k: nat) returns (regs: Regs, same: bool)
    requires 14 * k + 14 <= |times|
    ensures regs == FirstPass(clock, times, k) && same == Agree(clock, times, k)
  {
    var b := 14 * k;
    var second, minute := clock(times[b]).second, clock(times[b + 1]).minute;
    var hour, day := clock(times[b + 2]).hour, clock(times[b + 3]).day;
    var month, year := clock(times[b + 4]).month, clock(times[b + 5]).year;
    var weekday, century := clock(times[b + 6]).weekday, clock(times[b + 7]).century;
    regs := Regs(second, minute, hour, day, month, year, weekday, century);
    same := && second == clock(times[b + 8]).second && minute == clock(times[b + 9]).minute
            && hour == clock(times[b + 10]).hour && day == clock(times[b + 11]).day
            && month == clock(times[b + 12]).month && year == clock(times[b + 13]).year;
  }
}
