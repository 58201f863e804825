/**
 Calendar conversions of lib/tst_rtctime.c: seconds since 1970-01-01 to a date and back.

 The C code computes in 32-bit unsigned and signed integers; the model keeps every truncation, and the proofs
 show that none of them loses anything for a time whose day count fits an int. Only the sum for the day of the
 week overflows, for the last four of these day counts: there it can be anything.
 */
module RtcTime {
  const INT_MAX: int := 0x7fff_ffff
  const U32: int := 0x1_0000_0000
  const DAY: int := 86400

  /** Conversion to unsigned int. */
  function Unsigned(x: int): (r: int)
    ensures 0 <= r < U32
    ensures 0 <= x < U32 ==> r == x
  {
    x % U32
  }

  /** Conversion to int. */
  function Signed(x: int): (r: int)
    ensures -INT_MAX - 1 <= r <= INT_MAX
    ensures -INT_MAX - 1 <= x <= INT_MAX ==> r == x
  {
    var u := x % U32;
    if u > INT_MAX then u - U32 else u
  }

  // ----- The Gregorian calendar -----

  predicate IsLeapYear(year: int) {
    (year % 4 == 0 && year % 100 != 0) || year % 400 == 0
  }

  function YearLength(year: int): int {
    if IsLeapYear(year) then 366 else 365
  }

  const DAYS_IN_MONTH: seq<int> := [31, 28, 31, 30, 31, 30, 31, 31, 30, 31, 30, 31]

  /** rtc_month_days: months count from 0. */
  function MonthDays(month: int, year: int): (r: int)
    requires 0 <= month < 12
    ensures 28 <= r <= 31
  {
    DAYS_IN_MONTH[month] + if IsLeapYear(year) && month == 1 then 1 else 0
  }

  /** Days from 1970-01-01 to the first of January of the year, a year at a time. */
  function YearStart(year: int): int
    requires year >= 1970
  {
    if year == 1970 then 0 else YearStart(year - 1) + YearLength(year - 1)
  }

  /** Days from the first of January to the first of the month, a month at a time. */
  function MonthStart(month: int, year: int): int
    requires 0 <= month <= 12
  {
    if month == 0 then 0 else MonthStart(month - 1, year) + MonthDays(month - 1, year)
  }

  datatype Date = Date(year: int, mon: int, mday: int, hour: int, min: int, sec: int)

  predicate ValidDate(d: Date) {
    && d.year >= 1970 && 0 <= d.mon < 12 && 1 <= d.mday <= MonthDays(d.mon, d.year)
    && 0 <= d.hour < 24 && 0 <= d.min < 60 && 0 <= d.sec < 60
  }

  function DayNumber(d: Date): int
    requires ValidDate(d)
  {
    YearStart(d.year) + MonthStart(d.mon, d.year) + d.mday - 1
  }

  /** The meaning of a date: seconds since the epoch, counted along the calendar. */
  function Seconds(d: Date): int
    requires ValidDate(d)
  {
    ((DayNumber(d) * 24 + d.hour) * 60 + d.min) * 60 + d.sec
  }

  // ----- Closed forms -----

  /** LEAPS_THRU_END_OF */
  function Leaps(y: int): int {
    y / 4 - y / 100 + y / 400
  }

  lemma ModChain(y: int)
    ensures y % 400 == 0 ==> y % 100 == 0
    ensures y % 100 == 0 ==> y % 4 == 0
  {
    MultipleOfMultiple(y / 400, y / 100);
    assert y == 400 * (y / 400) + y % 400 && y == 100 * (y / 100) + y % 100;
  }

  lemma MultipleOfMultiple(q: int, r: int)
    ensures (400 * q) % 100 == 0 && (100 * r) % 4 == 0
  {
  }

  lemma DivStep(y: int, k: int)
    requires k == 4 || k == 100 || k == 400
    ensures y / k - (y - 1) / k == if y % k == 0 then 1 else 0
  {
  }

  lemma LeapsStep(y: int)
    ensures Leaps(y) - Leaps(y - 1) == if IsLeapYear(y) then 1 else 0
  {
    DivStep(y, 4);
    DivStep(y, 100);
    DivStep(y, 400);
    ModChain(y);
  }

  lemma {:induction false} YearStartClosed(year: int)
    requires year >= 1970
    ensures YearStart(year) == 365 * (year - 1970) + Leaps(year - 1) - Leaps(1969)
  {
    if year > 1970 {
      YearStartClosed(year - 1);
      LeapsStep(year - 1);
    }
  }

  lemma {:induction false} YearStartBounds(year: int)
    requires year >= 1970
    ensures 365 * (year - 1970) <= YearStart(year) <= 366 * (year - 1970)
  {
    if year > 1970 {
      YearStartBounds(year - 1);
    }
  }

  /** tst_mktime counts months from March: before its m-th month lie 367 * m / 12 - 30 days. */
  lemma MonthFormula(mon: int, year: int)
    requires 0 <= mon < 12
    ensures mon < 2 ==> 367 * (mon + 11) / 12 - 30 == MonthStart(mon, year) + 306
    ensures mon >= 2 ==> 367 * (mon - 1) / 12 - 30 == MonthStart(mon, year) - MonthStart(2, year)
    ensures MonthStart(2, year) == if IsLeapYear(year) then 60 else 59
  {
  }

  // ----- Date to seconds -----

  /** The day count of tst_mktime; months count from 1. */
  function DayCount(year0: int, mon0: int, day: int): int {
    var mon1 := Unsigned(mon0 - 2);
    var back := Signed(mon1) <= 0;
    var mon, year := if back then Unsigned(mon1 + 12) else mon1, if back then Unsigned(year0 - 1) else year0;
    Unsigned(year / 4 - year / 100 + year / 400 + Unsigned(367 * mon) / 12 + day) + Unsigned(year * 365) - 719499
  }

  /** tst_mktime */
  function MkTime(year0: int, mon0: int, day: int, hour: int, min: int, sec: int): int {
    ((DayCount(year0, mon0, day) * 24 + hour) * 60 + min) * 60 + sec
  }

  /** tst_rtc_tm_to_time; the year of a struct rtc_time counts from 1900. */
  function TmToTime(d: Date): int {
    MkTime(Unsigned(Unsigned(d.year - 1900) + 1900), d.mon + 1, d.mday, d.hour, d.min, d.sec)
  }

  /** The day count of tst_mktime, without the 32-bit conversions. */
  function MkDays(year: int, mon: int, mday: int): int {
    var y, m := if mon < 2 then year - 1 else year, if mon < 2 then mon + 11 else mon - 1;
    Leaps(y) + 367 * m / 12 + mday + y * 365 - 719499
  }

  lemma MkDaysIsDayNumber(d: Date)
    requires ValidDate(d)
    ensures MkDays(d.year, d.mon, d.mday) == DayNumber(d)
  {
    hide Leaps, YearStart, MonthStart, IsLeapYear;
    YearStartClosed(d.year);
    MonthFormula(d.mon, d.year);
    LeapsStep(d.year);
    assert Leaps(1969) == 477 by { LeapsIs(1969); }
  }

  lemma YearIsBounded(d: Date)
    requires ValidDate(d) && DayNumber(d) <= INT_MAX
    ensures d.year <= 1970 + INT_MAX / 365
  {
    YearStartBounds(d.year);
    MonthStartIsNat(d.mon, d.year);
  }

  lemma LeapsBounds(y: int)
    requires y >= 0
    ensures 0 <= Leaps(y) <= y / 4
  {
  }

  /** The year and month that tst_mktime counts with, from March on. */
  lemma YearAndMonth(d: Date)
    requires ValidDate(d) && d.year <= 1970 + INT_MAX / 365
    ensures Unsigned(Unsigned(d.year - 1900) + 1900) == d.year
    ensures d.mon < 2 ==> Unsigned(d.year - 1) == d.year - 1
  {
  }

  /** The day sum of tst_mktime loses nothing. */
  lemma DaySum(y: int, m: int, day: int)
    requires 1969 <= y <= 1970 + INT_MAX / 365 && 1 <= m <= 12 && 1 <= day <= 31
    ensures
      Unsigned(y / 4 - y / 100 + y / 400 + Unsigned(367 * m) / 12 + day) + Unsigned(y * 365) ==
      Leaps(y) + 367 * m / 12 + day + y * 365
  {
    hide Leaps;
    LeapsBounds(y);
    LeapsIs(y);
    assert Unsigned(367 * m) == 367 * m;
  }

  /** For a date within range none of the 32-bit conversions changes a value. */
  lemma NoConversionLoses(d: Date)
    requires ValidDate(d) && d.year <= 1970 + INT_MAX / 365
    ensures TmToTime(d) == ((MkDays(d.year, d.mon, d.mday) * 24 + d.hour) * 60 + d.min) * 60 + d.sec
  {
    hide DayCount, MkDays, Unsigned, ValidDate;
    YearAndMonth(d);
    DayCountIs(d);
  }

  lemma DayCountIs(d: Date)
    requires ValidDate(d) && d.year <= 1970 + INT_MAX / 365
    ensures DayCount(d.year, d.mon + 1, d.mday) == MkDays(d.year, d.mon, d.mday)
  {
    hide DayCount, MkDays, Unsigned, ValidDate;
    DayIsSmall(d);
    YearAndMonth(d);
    if d.mon < 2 {
      DayCountEarly(d.year, d.mon, d.mday);
    } else {
      DayCountLate(d.year, d.mon, d.mday);
    }
  }

  lemma DayCountEarly(year: int, mon: int, mday: int)
    requires 1970 <= year <= 1970 + INT_MAX / 365 && 0 <= mon < 2 && 1 <= mday <= 31
    requires Unsigned(year - 1) == year - 1
    ensures DayCount(year, mon + 1, mday) == MkDays(year, mon, mday)
  {
    hide Leaps, Unsigned, Signed;
    MonthConversion(mon + 1);
    DaySum(year - 1, mon + 11, mday);
  }

  lemma DayCountLate(year: int, mon: int, mday: int)
    requires 1970 <= year <= 1970 + INT_MAX / 365 && 2 <= mon < 12 && 1 <= mday <= 31
    ensures DayCount(year, mon + 1, mday) == MkDays(year, mon, mday)
  {
    hide Leaps, Unsigned, Signed;
    LateMonth(mon);
    DaySum(year, mon - 1, mday);
  }

  lemma LateMonth(mon: int)
    requires 2 <= mon < 12
    ensures Unsigned(mon - 1) == mon - 1 && Signed(mon - 1) == mon - 1 > 0
  {
  }

  lemma DayIsSmall(d: Date)
    requires ValidDate(d)
    ensures 1 <= d.mday <= 31 && 0 <= d.mon < 12 && d.year >= 1970
  {
  }

  lemma LeapsIs(y: int)
    ensures Leaps(y) == y / 4 - y / 100 + y / 400
  {
  }

  lemma MonthConversion(mon0: int)
    requires 1 <= mon0 <= 12
    ensures Signed(Unsigned(mon0 - 2)) == mon0 - 2
    ensures mon0 <= 2 ==> Unsigned(Unsigned(mon0 - 2) + 12) == mon0 + 10
  {
  }

  lemma {:induction false} MonthStartIsNat(month: int, year: int)
    requires 0 <= month <= 12
    ensures 0 <= MonthStart(month, year) <= 31 * month
  {
    if month > 0 {
      MonthStartIsNat(month - 1, year);
    }
  }

  /** The closed formula counts exactly along the calendar. */
  lemma TmToTimeIsSeconds(d: Date)
    requires ValidDate(d) && DayNumber(d) <= INT_MAX
    ensures TmToTime(d) == Seconds(d)
  {
    YearIsBounded(d);
    NoConversionLoses(d);
    MkDaysIsDayNumber(d);
  }

  // ----- No two dates have the same number of seconds -----

  lemma {:induction false} YearsAreOrdered(y: int, y': int)
    requires 1970 <= y < y'
    ensures YearStart(y) + YearLength(y) <= YearStart(y')
    decreases y' - y
  {
    if y + 1 < y' {
      YearsAreOrdered(y, y' - 1);
    }
  }

  lemma {:induction false} MonthsAreOrdered(m: int, m': int, year: int)
    requires 0 <= m < m' <= 12
    ensures MonthStart(m, year) + MonthDays(m, year) <= MonthStart(m', year)
    decreases m' - m
  {
    if m + 1 < m' {
      MonthsAreOrdered(m, m' - 1, year);
    }
  }

  lemma YearIsTwelveMonths(year: int)
    ensures MonthStart(12, year) == YearLength(year)
  {
    MonthFormula(11, year);
    assert MonthStart(12, year) == MonthStart(11, year) + MonthDays(11, year);
  }

  lemma DayInYear(d: Date)
    requires ValidDate(d)
    ensures 0 <= MonthStart(d.mon, d.year) + d.mday - 1 < YearLength(d.year)
  {
    MonthStartIsNat(d.mon, d.year);
    YearIsTwelveMonths(d.year);
    MonthsAreOrdered(d.mon, 12, d.year);
  }

  lemma DayNumberIsInjective(d: Date, e: Date)
    requires ValidDate(d) && ValidDate(e) && DayNumber(d) == DayNumber(e)
    ensures d.year == e.year && d.mon == e.mon && d.mday == e.mday
  {
    DayInYear(d);
    DayInYear(e);
    if d.year < e.year {
      YearsAreOrdered(d.year, e.year);
    } else if e.year < d.year {
      YearsAreOrdered(e.year, d.year);
    } else if d.mon < e.mon {
      MonthsAreOrdered(d.mon, e.mon, d.year);
    } else if e.mon < d.mon {
      MonthsAreOrdered(e.mon, d.mon, d.year);
    }
  }

  lemma SecondsSplit(d: Date)
    requires ValidDate(d)
    ensures
      var t := Seconds(d);
      && t / DAY == DayNumber(d) && t % DAY / 3600 == d.hour && t % 3600 / 60 == d.min && t % 60 == d.sec
  {
    var n, t := DayNumber(d), Seconds(d);
    SplitTime(n, d.hour, d.min, d.sec, t);
  }

  lemma SplitTime(n: int, hour: int, min: int, sec: int, t: int)
    requires 0 <= hour < 24 && 0 <= min < 60 && 0 <= sec < 60
    requires t == ((n * 24 + hour) * 60 + min) * 60 + sec
    ensures t / DAY == n && t % DAY / 3600 == hour && t % 3600 / 60 == min && t % 60 == sec
  {
    DivideByDay(t, n, 3600 * hour + 60 * min + sec);
    DivideByHour(3600 * hour + 60 * min + sec, hour, 60 * min + sec);
    DivideByHour(t, 24 * n + hour, 60 * min + sec);
    DivideByMinute(60 * min + sec, min, sec);
    DivideByMinute(t, 1440 * n + 60 * hour + min, sec);
  }

  lemma DivideByDay(t: int, q: int, r: int)
    requires t == DAY * q + r && 0 <= r < DAY
    ensures t / DAY == q && t % DAY == r
  {
  }

  lemma DivideByHour(t: int, q: int, r: int)
    requires t == 3600 * q + r && 0 <= r < 3600
    ensures t / 3600 == q && t % 3600 == r
  {
  }

  lemma DivideByMinute(t: int, q: int, r: int)
    requires t == 60 * q + r && 0 <= r < 60
    ensures t / 60 == q && t % 60 == r
  {
  }

  lemma SecondsIsInjective(d: Date, e: Date)
    requires ValidDate(d) && ValidDate(e) && Seconds(d) == Seconds(e)
    ensures d == e
  {
    SecondsSplit(d);
    SecondsSplit(e);
    DayNumberIsInjective(d, e);
  }

  // ----- Seconds to date -----

  /** struct rtc_time */
  class Tm {
    var sec: int
    var min: int
    var hour: int
    var mday: int
    var mon: int
    var year: int   // since 1900
    var wday: int
    var yday: int
    var isdst: int

    function ToDate(): Date
      reads this
    {
      Date(year + 1900, mon, mday, hour, min, sec)
    }
  }

  /** The day count of a year guessed too late at most. */
  method SplitYear(days0: int) returns (year: int, days: int)
    requires 0 <= days0 <= INT_MAX
    ensures year >= 1970 && 0 <= days < YearLength(year) && days0 == YearStart(year) + days
    ensures year <= 1970 + days0 / 365
  {
    year := Unsigned(1970 + days0 / 365);
    YearStartClosed(year);
    YearStartBounds(year);
    days := Signed(days0 - Unsigned((year - 1970) * 365 + Leaps(year - 1) - Leaps(1969)));
    while days < 0
      invariant year >= 1970 && days < YearLength(year) && days0 == YearStart(year) + days
      invariant year <= 1970 + days0 / 365
      decreases year
    {
      year := Unsigned(year - 1);
      days := days + 365 + if IsLeapYear(year) then 1 else 0;
    }
  }

  method SplitMonth(year: int, yday: int) returns (month: int, days: int)
    requires 0 <= yday < YearLength(year)
    ensures 0 <= month < 12 && 0 <= days < MonthDays(month, year) && yday == MonthStart(month, year) + days
  {
    YearIsTwelveMonths(year);
    month, days := 0, yday;
    while month < 11
      invariant 0 <= month <= 11 && 0 <= days && yday == MonthStart(month, year) + days
    {
      var newdays := days - MonthDays(month, year);
      if newdays < 0 {
        break;
      }
      days := newdays;
      month := month + 1;
    }
  }

  /** The time of the day. */
  method SplitSeconds(secs: int) returns (hour: int, min: int, sec: int)
    requires 0 <= secs < DAY
    ensures 0 <= hour < 24 && 0 <= min < 60 && 0 <= sec < 60 && secs == (hour * 60 + min) * 60 + sec
  {
    hour := secs / 3600;
    var rest := secs - hour * 3600;
    min := rest / 60;
    sec := rest - min * 60;
  }

  /**
   tst_rtc_time_to_tm: for every non-negative time whose day count fits an int, the fields are a valid date of
   the calendar, and the date of exactly that second.
   */
  method TimeToTm(time: int, tm: Tm)
    requires 0 <= time && time / DAY <= INT_MAX
    modifies tm
    ensures ValidDate(tm.ToDate()) && Seconds(tm.ToDate()) == time
    ensures time / DAY + 4 <= INT_MAX ==> tm.wday == (time / DAY + 4) % 7
    ensures tm.isdst == 0
    ensures tm.yday == time / DAY - YearStart(tm.year + 1900) + 1
  {
    hide MonthDays, YearStart, MonthStart, ValidDate, Seconds, Signed, Unsigned, YearLength;
    var days := Signed(time / DAY);
    var secs := Unsigned(time % DAY);
    DaysAndSeconds(time);
    if days + 4 <= INT_MAX {
      tm.wday := (days + 4) % 7;
    } else {
      tm.wday := *;
    }
    var year, rest := SplitYear(days);
    tm.year := year - 1900;
    tm.yday := rest + 1;
    tm.mon, rest := SplitMonth(year, rest);
    tm.mday := rest + 1;
    tm.hour, tm.min, tm.sec := SplitSeconds(secs);
    tm.isdst := 0;
    DateOfParts(tm.ToDate(), time, days, secs);
  }

  lemma DaysAndSeconds(time: int)
    requires 0 <= time && time / DAY <= INT_MAX
    ensures Signed(time / DAY) == time / DAY && Unsigned(time % DAY) == time % DAY
    ensures time == DAY * (time / DAY) + time % DAY && 0 <= time % DAY < DAY
  {
  }

  lemma DateOfParts(d: Date, time: int, days: int, secs: int)
    requires d.year >= 1970 && 0 <= d.mon < 12 && 1 <= d.mday <= MonthDays(d.mon, d.year)
    requires 0 <= d.hour < 24 && 0 <= d.min < 60 && 0 <= d.sec < 60 && secs == (d.hour * 60 + d.min) * 60 + d.sec
    requires days == YearStart(d.year) + MonthStart(d.mon, d.year) + d.mday - 1 && time == DAY * days + secs
    ensures ValidDate(d) && Seconds(d) == time
  {
    hide YearStart, MonthStart, MonthDays;
  }

  /** tm_to_time after time_to_tm */
  method TimeRoundTrip(time: int, tm: Tm) returns (back: int)
    requires 0 <= time && time / DAY <= INT_MAX
    modifies tm
    ensures back == time
  {
    TimeToTm(time, tm);
    SecondsSplit(tm.ToDate());
    TmToTimeIsSeconds(tm.ToDate());
    back := TmToTime(tm.ToDate());
  }

  /** time_to_tm after tm_to_time */
  method DateRoundTrip(d: Date, tm: Tm)
    requires ValidDate(d) && DayNumber(d) <= INT_MAX
    modifies tm
    ensures tm.ToDate() == d
  {
    TmToTimeIsSeconds(d);
    SecondsSplit(d);
    DayInYear(d);
    YearStartBounds(d.year);
    TimeToTm(TmToTime(d), tm);
    SecondsIsInjective(tm.ToDate(), d);
  }
}
