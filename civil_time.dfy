/**
 * `secs_to_tm`: seconds since 1970-01-01 00:00:00 UTC broken down into a
 * proleptic Gregorian date and time of day, by counting 400-, 100-, 4- and
 * 1-year cycles from 2000-03-01 (the day after a 400-year leap day). The
 * result is proved against an independent day count from a civil date.
 */
module CivilTime {
  import opened CArith

  /** 2000-03-01 00:00:00 UTC in seconds since the epoch. */
  const Leapoch: int := 951868800  // 946684800 + 86400 * (31 + 29)
  /** Days in 400, 100 and 4 years: 365 * 400 + 97, 365 * 100 + 24 and 365 * 4 + 1. */
  const DaysPer400Y: int := 146097
  const DaysPer100Y: int := 36524
  const DaysPer4Y: int := 1461

  /** Month lengths from March to the following February (always 29 here). */
  const MarchMonthDays: seq<int> := [31, 30, 31, 30, 31, 31, 30, 31, 30, 31, 31, 29]

  /** The fields of `struct tm` that `secs_to_tm` fills. */
  datatype Tm = Tm(sec: int, min: int, hour: int, mday: int, mon: int, year: int, wday: int, yday: int)

  // ---------------------------------------------------------------------
  // The reference calendar

  predicate IsLeapYear(y: int) {
    y % 4 == 0 && (y % 100 != 0 || y % 400 == 0)
  }

  function DaysInMonth(y: int, m: int): (n: int)
    requires 1 <= m <= 12
    ensures 28 <= n <= 31
  {
    if m == 2 then (if IsLeapYear(y) then 29 else 28)
    else if m == 4 || m == 6 || m == 9 || m == 11 then 30
    else 31
  }

  /** Days of a common year before the first of each month. */
  const CumDays: seq<int> := [0, 31, 59, 90, 120, 151, 181, 212, 243, 273, 304, 334]

  function DaysBeforeMonth(y: int, m: int): int
    requires 1 <= m <= 12
  {
    CumDays[m - 1] + (if m > 2 && IsLeapYear(y) then 1 else 0)
  }

  /** Leap years among 1..y (counted downwards for y < 0, so that differences stay right). */
  function Leaps(y: int): int {
    y / 4 - y / 100 + y / 400
  }

  /** Days from 1970-01-01 to January 1st of year y. */
  function DaysBeforeYear(y: int): int {
    365 * (y - 1970) + Leaps(y - 1) - Leaps(1969)
  }

  predicate ValidDate(y: int, m: int, d: int) {
    1 <= m <= 12 && 1 <= d <= DaysInMonth(y, m)
  }

  /** Days from 1970-01-01 to the given date. */
  function DaysFromCivil(y: int, m: int, d: int): int
    requires 1 <= m <= 12
  {
    DaysBeforeYear(y) + DaysBeforeMonth(y, m) + d - 1
  }

  /**
   * `tm` is the broken-down UTC time of `t`: a valid date and time of day
   * that count `t` seconds from the epoch, with the weekday (0 is Sunday;
   * the epoch was a Thursday) and the day of the year that go with them.
   */
  predicate Represents(tm: Tm, t: int) {
    0 <= tm.mon <= 11 && ValidDate(tm.year + 1900, tm.mon + 1, tm.mday) &&
    0 <= tm.hour < 24 && 0 <= tm.min < 60 && 0 <= tm.sec < 60 &&
    DaysFromCivil(tm.year + 1900, tm.mon + 1, tm.mday) * 86400 + tm.hour * 3600 + tm.min * 60 + tm.sec == t &&
    tm.wday == (t / 86400 + 4) % 7 &&
    tm.yday == DaysBeforeMonth(tm.year + 1900, tm.mon + 1) + tm.mday - 1
  }

  /** The times `secs_to_tm` accepts: those whose year could fit an `int`. */
  predicate InSupportedRange(t: int) {
    IntMin * 31622400 <= t <= IntMax * 31622400
  }

  // ---------------------------------------------------------------------
  // Facts about the reference calendar

  /** Dividing the predecessor: one less exactly at a multiple. */
  lemma DivPrev(y: int, k: int)
    requires k == 4 || k == 100 || k == 400
    ensures (y - 1) / k == if y % k == 0 then y / k - 1 else y / k
  {
  }

  /** A multiple of 400 is a multiple of 100, which is a multiple of 4. */
  lemma DivisibilityChain(y: int)
    ensures y % 400 == 0 ==> y % 100 == 0
    ensures y % 100 == 0 ==> y % 4 == 0
  {
    if y % 400 == 0 {
      Mod100(y, 4 * (y / 400), 0);
    }
    if y % 100 == 0 {
      Mod4(y, 25 * (y / 100), 0);
    }
  }

  /** The remainders by 4, 100 and 400 of a number written as a multiple plus a remainder in range. */
  lemma Mod4(y: int, k: int, r: int)
    requires y == 4 * k + r && 0 <= r < 4
    ensures y % 4 == r
  {
  }

  lemma Mod100(y: int, k: int, r: int)
    requires y == 100 * k + r && 0 <= r < 100
    ensures y % 100 == r
  {
  }

  lemma Mod400(y: int, k: int, r: int)
    requires y == 400 * k + r && 0 <= r < 400
    ensures y % 400 == r
  {
  }

  /** `Leaps` grows by one exactly at a leap year. */
  lemma LeapsStep(y: int)
    ensures Leaps(y) - Leaps(y - 1) == if IsLeapYear(y) then 1 else 0
  {
    DivPrev(y, 4);
    DivPrev(y, 100);
    DivPrev(y, 400);
    DivisibilityChain(y);
    var a, b, c := (y - 1) / 4, (y - 1) / 100, (y - 1) / 400;
    assert Leaps(y - 1) == a - b + c;
  }

  /** A year has 365 days, 366 when it is a leap year. */
  lemma YearLength(y: int)
    ensures DaysBeforeYear(y + 1) - DaysBeforeYear(y) == if IsLeapYear(y) then 366 else 365
  {
    LeapsStep(y);
  }

  /** The months tile the year: each starts where the previous one ends. */
  lemma MonthsTile(y: int, m: int)
    requires 1 <= m <= 12
    ensures m < 12 ==> DaysBeforeMonth(y, m) + DaysInMonth(y, m) == DaysBeforeMonth(y, m + 1)
    ensures m == 12 ==> DaysBeforeMonth(y, m) + DaysInMonth(y, m) == if IsLeapYear(y) then 366 else 365
  {
  }

  /** A date lies within its year. */
  lemma DateInYear(y: int, m: int, d: int)
    requires ValidDate(y, m, d)
    ensures DaysBeforeYear(y) <= DaysFromCivil(y, m, d) < DaysBeforeYear(y + 1)
  {
    YearLength(y);
  }

  lemma {:induction false} YearsIncrease(a: int, b: int)
    requires a <= b
    ensures DaysBeforeYear(a) + 365 * (b - a) <= DaysBeforeYear(b)
    decreases b - a
  {
    if a < b {
      YearsIncrease(a, b - 1);
      YearLength(b - 1);
    }
  }

  /** Different valid dates fall on different days. */
  lemma DateUnique(y1: int, m1: int, d1: int, y2: int, m2: int, d2: int)
    requires ValidDate(y1, m1, d1) && ValidDate(y2, m2, d2)
    requires DaysFromCivil(y1, m1, d1) == DaysFromCivil(y2, m2, d2)
    ensures y1 == y2 && m1 == m2 && d1 == d2
  {
    DateInYear(y1, m1, d1);
    DateInYear(y2, m2, d2);
    if y1 < y2 {
      YearsIncrease(y1 + 1, y2);
    } else if y2 < y1 {
      YearsIncrease(y2 + 1, y1);
    }
    assert y1 == y2;
    if m1 < m2 {
      MonthsIncrease(y1, m1, m2);
    } else if m2 < m1 {
      MonthsIncrease(y1, m2, m1);
    }
  }

  lemma MonthsIncrease(y: int, m1: int, m2: int)
    requires 1 <= m1 < m2 <= 12
    ensures DaysBeforeMonth(y, m1) + DaysInMonth(y, m1) <= DaysBeforeMonth(y, m2)
  {
  }

  /** A second of the day has one reading as hours, minutes and seconds. */
  lemma ClockUnique(h1: int, m1: int, s1: int, h2: int, m2: int, s2: int)
    requires 0 <= h1 < 24 && 0 <= m1 < 60 && 0 <= s1 < 60
    requires 0 <= h2 < 24 && 0 <= m2 < 60 && 0 <= s2 < 60
    requires h1 * 3600 + m1 * 60 + s1 == h2 * 3600 + m2 * 60 + s2
    ensures h1 == h2 && m1 == m2 && s1 == s2
  {
    assert 0 <= m1 * 60 + s1 < 3600 && 0 <= m2 * 60 + s2 < 3600;
    assert h1 == h2;
  }

  /** A time has one date and one time of day. */
  lemma DateAndClockUnique(y1: int, m1: int, d1: int, h1: int, n1: int, s1: int,
                           y2: int, m2: int, d2: int, h2: int, n2: int, s2: int, t: int)
    requires ValidDate(y1, m1, d1) && 0 <= h1 < 24 && 0 <= n1 < 60 && 0 <= s1 < 60
    requires ValidDate(y2, m2, d2) && 0 <= h2 < 24 && 0 <= n2 < 60 && 0 <= s2 < 60
    requires DaysFromCivil(y1, m1, d1) * 86400 + h1 * 3600 + n1 * 60 + s1 == t
    requires DaysFromCivil(y2, m2, d2) * 86400 + h2 * 3600 + n2 * 60 + s2 == t
    ensures y1 == y2 && m1 == m2 && d1 == d2 && h1 == h2 && n1 == n2 && s1 == s2
  {
    var d := DaysFromCivil(y1, m1, d1);
    DayOf(t, d, h1 * 3600 + n1 * 60 + s1);
    DayOf(t, DaysFromCivil(y2, m2, d2), h2 * 3600 + n2 * 60 + s2);
    DateUnique(y1, m1, d1, y2, m2, d2);
    ClockUnique(h1, n1, s1, h2, n2, s2);
  }

  /** A time has one broken-down form. */
  lemma RepresentsUnique(u: Tm, v: Tm, t: int)
    requires Represents(u, t) && Represents(v, t)
    ensures u == v
  {
    DateAndClockUnique(u.year + 1900, u.mon + 1, u.mday, u.hour, u.min, u.sec,
                       v.year + 1900, v.mon + 1, v.mday, v.hour, v.min, v.sec, t);
  }

  // ---------------------------------------------------------------------
  // The cycles counted from 2000-03-01

  /** Days from 2000-03-01 to March 1st `n` years later. */
  function DaysToMarch(n: int): int {
    365 * n + n / 4 - n / 100 + n / 400
  }

  /** Days from March 1st to the first of the `k`-th month after it. */
  function CumMarch(k: int): int
    requires 0 <= k <= 12
  {
    if k == 0 then 0 else CumMarch(k - 1) + MarchMonthDays[k - 1]
  }

  lemma CumMarchValues()
    ensures CumMarch(10) == 306 && CumMarch(11) == 337 && CumMarch(12) == 366
  {
  }

  /** 2000 is a multiple of 400, so it shifts each quotient of `Leaps` by a whole number. */
  lemma LeapsFrom2000(n: int)
    ensures Leaps(2000 + n) == 485 + n / 4 - n / 100 + n / 400
  {
    assert (2000 + n) / 4 == 500 + n / 4;
    assert (2000 + n) / 100 == 20 + n / 100;
    assert (2000 + n) / 400 == 5 + n / 400;
  }

  /** March 1st of year 2000 + n is `DaysToMarch(n)` days after the leap epoch, itself day 11017. */
  lemma MarchYearStart(n: int)
    ensures DaysFromCivil(2000 + n, 3, 1) == 11017 + DaysToMarch(n)
  {
    LeapsStep(2000 + n);
    LeapsFrom2000(n);
    assert Leaps(1969) == 477;
    var leap := if IsLeapYear(2000 + n) then 1 else 0;
    assert DaysBeforeMonth(2000 + n, 3) == 59 + leap;
    assert DaysBeforeYear(2000 + n) == 365 * (30 + n) + Leaps(1999 + n) - 477;
  }

  /** The four cycle lengths add up to the days of the years they cover. */
  lemma CycleDays(qc: int, c: int, q: int, r: int)
    requires 0 <= c <= 3 && 0 <= q <= 24 && 0 <= r <= 3
    ensures DaysToMarch(400 * qc + 100 * c + 4 * q + r) == DaysPer400Y * qc + DaysPer100Y * c + DaysPer4Y * q + 365 * r
  {
    var n := 400 * qc + 100 * c + 4 * q + r;
    assert n / 4 == 100 * qc + 25 * c + q;
    assert n / 100 == 4 * qc + c;
    assert n / 400 == qc;
  }

  /** The `leap` flag of the source says whether the year that contains March 1st is a leap year. */
  lemma LeapFlag(qc: int, c: int, q: int, r: int)
    requires 0 <= c <= 3 && 0 <= q <= 24 && 0 <= r <= 3
    ensures (r == 0 && (q != 0 || c == 0)) <==> IsLeapYear(2000 + 400 * qc + 100 * c + 4 * q + r)
  {
    var y := 2000 + 400 * qc + 100 * c + 4 * q + r;
    assert y % 4 == r;
    assert r == 0 ==> y % 100 == 4 * q;
    assert r == 0 && q == 0 ==> y % 400 == 100 * c;
  }

  /**
   * The day left over after the cycles is at most 365, and it is 365 only
   * on a February 29th: the year after the one containing March 1st is a
   * leap year.
   */
  lemma LeftoverDay(qc: int, c: int, q: int, r: int, rd1: int, rd2: int, rd3: int)
    requires 0 <= c <= 3 && 0 <= rd1 <= DaysPer100Y && (c < 3 ==> rd1 < DaysPer100Y)
    requires 0 <= q <= 24 && rd2 == rd1 - q * DaysPer4Y && 0 <= rd2 && (q < 24 ==> rd2 < DaysPer4Y)
    requires 0 <= r <= 3 && rd3 == rd2 - r * 365 && 0 <= rd3 && (r < 3 ==> rd3 < 365)
    ensures rd3 <= 365
    ensures rd3 == 365 ==> IsLeapYear(2001 + 400 * qc + 100 * c + 4 * q + r)
  {
    if rd3 == 365 {
      assert r == 3 && rd2 == 1460;
      assert q == 24 ==> c == 3;
      LastYearOfCycle(qc, c, q);
    }
  }

  /** The fourth year of a 4-year cycle, counted from a March 1st of a year 2000 + 400k, is a leap year, except in the last century's last cycle. */
  lemma LastYearOfCycle(qc: int, c: int, q: int)
    requires 0 <= c <= 3 && 0 <= q <= 24 && (q == 24 ==> c == 3)
    ensures IsLeapYear(2004 + 400 * qc + 100 * c + 4 * q)
  {
    var y := 2004 + 400 * qc + 100 * c + 4 * q;
    Mod4(y, 501 + 100 * qc + 25 * c + q, 0);
    if q == 24 {
      Mod400(y, 6 + qc, 0);
    } else {
      Mod100(y, 20 + 4 * qc + c, 4 * q + 4);
    }
  }

  /** A (March-based) year, month and day as a calendar date. */
  function CalYear(years: int, months: int): int {
    2000 + years + (if months >= 10 then 1 else 0)
  }

  function CalMonth(months: int): int {
    if months >= 10 then months - 9 else months + 3
  }

  /**
   * Day `remdays` of the `months`-th month after March 1st of year
   * 2000 + years is a valid date, `CumMarch(months) + remdays` days after
   * that March 1st.
   */
  lemma MarchDate(years: int, months: int, remdays: int)
    requires 0 <= months <= 11 && 0 <= remdays < MarchMonthDays[months]
    requires months == 11 && remdays == 28 ==> IsLeapYear(2001 + years)
    ensures ValidDate(CalYear(years, months), CalMonth(months), remdays + 1)
    ensures DaysFromCivil(CalYear(years, months), CalMonth(months), remdays + 1) ==
            11017 + DaysToMarch(years) + CumMarch(months) + remdays
  {
    MarchYearStart(years);
    if months >= 10 {
      WinterDate(2000 + years, months, remdays);
    } else {
      SpringDate(2000 + years, months, remdays);
    }
  }

  /** March to December lie in the year that contains March 1st. */
  lemma SpringDate(y: int, months: int, remdays: int)
    requires 0 <= months <= 9 && 0 <= remdays < MarchMonthDays[months]
    ensures ValidDate(y, months + 3, remdays + 1)
    ensures DaysFromCivil(y, months + 3, remdays + 1) == DaysFromCivil(y, 3, 1) + CumMarch(months) + remdays
  {
    MarchMonthStarts(months);
    MarchMonthLength(y, months);
  }

  /** January and February lie in the next year, 306 and 337 days after March 1st. */
  lemma WinterDate(y: int, months: int, remdays: int)
    requires 10 <= months <= 11 && 0 <= remdays < MarchMonthDays[months]
    requires months == 11 && remdays == 28 ==> IsLeapYear(y + 1)
    ensures ValidDate(y + 1, months - 9, remdays + 1)
    ensures DaysFromCivil(y + 1, months - 9, remdays + 1) == DaysFromCivil(y, 3, 1) + CumMarch(months) + remdays
  {
    YearLength(y);
    CumMarchValues();
    assert DaysBeforeMonth(y, 3) + 306 == DaysBeforeYear(y + 1) - DaysBeforeYear(y);
  }

  /** From March to December the March-based month lengths are the calendar's. */
  lemma MarchMonthLength(y: int, months: int)
    requires 0 <= months <= 9
    ensures MarchMonthDays[months] == DaysInMonth(y, months + 3)
  {
  }

  lemma MarchMonthStarts(k: int)
    requires 0 <= k <= 9
    ensures CumDays[k + 2] == 59 + CumMarch(k)
  {
    if k > 0 {
      MarchMonthStarts(k - 1);
    }
  }

  /** The day of the year as the source computes it from the March-based day. */
  lemma YearDay(years: int, months: int, remdays: int, rd3: int, leap: int)
    requires 0 <= months <= 11 && 0 <= remdays < MarchMonthDays[months]
    requires rd3 == CumMarch(months) + remdays
    requires leap == if IsLeapYear(2000 + years) then 1 else 0
    ensures var yday := rd3 + 31 + 28 + leap;
            (if yday >= 365 + leap then yday - (365 + leap) else yday) ==
            DaysBeforeMonth(CalYear(years, months), CalMonth(months)) + remdays
  {
    CumMarchValues();
    if months < 10 {
      MarchMonthStarts(months);
      assert CumMarch(months) <= CumMarch(9) + 0 by { CumMarchBelow(months, 9); }
    }
  }

  lemma {:induction false} CumMarchBelow(a: int, b: int)
    requires 0 <= a <= b <= 12
    ensures CumMarch(a) + (if a < b then MarchMonthDays[a] else 0) <= CumMarch(b)
    decreases b - a
  {
    if a < b {
      CumMarchBelow(a, b - 1);
      if a < b - 1 {
        assert CumMarch(a) + MarchMonthDays[a] <= CumMarch(b - 1);
      }
    }
  }

  /** Hours, minutes and seconds of a second of the day. */
  lemma TimeOfDay(x: int)
    requires 0 <= x < 86400
    ensures 0 <= x / 3600 < 24 && 0 <= x / 60 % 60 < 60 && 0 <= x % 60 < 60
    ensures x / 3600 * 3600 + x / 60 % 60 * 60 + x % 60 == x
  {
  }

  /** The day of a time is its whole days. */
  lemma DayOf(t: int, day: int, remsecs: int)
    requires 0 <= remsecs < 86400 && t == day * 86400 + remsecs
    ensures t / 86400 == day
  {
  }

  /** The leap epoch, 11017 days after the epoch, is a Wednesday: three days after the epoch's Thursday plus a whole number of weeks. */
  lemma WeekShift(days: int)
    ensures (days + 3) % 7 == (days + 11017 + 4) % 7
  {
    assert days + 11017 + 4 == (days + 3) + 7 * 1574;
  }

  // ---------------------------------------------------------------------
  // The algorithm

  /** The day and the second of the day of `t`, counted from the leap epoch and floored. */
  method DayAndSecond(t: int) returns (days: int, remsecs: int)
    ensures t - Leapoch == days * 86400 + remsecs && 0 <= remsecs < 86400
  {
    var secs := t - Leapoch;
    days := Quot(secs, 86400);
    remsecs := Rem(secs, 86400);
    if remsecs < 0 {
      remsecs := remsecs + 86400;
      days := days - 1;
    }
  }

  /** The weekday of a day counted from the leap epoch, a Wednesday. */
  method Weekday(days: int) returns (wday: int)
    ensures wday == (days + 3) % 7
  {
    wday := Rem(3 + days, 7);
    if wday < 0 {
      wday := wday + 7;
    }
  }

  /**
   * The whole 400-, 100-, 4- and 1-year cycles in `days`, and the day left
   * over; the last cycle of each kind absorbs the leap day at its end.
   */
  method Cycles(days: int) returns (qcCycles: int, cCycles: int, qCycles: int, remyears: int, remdays: int)
    ensures 0 <= cCycles <= 3 && 0 <= qCycles <= 24 && 0 <= remyears <= 3
    ensures days == DaysPer400Y * qcCycles + DaysPer100Y * cCycles + DaysPer4Y * qCycles + 365 * remyears + remdays
    ensures 0 <= remdays <= 365
    ensures remdays == 365 ==> IsLeapYear(2001 + 400 * qcCycles + 100 * cCycles + 4 * qCycles + remyears)
  {
    qcCycles := Quot(days, DaysPer400Y);
    remdays := Rem(days, DaysPer400Y);
    if remdays < 0 {
      remdays := remdays + DaysPer400Y;
      qcCycles := qcCycles - 1;
    }
    assert days == qcCycles * DaysPer400Y + remdays && 0 <= remdays < DaysPer400Y;
    ghost var rd0 := remdays;

    // the operands below are non-negative, where C's `/` is Dafny's
    cCycles := remdays / DaysPer100Y;
    if cCycles == 4 {
      cCycles := cCycles - 1;
    }
    remdays := remdays - cCycles * DaysPer100Y;
    ghost var rd1 := remdays;
    assert rd0 == cCycles * DaysPer100Y + rd1;
    assert 0 <= cCycles <= 3 && 0 <= rd1 <= DaysPer100Y && (cCycles < 3 ==> rd1 < DaysPer100Y);

    qCycles := remdays / DaysPer4Y;
    if qCycles == 25 {
      qCycles := qCycles - 1;
    }
    remdays := remdays - qCycles * DaysPer4Y;
    ghost var rd2 := remdays;
    assert rd1 == qCycles * DaysPer4Y + rd2;
    assert 0 <= qCycles <= 24 && 0 <= rd2 && (qCycles < 24 ==> rd2 < DaysPer4Y);

    remyears := remdays / 365;
    if remyears == 4 {
      remyears := remyears - 1;
    }
    remdays := remdays - remyears * 365;
    assert 0 <= remyears <= 3 && 0 <= remdays && (remyears < 3 ==> remdays < 365);
    assert rd2 == remyears * 365 + remdays;
    LeftoverDay(qcCycles, cCycles, qCycles, remyears, rd1, rd2, remdays);
  }

  /** The March-based month of a day of the March-based year, and the day within it. */
  method MarchMonth(yearDay: int) returns (months: int, remdays: int)
    requires 0 <= yearDay <= 365
    ensures 0 <= months <= 11 && 0 <= remdays < MarchMonthDays[months]
    ensures yearDay == CumMarch(months) + remdays
  {
    CumMarchValues();
    remdays := yearDay;
    months := 0;
    while MarchMonthDays[months] <= remdays
      invariant 0 <= months <= 11 && 0 <= remdays
      invariant yearDay == CumMarch(months) + remdays
      decreases 12 - months
    {
      remdays := remdays - MarchMonthDays[months];
      months := months + 1;
    }
  }

  /**
   * The arithmetic of `secs_to_tm` up to its year check: the day and second
   * of `t` from the leap epoch, the weekday, the cycles, the day of the
   * year and the March-based year, month and day. They stand for a valid
   * date, that date's day count and the second of the day make up `t`,
   * and the weekday and the day of the year are that date's.
   */
  method BreakDown(t: int) returns (years: int, months: int, remdays: int, wday: int, yday: int, remsecs: int)
    ensures 0 <= months <= 11 && ValidDate(CalYear(years, months), CalMonth(months), remdays + 1)
    ensures 0 <= remsecs < 86400
    ensures t == DaysFromCivil(CalYear(years, months), CalMonth(months), remdays + 1) * 86400 + remsecs
    ensures wday == (DaysFromCivil(CalYear(years, months), CalMonth(months), remdays + 1) + 4) % 7
    ensures yday == DaysBeforeMonth(CalYear(years, months), CalMonth(months)) + remdays
  {
    var days;
    days, remsecs := DayAndSecond(t);
    wday := Weekday(days);
    var qcCycles, cCycles, qCycles, remyears, yearDay := Cycles(days);

    var leap := if remyears == 0 && (qCycles != 0 || cCycles == 0) then 1 else 0;
    yday := yearDay + 31 + 28 + leap;
    if yday >= 365 + leap {
      yday := yday - (365 + leap);
    }

    years := remyears + 4 * qCycles + 100 * cCycles + 400 * qcCycles;
    CycleDays(qcCycles, cCycles, qCycles, remyears);
    LeapFlag(qcCycles, cCycles, qCycles, remyears);

    months, remdays := MarchMonth(yearDay);
    YearDay(years, months, remdays, yearDay, leap);
    MarchDate(years, months, remdays);
    WeekShift(days);
  }

  /** The second of the day as hours, minutes and seconds, and the day of `t`. */
  lemma Clock(t: int, day: int, remsecs: int)
    requires 0 <= remsecs < 86400 && t == day * 86400 + remsecs
    ensures 0 <= remsecs / 3600 < 24 && 0 <= remsecs / 60 % 60 < 60 && 0 <= remsecs % 60 < 60
    ensures t == day * 86400 + remsecs / 3600 * 3600 + remsecs / 60 % 60 * 60 + remsecs % 60
    ensures t / 86400 == day
  {
    TimeOfDay(remsecs);
    DayOf(t, day, remsecs);
  }

  /** A valid date and time of day that count up to `t`, with their weekday and day of the year, represent `t`. */
  lemma FromParts(t: int, day: int, y: int, m: int, d: int, hour: int, min: int, sec: int, wday: int, yday: int)
    requires ValidDate(y, m, d) && DaysFromCivil(y, m, d) == day
    requires 0 <= hour < 24 && 0 <= min < 60 && 0 <= sec < 60
    requires t == day * 86400 + hour * 3600 + min * 60 + sec && t / 86400 == day
    requires wday == (day + 4) % 7
    requires yday == DaysBeforeMonth(y, m) + d - 1
    ensures Represents(Tm(sec, min, hour, d, m - 1, y - 1900, wday, yday), t)
  {
  }

  /** The representation of a time is unique, so its year fits an `int` exactly when one representation's does. */
  lemma YearFits(broken: Tm, t: int)
    requires Represents(broken, t)
    ensures (exists u :: Represents(u, t) && !IsInt32(u.year)) <==> !IsInt32(broken.year)
  {
    forall u | Represents(u, t)
      ensures u.year == broken.year
    {
      RepresentsUnique(u, broken, t);
    }
  }

  /** Shifting the March-based month to January-based carries into the next year for January and February. */
  lemma MonthCarry(years: int, months: int, mon: int, year: int)
    requires 0 <= months <= 11
    requires mon == (if months + 2 >= 12 then months + 2 - 12 else months + 2)
    requires year == (if months + 2 >= 12 then years + 100 + 1 else years + 100)
    ensures mon == CalMonth(months) - 1 && year == CalYear(years, months) - 1900
  {
  }

  /**
   * The broken-down time of `t` from the parts `BreakDown` returns, with the
   * January-based month and the year since 1900.
   */
  lemma BrokenDown(t: int, years: int, months: int, remdays: int, wday: int, yday: int, remsecs: int, mon: int, year: int)
    requires mon == CalMonth(months) - 1 && year == CalYear(years, months) - 1900
    requires 0 <= months <= 11 && ValidDate(CalYear(years, months), CalMonth(months), remdays + 1)
    requires 0 <= remsecs < 86400
    requires t == DaysFromCivil(CalYear(years, months), CalMonth(months), remdays + 1) * 86400 + remsecs
    requires wday == (DaysFromCivil(CalYear(years, months), CalMonth(months), remdays + 1) + 4) % 7
    requires yday == DaysBeforeMonth(CalYear(years, months), CalMonth(months)) + remdays
    ensures Represents(Tm(remsecs % 60, remsecs / 60 % 60, remsecs / 3600, remdays + 1, mon, year, wday, yday), t)
  {
    var y, m := CalYear(years, months), CalMonth(months);
    var day := DaysFromCivil(y, m, remdays + 1);
    Clock(t, day, remsecs);
    FromParts(t, day, y, m, remdays + 1, remsecs / 3600, remsecs / 60 % 60, remsecs % 60, wday, yday);
  }

  /**
   * `secs_to_tm` with its year check made effective: returns 0 and the
   * broken-down time when `t` is in the supported range and its year fits
   * an `int`, and otherwise -1, leaving `tm` as it was.
   */
  method SecsToTm(t: int, tmIn: Tm) returns (rc: int, tm: Tm)
    ensures rc == 0 || rc == -1
    ensures rc == 0 ==> Represents(tm, t) && IsInt32(tm.year)
    ensures rc == -1 ==> tm == tmIn
    ensures rc == -1 <==> !InSupportedRange(t) || exists u :: Represents(u, t) && !IsInt32(u.year)
  {
    if t < IntMin * 31622400 || t > IntMax * 31622400 {
      return -1, tmIn;
    }
    var years, months, remdays, wday, yday, remsecs := BreakDown(t);

    var year := years + 100;
    var mon := months + 2;
    if mon >= 12 {
      mon := mon - 12;
      year := year + 1;
    }
    MonthCarry(years, months, mon, year);
    BrokenDown(t, years, months, remdays, wday, yday, remsecs, mon, year);
    var broken := Tm(remsecs % 60, remsecs / 60 % 60, remsecs / 3600, remdays + 1, mon, year, wday, yday);
    YearFits(broken, t);
    if year > IntMax || year < IntMin {
      return -1, tmIn;
    }
    return 0, broken;
  }

  /** 00:00:00 on Thursday, January 1st, 1970 is second 0. */
  lemma EpochRepresented()
    ensures Represents(Tm(0, 0, 0, 1, 0, 70, 4, 0), 0)
  {
    assert DaysBeforeYear(1970) == 0;
  }

  /** The epoch is 00:00:00 on Thursday, January 1st, 1970: day 0 of `tm_year` 70. */
  lemma EpochTime(u: Tm)
    requires Represents(u, 0)
    ensures u == Tm(0, 0, 0, 1, 0, 70, 4, 0)
  {
    EpochRepresented();
    RepresentsUnique(u, Tm(0, 0, 0, 1, 0, 70, 4, 0), 0);
  }

  /** `secs_to_tm(0, tm)` succeeds with the epoch's broken-down time. */
  method EpochSecsToTm(tmIn: Tm) returns (rc: int, tm: Tm)
    ensures rc == 0 && tm == Tm(0, 0, 0, 1, 0, 70, 4, 0)
  {
    rc, tm := SecsToTm(0, tmIn);
    forall u | Represents(u, 0)
      ensures IsInt32(u.year)
    {
      EpochTime(u);
    }
    if rc == 0 {
      EpochTime(tm);
    }
  }

  /** Wrapping a sum of wrapped values is wrapping the sum. */
  lemma WrapAdd(x: int, k: int)
    ensures Wrap32(Wrap32(x) + k) == Wrap32(x + k)
  {
    var a := Wrap32(x);
    var j := (x - a) / 0x1_0000_0000;
    assert x - a == 0x1_0000_0000 * j;
    var e, r := (a + k) / 0x1_0000_0000, (a + k) % 0x1_0000_0000;
    ModUnique(x + k, e + j, r);
  }

  /** The year as written, added up in wrapping `int`s, is the true year wrapped. */
  lemma WrappedYear(years: int, carry: bool, year: int, trueYear: int)
    requires trueYear == if carry then years + 100 + 1 else years + 100
    requires year == if carry then Wrap32(Wrap32(Wrap32(years) + 100) + 1) else Wrap32(Wrap32(years) + 100)
    ensures year == Wrap32(trueYear)
  {
    WrapAdd(years, 100);
    WrapAdd(years + 100, 1);
  }

  lemma WrappedWitness(t: int, tm: Tm, u: Tm)
    requires Represents(u, t) && tm == u.(year := Wrap32(u.year))
    ensures exists v :: Represents(v, t) && tm == v.(year := Wrap32(v.year))
  {
  }

  /**
   * `secs_to_tm` as written: `years` is an `int`, so `400 * qc_cycles` and
   * the sums after it wrap around, `years + 100` is itself an `int` and can
   * never be above `INT_MAX` or below `INT_MIN`, and the month carry adds
   * one after the check. Every supported time returns 0, with the year
   * wrapped to 32 bits.
   */
  method SecsToTmAsWritten(t: int, tmIn: Tm) returns (rc: int, tm: Tm)
    ensures rc == 0 || rc == -1
    ensures rc == -1 <==> !InSupportedRange(t)
    ensures rc == -1 ==> tm == tmIn
    ensures rc == 0 ==> exists u :: Represents(u, t) && tm == u.(year := Wrap32(u.year))
  {
    if t < IntMin * 31622400 || t > IntMax * 31622400 {
      return -1, tmIn;
    }
    var years, months, remdays, wday, yday, remsecs := BreakDown(t);
    var years32 := Wrap32(years);

    // the check on `years + 100`, evaluated in `int`, is always false
    var year := Wrap32(years32 + 100);
    var mon := months + 2;
    if mon >= 12 {
      mon := mon - 12;
      year := Wrap32(year + 1);
    }
    tm := Tm(remsecs % 60, remsecs / 60 % 60, remsecs / 3600, remdays + 1, mon, year, wday, yday);
    rc := 0;

    ghost var trueYear := if months + 2 >= 12 then years + 100 + 1 else years + 100;
    MonthCarry(years, months, mon, trueYear);
    WrappedYear(years, months + 2 >= 12, year, trueYear);
    BrokenDown(t, years, months, remdays, wday, yday, remsecs, mon, trueYear);
    WrappedWitness(t, tm, Tm(remsecs % 60, remsecs / 60 % 60, remsecs / 3600, remdays + 1, mon, trueYear, wday, yday));
  }
}
