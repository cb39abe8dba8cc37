/** POSIX "Seconds Since the Epoch" (section 4.16 of the Base Definitions
    volume of POSIX.1-2017) on the proleptic Gregorian calendar, without leap
    seconds: the conversion that `pandas.to_datetime(..., unit='s')` applies
    before `.dt.month` is read. The calendar is given by a reference walk over
    years and months; the closed formula of POSIX is proved to agree with it. */
module Calendar {

  const EpochYear := 1970
  const SecondsPerDay := 86400

  predicate IsLeapYear(y: int) {
    y % 4 == 0 && (y % 100 != 0 || y % 400 == 0)
  }

  function DaysInYear(y: int): int {
    if IsLeapYear(y) then 366 else 365
  }

  function DaysInMonth(y: int, m: int): int
    requires 1 <= m <= 12
  {
    if m == 2 then (if IsLeapYear(y) then 29 else 28)
    else if m == 4 || m == 6 || m == 9 || m == 11 then 30
    else 31
  }

  /** Days from 1 January 1970 to 1 January of year y, counted year by year
      (negative for the years before 1970). */
  function DaysBeforeYear(y: int): int
    decreases if y < EpochYear then EpochYear - y else y - EpochYear
  {
    if y == EpochYear then 0
    else if y > EpochYear then DaysBeforeYear(y - 1) + DaysInYear(y - 1)
    else DaysBeforeYear(y + 1) - DaysInYear(y)
  }

  /** Days from 1 January to the first day of month m of year y (m == 13 is the next new year). */
  function DaysBeforeMonth(y: int, m: int): int
    requires 1 <= m <= 13
  {
    if m == 1 then 0 else DaysBeforeMonth(y, m - 1) + DaysInMonth(y, m - 1)
  }

  lemma YearStep(y: int)
    ensures DaysBeforeYear(y + 1) == DaysBeforeYear(y) + DaysInYear(y)
  {
  }

  lemma MonthsFillYear(y: int)
    ensures DaysBeforeMonth(y, 13) == DaysInYear(y)
  {
    assert DaysBeforeMonth(y, 2) == 31;
    assert DaysBeforeMonth(y, 3) == 31 + DaysInMonth(y, 2);
    assert DaysBeforeMonth(y, 4) == DaysBeforeMonth(y, 3) + 31;
    assert DaysBeforeMonth(y, 5) == DaysBeforeMonth(y, 4) + 30;
    assert DaysBeforeMonth(y, 6) == DaysBeforeMonth(y, 5) + 31;
    assert DaysBeforeMonth(y, 7) == DaysBeforeMonth(y, 6) + 30;
    assert DaysBeforeMonth(y, 8) == DaysBeforeMonth(y, 7) + 31;
    assert DaysBeforeMonth(y, 9) == DaysBeforeMonth(y, 8) + 31;
    assert DaysBeforeMonth(y, 10) == DaysBeforeMonth(y, 9) + 30;
    assert DaysBeforeMonth(y, 11) == DaysBeforeMonth(y, 10) + 31;
    assert DaysBeforeMonth(y, 12) == DaysBeforeMonth(y, 11) + 30;
  }

  lemma {:induction false} DaysBeforeMonthMonotone(y: int, a: int, b: int)
    requires 1 <= a <= b <= 13
    ensures DaysBeforeMonth(y, a) <= DaysBeforeMonth(y, b)
    decreases b - a
  {
    if a < b {
      DaysBeforeMonthMonotone(y, a, b - 1);
    }
  }

  lemma {:induction false} DaysBeforeYearMonotone(a: int, b: int)
    requires a < b
    ensures DaysBeforeYear(a) + DaysInYear(a) <= DaysBeforeYear(b)
    decreases b - a
  {
    YearStep(a);
    if a + 1 < b {
      DaysBeforeYearMonotone(a + 1, b);
    }
  }

  datatype Date = Date(year: int, month: int, day: int)

  predicate ValidDate(d: Date) {
    1 <= d.month <= 12 && 1 <= d.day <= DaysInMonth(d.year, d.month)
  }

  /** tm_yday: days since 1 January of the date's year. */
  function DayOfYear(d: Date): (n: int)
    requires ValidDate(d)
    ensures 0 <= n < DaysInYear(d.year)
  {
    DaysBeforeMonthMonotone(d.year, 1, d.month);
    DaysBeforeMonthMonotone(d.year, d.month + 1, 13);
    MonthsFillYear(d.year);
    DaysBeforeMonth(d.year, d.month) + d.day - 1
  }

  /** Days since 1970-01-01 (negative before it). */
  function EpochDay(d: Date): int
    requires ValidDate(d)
  {
    DaysBeforeYear(d.year) + DayOfYear(d)
  }

  /** The year holding day number DaysBeforeYear(y) + rem, and the day's offset in it. */
  function YearWalk(y: int, rem: int): (r: (int, int))
    ensures 0 <= r.1 < DaysInYear(r.0)
    ensures DaysBeforeYear(r.0) + r.1 == DaysBeforeYear(y) + rem
    decreases if rem < 0 then 1 else 0, if rem < 0 then -rem else rem
  {
    YearStep(y - 1);
    YearStep(y);
    if rem < 0 then YearWalk(y - 1, rem + DaysInYear(y - 1))
    else if rem < DaysInYear(y) then (y, rem)
    else YearWalk(y + 1, rem - DaysInYear(y))
  }

  /** The month of year y holding day offset DaysBeforeMonth(y, m) + rem, and the offset in it. */
  function MonthWalk(y: int, m: int, rem: int): (r: (int, int))
    requires 1 <= m <= 12 && 0 <= rem
    requires DaysBeforeMonth(y, m) + rem < DaysInYear(y)
    ensures m <= r.0 <= 12 && 0 <= r.1 < DaysInMonth(y, r.0)
    ensures DaysBeforeMonth(y, r.0) + r.1 == DaysBeforeMonth(y, m) + rem
    decreases 12 - m
  {
    MonthsFillYear(y);
    if rem < DaysInMonth(y, m) then (m, rem)
    else MonthWalk(y, m + 1, rem - DaysInMonth(y, m))
  }

  /** The calendar date of day number z. */
  function CivilFromDays(z: int): (d: Date)
    ensures ValidDate(d) && EpochDay(d) == z
  {
    var (y, offset) := YearWalk(EpochYear, z);
    var (m, r) := MonthWalk(y, 1, offset);
    Date(y, m, r + 1)
  }

  /** Different valid dates have different day numbers. */
  lemma EpochDayInjective(d1: Date, d2: Date)
    requires ValidDate(d1) && ValidDate(d2)
    requires EpochDay(d1) == EpochDay(d2)
    ensures d1 == d2
  {
    if d1.year < d2.year {
      DaysBeforeYearMonotone(d1.year, d2.year);
    } else if d2.year < d1.year {
      DaysBeforeYearMonotone(d2.year, d1.year);
    }
    assert d1.year == d2.year;
    if d1.month < d2.month {
      DaysBeforeMonthMonotone(d1.year, d1.month + 1, d2.month);
    } else if d2.month < d1.month {
      DaysBeforeMonthMonotone(d1.year, d2.month + 1, d1.month);
    }
  }

  /** CivilFromDays inverts EpochDay on every valid date. */
  lemma CivilFromDaysOfEpochDay(d: Date)
    requires ValidDate(d)
    ensures CivilFromDays(EpochDay(d)) == d
  {
    EpochDayInjective(CivilFromDays(EpochDay(d)), d);
  }

  /** A broken-down UTC time (struct tm with a four-digit year and a 1-based month). */
  datatype Tm = Tm(year: int, month: int, day: int, hour: int, minute: int, second: int)

  predicate ValidTm(t: Tm) {
    && ValidDate(DateOf(t))
    && 0 <= t.hour < 24 && 0 <= t.minute < 60 && 0 <= t.second < 60
  }

  function DateOf(t: Tm): Date {
    Date(t.year, t.month, t.day)
  }

  /** The expression of XBD section 4.16, with tm_year = year - 1900 and the
      divisions rounding down, which extends it to the years before 1970. */
  function PosixSeconds(t: Tm): int
    requires ValidTm(t)
  {
    var tmYear := t.year - 1900;
    t.second + t.minute * 60 + t.hour * 3600 + DayOfYear(DateOf(t)) * 86400
    + (tmYear - 70) * 31536000 + ((tmYear - 69) / 4) * 86400
    - ((tmYear - 1) / 100) * 86400 + ((tmYear + 299) / 400) * 86400
  }

  /** The leap-day terms of the POSIX expression, in days. */
  function PosixDaysBeforeYear(y: int): int {
    var tmYear := y - 1900;
    (tmYear - 70) * 365 + (tmYear - 69) / 4 - (tmYear - 1) / 100 + (tmYear + 299) / 400
  }

  lemma PosixYearStep(y: int)
    ensures PosixDaysBeforeYear(y + 1) == PosixDaysBeforeYear(y) + DaysInYear(y)
  {
    FloorStep4(y);
    FloorStep100(y);
    FloorStep400(y);
    Divides(y);
  }

  /** 4 divides 100, which divides 400. */
  lemma Divides(y: int)
    ensures y % 400 == 0 ==> y % 100 == 0
    ensures y % 100 == 0 ==> y % 4 == 0
  {
    MultipleOf100(y);
    MultipleOf4(y);
  }

  lemma MultipleOf100(y: int)
    ensures y % 400 == 0 ==> y % 100 == 0
  {
    var q, r := y / 400, y % 400;
    assert y == 100 * (4 * q) + r;
    assert r == 0 ==> y % 100 == 0;
  }

  lemma MultipleOf4(y: int)
    ensures y % 100 == 0 ==> y % 4 == 0
  {
    var q, r := y / 100, y % 100;
    assert y == 4 * (25 * q) + r;
    assert r == 0 ==> y % 4 == 0;
  }

  /** The term (tm_year - 69) / 4 grows by one exactly after a year divisible by 4. */
  lemma FloorStep4(y: int)
    ensures (y - 1968) / 4 - (y - 1969) / 4 == if y % 4 == 0 then 1 else 0
  {
    var q, r := (y - 1969) / 4, (y - 1969) % 4;
    assert y - 1969 == 4 * q + r && 0 <= r < 4;
    assert y % 4 == (r + 1) % 4 by {
      assert y == 4 * (q + 492) + r + 1;
    }
    if r == 3 {
      assert y - 1968 == 4 * (q + 1);
    } else {
      assert y - 1968 == 4 * q + (r + 1);
    }
  }

  lemma FloorStep100(y: int)
    ensures (y - 1900) / 100 - (y - 1901) / 100 == if y % 100 == 0 then 1 else 0
  {
    var q, r := (y - 1901) / 100, (y - 1901) % 100;
    assert y - 1901 == 100 * q + r && 0 <= r < 100;
    assert y % 100 == (r + 1) % 100 by {
      assert y == 100 * (q + 19) + r + 1;
    }
    if r == 99 {
      assert y - 1900 == 100 * (q + 1);
    } else {
      assert y - 1900 == 100 * q + (r + 1);
    }
  }

  lemma FloorStep400(y: int)
    ensures (y - 1600) / 400 - (y - 1601) / 400 == if y % 400 == 0 then 1 else 0
  {
    var q, r := (y - 1601) / 400, (y - 1601) % 400;
    assert y - 1601 == 400 * q + r && 0 <= r < 400;
    assert y % 400 == (r + 1) % 400 by {
      assert y == 400 * (q + 4) + r + 1;
    }
    if r == 399 {
      assert y - 1600 == 400 * (q + 1);
    } else {
      assert y - 1600 == 400 * q + (r + 1);
    }
  }

  /** The POSIX closed formula counts the same days as the year-by-year walk. */
  lemma {:induction false} PosixAgreesWithCalendar(y: int)
    ensures PosixDaysBeforeYear(y) == DaysBeforeYear(y)
    decreases if y < EpochYear then EpochYear - y else y - EpochYear
  {
    if y > EpochYear {
      PosixAgreesWithCalendar(y - 1);
      PosixYearStep(y - 1);
    } else if y < EpochYear {
      PosixAgreesWithCalendar(y + 1);
      PosixYearStep(y);
    }
  }

  /** PosixSeconds is the day count since the Epoch in seconds plus the time of day. */
  lemma PosixSecondsByDays(t: Tm)
    requires ValidTm(t)
    ensures PosixSeconds(t) == EpochDay(DateOf(t)) * SecondsPerDay + (t.second + t.minute * 60 + t.hour * 3600)
  {
    PosixAgreesWithCalendar(t.year);
  }

  /** Floor division by the length of a day, characterised by its remainder. */
  lemma DivideByDay(s: int, q: int, r: int)
    requires s == q * SecondsPerDay + r && 0 <= r < SecondsPerDay
    ensures s / SecondsPerDay == q && s % SecondsPerDay == r
  {
  }

  /** gmtime: the broken-down UTC time of s seconds since the Epoch. */
  function Gmtime(s: int): (t: Tm)
    ensures ValidTm(t) && PosixSeconds(t) == s
  {
    var days := s / SecondsPerDay;
    var secs := s % SecondsPerDay;
    var d := CivilFromDays(days);
    var t := Tm(d.year, d.month, d.day, secs / 3600, secs % 3600 / 60, secs % 60);
    assert secs == t.second + t.minute * 60 + t.hour * 3600;
    PosixSecondsByDays(t);
    t
  }

  /** Gmtime inverts the POSIX expression on every valid broken-down time. */
  lemma GmtimeOfPosixSeconds(t: Tm)
    requires ValidTm(t)
    ensures Gmtime(PosixSeconds(t)) == t
  {
    var d := DateOf(t);
    var tod := t.second + t.minute * 60 + t.hour * 3600;
    PosixSecondsByDays(t);
    DivideByDay(PosixSeconds(t), EpochDay(d), tod);
    CivilFromDaysOfEpochDay(d);
    TimeOfDay(t.hour, t.minute, t.second);
  }

  /** Hours, minutes and seconds are recovered from the second of the day. */
  lemma TimeOfDay(h: int, m: int, s: int)
    requires 0 <= h < 24 && 0 <= m < 60 && 0 <= s < 60
    ensures var tod := s + m * 60 + h * 3600;
      tod / 3600 == h && tod % 3600 / 60 == m && tod % 60 == s
  {
    var tod := s + m * 60 + h * 3600;
    assert tod % 3600 == s + m * 60;
    assert (s + m * 60) / 60 == m;
  }

  /** The calendar month (1..12) of s seconds since the Epoch. */
  function MonthOfSeconds(s: int): (m: int)
    ensures 1 <= m <= 12
  {
    Gmtime(s).month
  }

  /** 1369699200 seconds is 2013-05-28 00:00:00 UTC, a May timestamp. */
  lemma ExampleTimestamp()
    ensures Gmtime(1369699200) == Tm(2013, 5, 28, 0, 0, 0)
    ensures MonthOfSeconds(1369699200) == 5
  {
    var t := Tm(2013, 5, 28, 0, 0, 0);
    assert DaysBeforeMonth(2013, 5) == 120;
    assert PosixSeconds(t) == 1369699200;
    GmtimeOfPosixSeconds(t);
  }
}
