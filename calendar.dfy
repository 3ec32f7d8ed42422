/**
 * Calendar geometry: how long a month is and on which weekday it starts.
 *
 * The page asks the host `Date` object: `new Date(y, m0 + 1, 0).getDate()`
 * and `new Date(y, m0, 1).getDay()`. This module writes out what those calls
 * compute, following the day-number arithmetic of ECMAScript's `MakeDay`:
 * a month index outside 0..11 rolls over into neighbouring years, day numbers
 * count from 1970-01-01, and that day was a Thursday. Weekdays are numbered
 * with 0 = Sunday, the order of the `WEEKDAYS` labels.
 */
module Calendar {

  /** Header labels of the grid, Sunday ("Domingo") first. */
  const WEEKDAYS: seq<string> := ["D", "L", "M", "X", "J", "V", "S"]

  /** Seven one-letter headers, Sunday ("D", domingo) first and Saturday ("S", sábado) last, all distinct. */
  lemma WeekdayLabels()
    ensures |WEEKDAYS| == 7 && WEEKDAYS[0] == "D" && WEEKDAYS[6] == "S"
    ensures forall i | 0 <= i < 7 :: |WEEKDAYS[i]| == 1
    ensures forall i, j | 0 <= i < j < 7 :: WEEKDAYS[i] != WEEKDAYS[j]
  {
  }

  /** Weekday number of 1970-01-01, the first day of the day count (Thursday). */
  const EPOCH_WEEKDAY := 4

  /** Gregorian leap years: divisible by 4, except centuries not divisible by 400. */
  predicate IsLeapYear(y: int)
  {
    y % 4 == 0 && (y % 100 != 0 || y % 400 == 0)
  }

  /** Number of days of month `m` (0 = January) in year `y`. */
  function MonthLength(y: int, m: int): (n: int)
    requires 0 <= m < 12
    ensures 28 <= n <= 31
    ensures n == 29 <==> m == 1 && IsLeapYear(y)
  {
    if m == 1 then (if IsLeapYear(y) then 29 else 28)
    else if m == 3 || m == 5 || m == 8 || m == 10 then 30
    else 31
  }

  /** Days of year `y` that come before the first of month `m`; `m == 12` gives the length of the year. */
  function DaysBeforeMonth(y: int, m: int): int
    requires 0 <= m <= 12
  {
    [0, 31, 59, 90, 120, 151, 181, 212, 243, 273, 304, 334, 365][m]
      + (if m >= 2 && IsLeapYear(y) then 1 else 0)
  }

  lemma MonthsAccumulate(y: int, m: int)
    requires 0 <= m < 12
    ensures DaysBeforeMonth(y, m + 1) == DaysBeforeMonth(y, m) + MonthLength(y, m)
  {
  }

  /** Day number of January 1st of year `y`, counted from 1970-01-01 (ECMAScript's `DayFromYear`). */
  function DayFromYear(y: int): int
  {
    365 * (y - 1970) + (y - 1969) / 4 - (y - 1901) / 100 + (y - 1601) / 400
  }

  /** Leap days counted since 1969 step up exactly in years divisible by 4. */
  lemma LeapCountStep4(y: int)
    ensures (y - 1968) / 4 == (y - 1969) / 4 + (if y % 4 == 0 then 1 else 0)
  {
    var q, r := (y - 1969) / 4, (y - 1969) % 4;
    assert y % 4 == 0 <==> r == 3;
    if r == 3 {
      assert y - 1968 == 4 * (q + 1);
    } else {
      assert y - 1968 == 4 * q + (r + 1);
    }
  }

  /** Century years counted since 1901 step up exactly in years divisible by 100. */
  lemma LeapCountStep100(y: int)
    ensures (y - 1900) / 100 == (y - 1901) / 100 + (if y % 100 == 0 then 1 else 0)
  {
    var q, r := (y - 1901) / 100, (y - 1901) % 100;
    assert y % 100 == 0 <==> r == 99;
    if r == 99 {
      assert y - 1900 == 100 * (q + 1);
    } else {
      assert y - 1900 == 100 * q + (r + 1);
    }
  }

  /** Years divisible by 400 counted since 1601 step up exactly in those years. */
  lemma LeapCountStep400(y: int)
    ensures (y - 1600) / 400 == (y - 1601) / 400 + (if y % 400 == 0 then 1 else 0)
  {
    var q, r := (y - 1601) / 400, (y - 1601) % 400;
    assert y % 400 == 0 <==> r == 399;
    if r == 399 {
      assert y - 1600 == 400 * (q + 1);
    } else {
      assert y - 1600 == 400 * q + (r + 1);
    }
  }

  /** The closed formula for `DayFromYear` advances by exactly the length of each year. */
  lemma NewYearStep(y: int)
    ensures DayFromYear(y + 1) == DayFromYear(y) + DaysBeforeMonth(y, 12)
  {
    LeapCountStep4(y);
    LeapCountStep100(y);
    LeapCountStep400(y);
    DivisibilityChain(y);
    assert DayFromYear(y + 1) - DayFromYear(y) ==
      365 + (if y % 4 == 0 then 1 else 0) - (if y % 100 == 0 then 1 else 0) + (if y % 400 == 0 then 1 else 0);
  }

  /** A multiple of 400 is a multiple of 100, and a multiple of 100 is a multiple of 4. */
  lemma DivisibilityChain(y: int)
    ensures y % 400 == 0 ==> y % 100 == 0
    ensures y % 100 == 0 ==> y % 4 == 0
  {
    if y % 400 == 0 {
      var m := 4 * (y / 400);
      assert y == 100 * m;
      HundredsDivisible(m);
    }
    if y % 100 == 0 {
      var m := 25 * (y / 100);
      assert y == 4 * m;
      FoursDivisible(m);
    }
  }

  lemma HundredsDivisible(m: int)
    ensures (100 * m) % 100 == 0
  {
  }

  lemma FoursDivisible(m: int)
    ensures (4 * m) % 4 == 0
  {
  }

  /**
   * Day number of day `d` of month `m` of year `y` (ECMAScript's `MakeDay`):
   * the month index is first brought into 0..11 by moving whole years, and a
   * day outside the month simply counts on from the month's first day.
   */
  function DayNumber(y: int, m: int, d: int): int
  {
    var year, month := y + m / 12, m % 12;
    DayFromYear(year) + DaysBeforeMonth(year, month) + d - 1
  }

  /** Weekday (0 = Sunday) of a day number. */
  function WeekDay(t: int): (w: int)
    ensures 0 <= w < 7
  {
    (t + EPOCH_WEEKDAY) % 7
  }

  /** Moving a day number on by `n` days moves its weekday on by `n`, modulo 7. */
  lemma WeekDayShift(t: int, n: int)
    ensures WeekDay(t + n) == (WeekDay(t) + n) % 7
  {
    var q, r := (t + EPOCH_WEEKDAY) / 7, (t + EPOCH_WEEKDAY) % 7;
    assert t + n + EPOCH_WEEKDAY == 7 * q + (r + n);
  }

  /** The host date's two-digit-year rule: a year argument 0..99 stands for 1900..1999. */
  function FullYear(year: int): (y: int)
    ensures y == year || y == year + 1900
    ensures !(0 <= y <= 99)
  {
    if 0 <= year <= 99 then 1900 + year else year
  }

  /** Whole weeks do not change the weekday. */
  lemma WeekDayPeriodic(t: int, weeks: int)
    ensures WeekDay(t + 7 * weeks) == WeekDay(t)
  {
    var q, r := (t + EPOCH_WEEKDAY) / 7, (t + EPOCH_WEEKDAY) % 7;
    assert t + 7 * weeks + EPOCH_WEEKDAY == 7 * (q + weeks) + r;
  }

  /**
   * `daysInMonth(year, monthIndex0)`: the number of days of the month with
   * 0-based index `monthIndex0` (indices past 11 or below 0 roll over into
   * the neighbouring years, as the host date does).
   */
  function DaysInMonth(year: int, monthIndex0: int): (n: int)
    ensures 28 <= n <= 31
  {
    MonthLength(FullYear(year) + monthIndex0 / 12, monthIndex0 % 12)
  }

  /**
   * The month-length rule: February has 29 days exactly in a leap year,
   * April, June, September and November have 30, the rest 31. An index
   * outside 0..11 names the month `monthIndex0 % 12` of a neighbouring year.
   */
  lemma MonthLengthRule(year: int, monthIndex0: int)
    ensures var n, m := DaysInMonth(year, monthIndex0), monthIndex0 % 12;
      && (m == 1 ==> (n == 29 <==> IsLeapYear(FullYear(year) + monthIndex0 / 12)))
      && (m == 1 ==> n <= 29)
      && (m != 1 ==> (n == 30 <==> m in {3, 5, 8, 10}))
      && (m != 1 ==> n >= 30)
  {
  }

  /** `firstDayOfMonth(year, monthIndex0)`: the weekday (0 = Sunday) of the first day of the month. */
  function FirstDayOfMonth(year: int, monthIndex0: int): (w: int)
    ensures 0 <= w < |WEEKDAYS|
  {
    WeekDay(DayNumber(FullYear(year), monthIndex0, 1))
  }

  /** The first of the next month comes exactly `DaysInMonth` days after the first of this one. */
  lemma {:induction false} MonthStep(year: int, monthIndex0: int)
    ensures var y := FullYear(year);
      DayNumber(y, monthIndex0 + 1, 1) == DayNumber(y, monthIndex0, 1) + DaysInMonth(year, monthIndex0)
  {
    var y, m := FullYear(year) + monthIndex0 / 12, monthIndex0 % 12;
    MonthsAccumulate(y, m);
    if m < 11 {
      assert (monthIndex0 + 1) / 12 == monthIndex0 / 12 && (monthIndex0 + 1) % 12 == m + 1;
    } else {
      assert (monthIndex0 + 1) / 12 == monthIndex0 / 12 + 1 && (monthIndex0 + 1) % 12 == 0;
      NewYearStep(y);
    }
  }

  /**
   * What `new Date(year, monthIndex0 + 1, 0)` denotes: day 0 of the next
   * month is the same day as day `DaysInMonth(year, monthIndex0)` of this month.
   */
  lemma LastDayOfMonth(year: int, monthIndex0: int)
    ensures var y := FullYear(year);
      DayNumber(y, monthIndex0 + 1, 0) == DayNumber(y, monthIndex0, DaysInMonth(year, monthIndex0))
  {
    MonthStep(year, monthIndex0);
  }

  /** Consecutive months: the next month starts `DaysInMonth` weekdays further on. */
  lemma NextMonthWeekday(year: int, monthIndex0: int)
    ensures FirstDayOfMonth(year, monthIndex0 + 1) == (FirstDayOfMonth(year, monthIndex0) + DaysInMonth(year, monthIndex0)) % 7
  {
    MonthStep(year, monthIndex0);
    WeekDayShift(DayNumber(FullYear(year), monthIndex0, 1), DaysInMonth(year, monthIndex0));
  }

  /** The Gregorian calendar repeats every 400 years: same month lengths, same weekdays. */
  lemma FourHundredYearCycle(year: int, monthIndex0: int)
    requires year >= 100
    ensures DaysInMonth(year + 400, monthIndex0) == DaysInMonth(year, monthIndex0)
    ensures FirstDayOfMonth(year + 400, monthIndex0) == FirstDayOfMonth(year, monthIndex0)
  {
    assert FullYear(year) == year && FullYear(year + 400) == year + 400;
    var t := DayNumber(year, monthIndex0, 1);
    DayNumberCycle(year, monthIndex0);
    WeekDayPeriodic(t, 20871);
  }

  /** 400 Gregorian years are 146097 days, a whole number of weeks. */
  lemma DayNumberCycle(y: int, monthIndex0: int)
    ensures DayNumber(y + 400, monthIndex0, 1) == DayNumber(y, monthIndex0, 1) + 7 * 20871
    ensures MonthLength(y + 400 + monthIndex0 / 12, monthIndex0 % 12) == MonthLength(y + monthIndex0 / 12, monthIndex0 % 12)
  {
    var x := y + monthIndex0 / 12;
    assert (y + 400) + monthIndex0 / 12 == x + 400;
    LeapCycle(x);
    DayFromYearCycle(x);
  }

  lemma LeapCycle(x: int)
    ensures IsLeapYear(x + 400) == IsLeapYear(x)
  {
    assert (x + 400) % 4 == x % 4 && (x + 400) % 100 == x % 100 && (x + 400) % 400 == x % 400;
  }

  lemma DayFromYearCycle(x: int)
    ensures DayFromYear(x + 400) == DayFromYear(x) + 146097
  {
    assert (x + 400 - 1969) / 4 == (x - 1969) / 4 + 100;
    assert (x + 400 - 1901) / 100 == (x - 1901) / 100 + 4;
    assert (x + 400 - 1601) / 400 == (x - 1601) / 400 + 1;
  }

  /** A two-digit year means the same year of the 1900s: 0 is 1900, which is not a leap year. */
  lemma TwoDigitYears(year: int, monthIndex0: int)
    requires 0 <= year <= 99
    ensures DaysInMonth(year, monthIndex0) == DaysInMonth(year + 1900, monthIndex0)
    ensures FirstDayOfMonth(year, monthIndex0) == FirstDayOfMonth(year + 1900, monthIndex0)
    ensures DaysInMonth(0, 1) == 28 && DaysInMonth(24, 1) == 29
  {
  }

  /** Known dates: 2024 is a leap year, 2023 is not, and 2026-01-01 was a Thursday. */
  lemma KnownDates()
    ensures DaysInMonth(2024, 1) == 29 && DaysInMonth(2023, 1) == 28 && DaysInMonth(2026, 0) == 31
    ensures FirstDayOfMonth(2026, 0) == 4 && WEEKDAYS[4] == "J"
    ensures WeekDay(DayNumber(2026, 0, 4)) == 0 && WEEKDAYS[0] == "D"
  {
  }
}
