/**
 * epoch_to_tm: a UNIX time (seconds since 1970-01-01 00:00:00 UTC, an
 * unsigned 32-bit value) broken down into seconds, minutes, hours, day of
 * month, month and years since 1900, with Gregorian leap years, as in the
 * seconds-since-the-epoch arithmetic of POSIX.1-2017, XBD section 4.16.
 */
module UtcTime {
  import Hex

  const Year0 := 1900
  const EpochYear := 1970
  const SecsPerDay := 24 * 60 * 60

  /** time_t is a uint32_t. */
  type Epoch = t: int | 0 <= t < 0x1_0000_0000

  /** LEAPYEAR. */
  predicate IsLeap(year: int) {
    year % 4 == 0 && (year % 100 != 0 || year % 400 == 0)
  }

  /** YEARSIZE. */
  function YearSize(year: int): nat {
    if IsLeap(year) then 366 else 365
  }

  /** _ytab: month lengths, the second row for leap years. */
  const YTab: seq<seq<nat>> := [
    [31, 28, 31, 30, 31, 30, 31, 31, 30, 31, 30, 31],
    [31, 29, 31, 30, 31, 30, 31, 31, 30, 31, 30, 31]
  ]

  /** The length of a month: 28 or 29 days for February, 30 for April, June, September and November. */
  function MonthLength(leap: bool, month: int): (n: nat)
    requires 0 <= month < 12
    ensures 28 <= n <= 31
  {
    if month == 1 then (if leap then 29 else 28)
    else if month == 3 || month == 5 || month == 8 || month == 10 then 30
    else 31
  }

  /** _ytab[leap][month] is the month length, row 1 for leap years. */
  lemma MonthLengthIsTable(leap: bool, month: int)
    requires 0 <= month < 12
    ensures MonthLength(leap, month) == YTab[if leap then 1 else 0][month]
  {
  }

  /** The days of the years from 1970 up to, not including, `year`. */
  function DaysBeforeYear(year: int): nat
    requires year >= EpochYear
    decreases year - EpochYear
  {
    if year == EpochYear then 0 else DaysBeforeYear(year - 1) + YearSize(year - 1)
  }

  /** The days of the months of a year before `month`. */
  function DaysBeforeMonth(leap: bool, month: int): nat
    requires 0 <= month <= 12
    decreases month
  {
    if month == 0 then 0 else DaysBeforeMonth(leap, month - 1) + MonthLength(leap, month - 1)
  }

  /** The table's twelve months add up to YEARSIZE, for leap and common years alike. */
  lemma MonthsFillYear(year: int)
    ensures DaysBeforeMonth(IsLeap(year), 12) == YearSize(year)
    ensures DaysBeforeMonth(IsLeap(year), 11) + MonthLength(IsLeap(year), 11) == YearSize(year)
  {
    if IsLeap(year) {
      assert DaysBeforeMonth(true, 1) == 31;
      assert DaysBeforeMonth(true, 2) == 60;
      assert DaysBeforeMonth(true, 3) == 91;
      assert DaysBeforeMonth(true, 4) == 121;
      assert DaysBeforeMonth(true, 5) == 152;
      assert DaysBeforeMonth(true, 6) == 182;
      assert DaysBeforeMonth(true, 7) == 213;
      assert DaysBeforeMonth(true, 8) == 244;
      assert DaysBeforeMonth(true, 9) == 274;
      assert DaysBeforeMonth(true, 10) == 305;
      assert DaysBeforeMonth(true, 11) == 335;
      assert DaysBeforeMonth(true, 12) == 366;
    } else {
      assert DaysBeforeMonth(false, 1) == 31;
      assert DaysBeforeMonth(false, 2) == 59;
      assert DaysBeforeMonth(false, 3) == 90;
      assert DaysBeforeMonth(false, 4) == 120;
      assert DaysBeforeMonth(false, 5) == 151;
      assert DaysBeforeMonth(false, 6) == 181;
      assert DaysBeforeMonth(false, 7) == 212;
      assert DaysBeforeMonth(false, 8) == 243;
      assert DaysBeforeMonth(false, 9) == 273;
      assert DaysBeforeMonth(false, 10) == 304;
      assert DaysBeforeMonth(false, 11) == 334;
      assert DaysBeforeMonth(false, 12) == 365;
    }
  }

  /** The time of day is the remainder of the time in days, so its parts are those of the time itself. */
  lemma TimeOfDay(t: nat)
    ensures t % SecsPerDay % 60 == t % 60
    ensures t % SecsPerDay % 3600 / 60 == t % 3600 / 60
    ensures t % SecsPerDay / 3600 < 24
  {
    var q, r := t / SecsPerDay, t % SecsPerDay;
    var m, s := r / 60, r % 60;
    var h, u := r / 3600, r % 3600;
    assert t == (1440 * q + m) * 60 + s;
    Hex.DivModUnique(1440 * q + m, 60, s);
    assert t == (24 * q + h) * 3600 + u;
    Hex.DivModUnique(24 * q + h, 3600, u);
  }

  /** The broken-down time: the fields of struct tm that epoch_to_tm writes. */
  class Tm {
    var sec: int
    var min: int
    var hour: int
    var mday: int
    var mon: int
    var year: int

    constructor ()
      ensures sec == 0 && min == 0 && hour == 0 && mday == 0 && mon == 0 && year == 0
    {
      sec, min, hour, mday, mon, year := 0, 0, 0, 0, 0, 0;
    }

    /** The day count from the epoch that the date fields name. */
    ghost function DayNumber(): int
      reads this
      requires year + Year0 >= EpochYear && 0 <= mon < 12
    {
      DaysBeforeYear(year + Year0) + DaysBeforeMonth(IsLeap(year + Year0), mon) + mday - 1
    }
  }

  /**
   * epoch_to_tm (lines 27-51). The time of day comes from the remainder of
   * a division by the seconds of a day; the date is found by removing
   * whole years from 1970 on, then whole months, from the day count.
   */
  method EpochToTm(timer: Epoch, tm: Tm)
    modifies tm
    ensures tm.sec == timer % 60 && tm.min == timer % 3600 / 60 && tm.hour == timer % SecsPerDay / 3600
    ensures 0 <= tm.sec < 60 && 0 <= tm.min < 60 && 0 <= tm.hour < 24
    ensures tm.year >= EpochYear - Year0 && 0 <= tm.mon < 12
    ensures 1 <= tm.mday <= MonthLength(IsLeap(tm.year + Year0), tm.mon)
    ensures tm.DayNumber() == timer / SecsPerDay
  {
    var dayclock := timer % SecsPerDay;
    var dayno := timer / SecsPerDay;

    TimeOfDay(timer);
    tm.sec := dayclock % 60;
    tm.min := (dayclock % 3600) / 60;
    tm.hour := dayclock / 3600;
    var year;
    year, dayno := SplitYears(dayno);
    tm.year := year - Year0;
    SplitMonths(year, dayno, tm);
  }

  /** The year loop of epoch_to_tm (lines 30, 38-41): whole years are removed from the day count. */
  method SplitYears(days: nat) returns (year: int, dayno: nat)
    ensures year >= EpochYear && dayno < YearSize(year)
    ensures DaysBeforeYear(year) + dayno == days
  {
    year := EpochYear;
    dayno := days;
    while dayno >= YearSize(year)
      invariant year >= EpochYear
      invariant DaysBeforeYear(year) + dayno == days
      decreases dayno
    {
      dayno := dayno - YearSize(year);
      year := year + 1;
    }
  }

  /**
   * The month loop of epoch_to_tm (lines 43-50): whole months of `year`
   * are removed from the day of the year; what remains is the day of the
   * month. The month never runs past December.
   */
  method SplitMonths(year: int, dayno: nat, tm: Tm)
    requires dayno < YearSize(year)
    modifies tm
    ensures 0 <= tm.mon < 12 && 1 <= tm.mday <= MonthLength(IsLeap(year), tm.mon)
    ensures DaysBeforeMonth(IsLeap(year), tm.mon) + tm.mday - 1 == dayno
    ensures tm.sec == old(tm.sec) && tm.min == old(tm.min) && tm.hour == old(tm.hour)
    ensures tm.year == old(tm.year)
  {
    var rest: nat := dayno;
    tm.mon := 0;
    MonthsFillYear(year);
    while rest >= MonthLength(IsLeap(year), tm.mon)
      invariant 0 <= tm.mon < 12
      invariant DaysBeforeMonth(IsLeap(year), tm.mon) + rest == dayno
      invariant tm.sec == old(tm.sec) && tm.min == old(tm.min) && tm.hour == old(tm.hour)
      invariant tm.year == old(tm.year)
      decreases rest
    {
      rest := rest - MonthLength(IsLeap(year), tm.mon);
      tm.mon := tm.mon + 1;
    }
    tm.mday := rest + 1;
  }

  /** Each year's days come after those of every earlier year. */
  lemma {:induction false} DaysBeforeYearGrows(y1: int, y2: int)
    requires EpochYear <= y1 < y2
    ensures DaysBeforeYear(y1) + YearSize(y1) <= DaysBeforeYear(y2)
    decreases y2 - y1
  {
    if y2 > y1 + 1 {
      DaysBeforeYearGrows(y1, y2 - 1);
    }
  }

  /** Each month's days come after those of every earlier month. */
  lemma {:induction false} DaysBeforeMonthGrows(leap: bool, m1: int, m2: int)
    requires 0 <= m1 < m2 <= 12
    ensures DaysBeforeMonth(leap, m1) + MonthLength(leap, m1) <= DaysBeforeMonth(leap, m2)
    decreases m2 - m1
  {
    if m2 > m1 + 1 {
      DaysBeforeMonthGrows(leap, m1, m2 - 1);
    }
  }

  /** A valid date within its year falls inside that year's days. */
  lemma DayWithinYear(year: int, mon: int, mday: int)
    requires 0 <= mon < 12 && 1 <= mday <= MonthLength(IsLeap(year), mon)
    ensures DaysBeforeMonth(IsLeap(year), mon) + mday - 1 < YearSize(year)
  {
    MonthsFillYear(year);
    DaysBeforeMonthGrows(IsLeap(year), mon, 12);
  }

  /**
   * The broken-down date is determined by the day count: two valid dates
   * (month in range, day within its month, from 1970 on) that name the
   * same day are the same date. So epoch_to_tm's result is the only one
   * its contract admits.
   */
  lemma DateUnique(y1: int, m1: int, d1: int, y2: int, m2: int, d2: int)
    requires y1 >= EpochYear && 0 <= m1 < 12 && 1 <= d1 <= MonthLength(IsLeap(y1), m1)
    requires y2 >= EpochYear && 0 <= m2 < 12 && 1 <= d2 <= MonthLength(IsLeap(y2), m2)
    requires DaysBeforeYear(y1) + DaysBeforeMonth(IsLeap(y1), m1) + d1
          == DaysBeforeYear(y2) + DaysBeforeMonth(IsLeap(y2), m2) + d2
    ensures y1 == y2 && m1 == m2 && d1 == d2
  {
    DayWithinYear(y1, m1, d1);
    DayWithinYear(y2, m2, d2);
    if y1 < y2 {
      DaysBeforeYearGrows(y1, y2);
    } else if y2 < y1 {
      DaysBeforeYearGrows(y2, y1);
    }
    assert y1 == y2;
    if m1 < m2 {
      DaysBeforeMonthGrows(IsLeap(y1), m1, m2);
    } else if m2 < m1 {
      DaysBeforeMonthGrows(IsLeap(y1), m2, m1);
    }
  }
}
