/** `mkgmtime` of nc2nds/date_util.h: broken-down UTC time to seconds since
    1970-01-01 00:00:00, the inverse of `gmtime`. `time_t` and `int` are
    modelled as unbounded integers. */
module GmTime {
  import opened CivilCalendar

  const SECONDS_PER_MINUTE: int := 60
  const SECONDS_PER_HOUR: int := 3600
  const SECONDS_PER_DAY: int := 86400

  /** The fields of `struct tm` that `mkgmtime` reads: `tm_mon` counts months
      from 0 and `tm_year` years from 1900. */
  datatype Tm = Tm(sec: int, min: int, hour: int, mday: int, mon: int, year: int)

  /** Days of the first `mon` months of `year` (all twelve from 12 on). */
  function DaysBeforeMonth(year: int, mon: int): (r: int)
    requires mon <= 12
    ensures 0 <= r <= YearLength(year)
    ensures 1 <= mon <= 11 ==> r == DaysFromCivil(year, mon + 1, 1) - DaysFromCivil(year, 1, 1)
  {
    if mon <= 0 then 0
    else if mon == 12 then
      NewYearStep(year);
      DecemberStep(year);
      WithinYear(year, 12, 1);
      YearLength(year)
    else
      WithinYear(year, mon + 1, 1);
      DaysFromCivil(year, mon + 1, 1) - DaysFromCivil(year, 1, 1)
  }

  /** The intended value of `mkgmtime`: seconds since the epoch, with
      out-of-range days, hours, minutes and seconds carried as plain offsets. */
  function EpochSeconds(year: int, mon: int, mday: int, hour: int, min: int, sec: int): int
    requires mon <= 12
  {
    (DaysFromCivil(year, 1, 1) + DaysBeforeMonth(year, mon) + mday - 1) * SECONDS_PER_DAY
    + hour * SECONDS_PER_HOUR + min * SECONDS_PER_MINUTE + sec
  }

  /** Days that the year loop of `mkgmtime` adds: those from 1970 to the year,
      and none for a year before 1970. */
  function ElapsedYearDays(year: int): (r: int)
    ensures r >= 0
    ensures r == 0 <==> year <= 1970
  {
    NewYearSign(year);
    if year <= 1970 then 0
    else
      NewYearStep(1970);
      assert DaysFromCivil(1970, 1, 1) == 0;
      NewYearSign(year - 1);
      NewYearStep(year - 1);
      DaysFromCivil(year, 1, 1)
  }

  /** What `mkgmtime` computes for `tm`, as written. */
  function MkGmTimeValue(tm: Tm): int
    requires tm.mon <= 12
  {
    (ElapsedYearDays(tm.year + 1900) + DaysBeforeMonth(tm.year + 1900, tm.mon) + tm.mday - 1) * SECONDS_PER_DAY
    + tm.hour * SECONDS_PER_HOUR + tm.min * SECONDS_PER_MINUTE + tm.sec
  }

  /** From December 1 to the next January 1 is 31 days. */
  lemma DecemberStep(y: int)
    ensures DaysFromCivil(y + 1, 1, 1) == DaysFromCivil(y, 12, 1) + 31
  {
    DecomposeDays(y + 1, 1, 1);
    DecomposeDays(y, 12, 1);
  }

  /** One turn of the month loop adds the month's length, February's leap day
      included: `DaysOfMonth[m]` plus one for February of a leap year. */
  lemma DaysBeforeMonthStep(year: int, m: int)
    requires 0 <= m <= 11
    ensures DaysBeforeMonth(year, m + 1)
            == DaysBeforeMonth(year, m) + COMMON_YEAR_MONTHS[m] + (if m == 1 && IsLeap(year) then 1 else 0)
  {
    if m == 11 {
      DecemberDays(year);
    } else if m > 0 {
      var next := m + 1;
      InnerMonthDays(year, m, next);
    } else {
      MonthStep(year, 1);
    }
  }

  /** December closes the year: the days before it plus 31 are the whole year. */
  lemma DecemberDays(year: int)
    ensures DaysBeforeMonth(year, 12) == DaysBeforeMonth(year, 11) + 31
  {
    NewYearStep(year);
    DecemberStep(year);
    MonthStep(year, 11);
  }

  /** `DaysBeforeMonthStep` for February to November. */
  lemma InnerMonthDays(year: int, m: int, next: int)
    requires 1 <= m <= 10 && next == m + 1
    ensures DaysBeforeMonth(year, next)
            == DaysBeforeMonth(year, m) + COMMON_YEAR_MONTHS[m] + (if m == 1 && IsLeap(year) then 1 else 0)
  {
    var after := next + 1;
    MonthsBefore(year, m, next);
    MonthsBefore(year, next, after);
    MonthStep(year, next);
    MonthLengthAt(year, next, m);
  }

  /** The days before month `mon` reach the first of the month after it. */
  lemma MonthsBefore(year: int, mon: int, after: int)
    requires 1 <= mon <= 11 && after == mon + 1
    ensures DaysBeforeMonth(year, mon) == DaysFromCivil(year, after, 1) - DaysFromCivil(year, 1, 1)
  {
  }

  /** `last_day_of_month` against the month table that `mkgmtime` reads, at index `idx`. */
  lemma MonthLengthAt(year: int, mon: int, idx: int)
    requires 1 <= mon <= 12 && idx == mon - 1
    ensures LastDayOfMonth(year, mon) == COMMON_YEAR_MONTHS[idx] + (if idx == 1 && IsLeap(year) then 1 else 0)
  {
  }

  /** `mkgmtime(const struct tm *)`. The source indexes `DaysOfMonth[m]` for
      every m below `tm_mon`, so `tm_mon` may not exceed 12. */
  method MkGmTime(tm: Tm) returns (secs: int)
    requires tm.mon <= 12
    ensures secs == MkGmTimeValue(tm)
  {
    var year := tm.year + 1900;
    secs := SecondsOfYearsSince1970(year);
    var monthSecs := SecondsBeforeMonth(year, tm.mon);
    secs := secs + monthSecs;
    secs := secs + (tm.mday - 1) * SECONDS_PER_DAY;
    secs := secs + tm.hour * SECONDS_PER_HOUR;
    secs := secs + tm.min * SECONDS_PER_MINUTE;
    secs := secs + tm.sec;
  }

  /** The year loop of `mkgmtime`: a whole year of seconds for every year from
      1970 up to, not including, `year`. */
  method SecondsOfYearsSince1970(year: int) returns (secs: int)
    ensures secs == ElapsedYearDays(year) * SECONDS_PER_DAY
  {
    secs := 0;
    var y := 1970;
    assert DaysFromCivil(1970, 1, 1) == 0;
    while y < year
      invariant y >= 1970
      invariant y <= year || y == 1970
      invariant secs == DaysFromCivil(y, 1, 1) * SECONDS_PER_DAY
    {
      NewYearStep(y);
      secs := secs + (if IsLeap(y) then 366 else 365) * SECONDS_PER_DAY;
      y := y + 1;
    }
  }

  /** The month loop of `mkgmtime`: the days of the first `mon` months of
      `year`, February's leap day included, in seconds. */
  method SecondsBeforeMonth(year: int, mon: int) returns (secs: int)
    requires mon <= 12
    ensures secs == DaysBeforeMonth(year, mon) * SECONDS_PER_DAY
  {
    secs := 0;
    var m := 0;
    while m < mon
      invariant 0 <= m && (m <= mon || m == 0)
      invariant secs == DaysBeforeMonth(year, m) * SECONDS_PER_DAY
    {
      var next := m + 1;
      SecondsBeforeMonthStep(year, m, next, secs);
      secs := secs + COMMON_YEAR_MONTHS[m] * SECONDS_PER_DAY;
      if m == 1 && IsLeap(year) {
        secs := secs + SECONDS_PER_DAY;
      }
      m := next;
    }
  }

  /** One turn of the month loop, in seconds. */
  lemma SecondsBeforeMonthStep(year: int, m: int, next: int, secs: int)
    requires 0 <= m <= 11 && next == m + 1 && secs == DaysBeforeMonth(year, m) * SECONDS_PER_DAY
    ensures m == 1 && IsLeap(year) ==>
              secs + COMMON_YEAR_MONTHS[m] * SECONDS_PER_DAY + SECONDS_PER_DAY == DaysBeforeMonth(year, next) * SECONDS_PER_DAY
    ensures !(m == 1 && IsLeap(year)) ==>
              secs + COMMON_YEAR_MONTHS[m] * SECONDS_PER_DAY == DaysBeforeMonth(year, next) * SECONDS_PER_DAY
  {
    DaysBeforeMonthStep(year, m);
  }

  /** `mkgmtime(year, mon, mday, hour, min, sec)`: the same with a month counted
      from 1 and a full year; for a date from 1970 on it is the number of
      seconds since the epoch. */
  method MkGmTimeOf(year: int, mon: int, mday: int, hour: int, min: int, sec: int) returns (secs: int)
    requires mon <= 13
    ensures secs == MkGmTimeValue(Tm(sec, min, hour, mday, mon - 1, year - 1900))
    ensures year >= 1970 && 1 <= mon <= 12 && 1 <= mday <= LastDayOfMonth(year, mon) ==>
              secs == DaysFromCivil(year, mon, mday) * SECONDS_PER_DAY
                      + hour * SECONDS_PER_HOUR + min * SECONDS_PER_MINUTE + sec
  {
    var time := Tm(sec, min, hour, mday, mon - 1, year - 1900);
    secs := MkGmTime(time);
    if year >= 1970 && 1 <= mon <= 12 && 1 <= mday <= LastDayOfMonth(year, mon) {
      MkGmTimeFromEpoch(time);
      EpochSecondsOfDate(year, mon - 1, mday, hour, min, sec);
    }
  }

  /** From 1970 on, `mkgmtime` computes the intended value. */
  lemma MkGmTimeFromEpoch(tm: Tm)
    requires tm.mon <= 12 && tm.year + 1900 >= 1970
    ensures MkGmTimeValue(tm) == EpochSeconds(tm.year + 1900, tm.mon, tm.mday, tm.hour, tm.min, tm.sec)
  {
    var year := tm.year + 1900;
    if year == 1970 {
      assert DaysFromCivil(1970, 1, 1) == 0;
    }
  }

  /** Before 1970 `mkgmtime` forgets the years between the date and the epoch:
      the last day of 1969 comes out 364 days after the epoch, not one before. */
  lemma MkGmTimeBefore1970()
    ensures MkGmTimeValue(Tm(0, 0, 0, 31, 11, 69)) == 364 * SECONDS_PER_DAY
    ensures EpochSeconds(1969, 11, 31, 0, 0, 0) == -SECONDS_PER_DAY
  {
    DecemberStep(1969);
    assert DaysFromCivil(1970, 1, 1) == 0;
    assert ElapsedYearDays(1969) == 0;
    assert DaysBeforeMonth(1969, 11) == DaysFromCivil(1969, 12, 1) - DaysFromCivil(1969, 1, 1);
    NewYearStep(1969);
  }

  /** `mkgmtime` with the years before 1970 subtracted: the intended value for
      every year. */
  method MkGmTimeSigned(tm: Tm) returns (secs: int)
    requires tm.mon <= 12
    ensures secs == EpochSeconds(tm.year + 1900, tm.mon, tm.mday, tm.hour, tm.min, tm.sec)
  {
    var year := tm.year + 1900;
    secs := SecondsToNewYear(year);
    var monthSecs := SecondsBeforeMonth(year, tm.mon);
    secs := secs + monthSecs;
    secs := secs + (tm.mday - 1) * SECONDS_PER_DAY;
    secs := secs + tm.hour * SECONDS_PER_HOUR;
    secs := secs + tm.min * SECONDS_PER_MINUTE;
    secs := secs + tm.sec;
  }

  /** The year loop of `MkGmTimeSigned`: counts whole years forward from 1970,
      or backward to a year before it. */
  method SecondsToNewYear(year: int) returns (secs: int)
    ensures secs == DaysFromCivil(year, 1, 1) * SECONDS_PER_DAY
  {
    secs := 0;
    var y := 1970;
    assert DaysFromCivil(1970, 1, 1) == 0;
    while y < year
      invariant 1970 <= y && (y <= year || y == 1970)
      invariant secs == DaysFromCivil(y, 1, 1) * SECONDS_PER_DAY
    {
      NewYearStep(y);
      secs := secs + YearLength(y) * SECONDS_PER_DAY;
      y := y + 1;
    }
    while y > year
      invariant year <= y
      invariant secs == DaysFromCivil(y, 1, 1) * SECONDS_PER_DAY
    {
      NewYearStep(y - 1);
      secs := secs - YearLength(y - 1) * SECONDS_PER_DAY;
      y := y - 1;
    }
  }

  /** For a valid date the intended value is `days_from_civil` in seconds plus
      the time of day. */
  lemma EpochSecondsOfDate(year: int, mon: int, mday: int, hour: int, min: int, sec: int)
    requires 0 <= mon <= 11 && 1 <= mday <= LastDayOfMonth(year, mon + 1)
    ensures EpochSeconds(year, mon, mday, hour, min, sec)
            == DaysFromCivil(year, mon + 1, mday) * SECONDS_PER_DAY
               + hour * SECONDS_PER_HOUR + min * SECONDS_PER_MINUTE + sec
  {
    DayStep(year, mon + 1, mday);
  }

  /** `gmtime` undoes the intended `mkgmtime`: for a valid date and time of day,
      the day count is the date's and the remainder is the time of day. */
  lemma EpochSecondsRoundTrip(year: int, mon: int, mday: int, hour: int, min: int, sec: int)
    requires 0 <= mon <= 11 && 1 <= mday <= LastDayOfMonth(year, mon + 1)
    requires 0 <= hour < 24 && 0 <= min < 60 && 0 <= sec < 60
    ensures EpochSeconds(year, mon, mday, hour, min, sec) / SECONDS_PER_DAY == DaysFromCivil(year, mon + 1, mday)
    ensures EpochSeconds(year, mon, mday, hour, min, sec) % SECONDS_PER_DAY
            == hour * SECONDS_PER_HOUR + min * SECONDS_PER_MINUTE + sec
    ensures CivilFromDays(EpochSeconds(year, mon, mday, hour, min, sec) / SECONDS_PER_DAY)
            == Civil(year, mon + 1, mday)
  {
    EpochSecondsOfDate(year, mon, mday, hour, min, sec);
    var days := DaysFromCivil(year, mon + 1, mday);
    var tod := hour * SECONDS_PER_HOUR + min * SECONDS_PER_MINUTE + sec;
    TimeOfDayBounds(hour, min, sec);
    DivModOfDay(days, tod);
    assert EpochSeconds(year, mon, mday, hour, min, sec) / SECONDS_PER_DAY == days;
    CivilRoundTrip(year, mon + 1, mday);
  }

  /** A time of day in range is less than a day of seconds. */
  lemma TimeOfDayBounds(hour: int, min: int, sec: int)
    requires 0 <= hour < 24 && 0 <= min < 60 && 0 <= sec < 60
    ensures 0 <= hour * SECONDS_PER_HOUR + min * SECONDS_PER_MINUTE + sec < SECONDS_PER_DAY
  {
  }

  /** Splitting `days * 86400 + tod` back into its parts. */
  lemma DivModOfDay(days: int, tod: int)
    requires 0 <= tod < SECONDS_PER_DAY
    ensures (days * SECONDS_PER_DAY + tod) / SECONDS_PER_DAY == days
    ensures (days * SECONDS_PER_DAY + tod) % SECONDS_PER_DAY == tod
  {
  }
}
