/** Proleptic Gregorian calendar arithmetic of nc2nds/date_util.h
    (Howard Hinnant's `days_from_civil` / `civil_from_days` and friends).

    The source is a template over a signed integer type `Int`; the model uses
    unbounded `int` for `Int` and `nat` for the `unsigned` month and day.
    Years and day counts are counted from March 1 internally ("shifted" years
    whose last month is February), exactly as the source does. */
module CivilCalendar {
  import opened CArith

  /** A calendar date: the `std::tuple<Int, unsigned, unsigned>` of the source. */
  datatype Civil = Civil(year: int, month: nat, day: nat)

  /** `is_leap`, the Gregorian rule. The source tests the C++ remainder for
      zero; IsLeapCpp shows that this agrees with the Euclidean remainder used
      here, for negative years too. */
  predicate IsLeap(y: int)
  {
    y % 4 == 0 && (y % 100 != 0 || y % 400 == 0)
  }

  /** Negation keeps a year divisible by 4, 100 or 400, or not. */
  lemma NegatedMultiple4(y: int)
    ensures y % 4 == 0 <==> (-y) % 4 == 0
  {
    if y % 4 == 0 {
      assert -y == 4 * -(y / 4);
    }
    if (-y) % 4 == 0 {
      assert y == 4 * -((-y) / 4);
    }
  }

  lemma NegatedMultiple100(y: int)
    ensures y % 100 == 0 <==> (-y) % 100 == 0
  {
    if y % 100 == 0 {
      assert -y == 100 * -(y / 100);
    }
    if (-y) % 100 == 0 {
      assert y == 100 * -((-y) / 100);
    }
  }

  lemma NegatedMultiple400(y: int)
    ensures y % 400 == 0 <==> (-y) % 400 == 0
  {
    if y % 400 == 0 {
      assert -y == 400 * -(y / 400);
    }
    if (-y) % 400 == 0 {
      assert y == 400 * -((-y) / 400);
    }
  }

  /** `is_leap` as written in C++, with truncating `%`, is the same predicate. */
  lemma IsLeapCpp(y: int)
    ensures IsLeap(y) <==> CRem(y, 4) == 0 && (CRem(y, 100) != 0 || CRem(y, 400) == 0)
  {
    NegatedMultiple4(y);
    NegatedMultiple100(y);
    NegatedMultiple400(y);
  }

  /** Number of days of calendar year y. */
  function YearLength(y: int): int
  {
    if IsLeap(y) then 366 else 365
  }

  const COMMON_YEAR_MONTHS: seq<nat> := [31, 28, 31, 30, 31, 30, 31, 31, 30, 31, 30, 31]
  const LEAP_YEAR_MONTHS: seq<nat> := [31, 29, 31, 30, 31, 30, 31, 31, 30, 31, 30, 31]

  /** `last_day_of_month_common_year` */
  function LastDayOfMonthCommonYear(m: nat): (r: nat)
    requires 1 <= m <= 12
    ensures 28 <= r <= 31
    ensures r == 28 <==> m == 2
  {
    COMMON_YEAR_MONTHS[m - 1]
  }

  /** `last_day_of_month_leap_year` */
  function LastDayOfMonthLeapYear(m: nat): (r: nat)
    requires 1 <= m <= 12
    ensures 29 <= r <= 31
    ensures r == 29 <==> m == 2
    ensures r == LastDayOfMonthCommonYear(m) + (if m == 2 then 1 else 0)
  {
    LEAP_YEAR_MONTHS[m - 1]
  }

  /** `last_day_of_month` */
  function LastDayOfMonth(y: int, m: nat): (r: nat)
    requires 1 <= m <= 12
    ensures 28 <= r <= 31
    ensures r == 29 <==> m == 2 && IsLeap(y)
    ensures r == if IsLeap(y) then LastDayOfMonthLeapYear(m) else LastDayOfMonthCommonYear(m)
  {
    if m != 2 || !IsLeap(y) then LastDayOfMonthCommonYear(m) else 29
  }

  /** The documented precondition of `days_from_civil`. */
  predicate ValidDate(y: int, m: nat, d: nat)
  {
    1 <= m <= 12 && 1 <= d <= LastDayOfMonth(y, m)
  }

  /** `era` of `days_from_civil`: floor division of the year by 400.
      EraOfYearAsWritten shows that the source's biased truncating division
      computes the same. */
  function EraOfYear(y: int): (era: int)
    ensures era * 400 <= y < era * 400 + 400
  {
    y / 400
  }

  /** `(y >= 0 ? y : y-399) / 400` with C++ truncating division is floor division. */
  lemma EraOfYearAsWritten(y: int)
    ensures EraOfYear(y) == CDiv(if y >= 0 then y else y - 399, 400)
  {
    var q := CDiv(if y >= 0 then y else y - 399, 400);
    EraOfYearUnique(q, y);
  }

  /** `era` of `civil_from_days`: floor division by 146097, the days of 400
      years. EraOfDayAsWritten shows that the source's expression computes it. */
  function EraOfDay(z: int): (era: int)
    ensures era * 146097 <= z < era * 146097 + 146097
  {
    z / 146097
  }

  /** `(z >= 0 ? z : z - 146096) / 146097` with C++ truncating division is floor division. */
  lemma EraOfDayAsWritten(z: int)
    ensures EraOfDay(z) == CDiv(if z >= 0 then z else z - 146096, 146097)
  {
    var q := CDiv(if z >= 0 then z else z - 146096, 146097);
    EraOfDayUnique(q, z);
  }

  /** Days from March 1 of year 0 of an era to March 1 of its year `yoe`. */
  function YearStart(yoe: int): int
  {
    yoe * 365 + yoe / 4 - yoe / 100
  }

  /** The year that starts in March: January and February belong to the previous one. */
  function ShiftedYear(y: int, m: nat): int
  {
    if m <= 2 then y - 1 else y
  }

  /** Month counted from March: March is 0, February is 11. */
  function ShiftedMonth(m: nat): int
    requires 1 <= m <= 12
  {
    if m > 2 then m - 3 else m + 9
  }

  /** Days from March 1 to the first day of March-based month `mp`. */
  function MonthStart(mp: int): int
  {
    (153 * mp + 2) / 5
  }

  /** `doy` of `days_from_civil`: the day of the March-based year. */
  function DayOfYear(m: nat, d: nat): int
    requires 1 <= m <= 12
  {
    MonthStart(ShiftedMonth(m)) + d - 1
  }

  /** `days_from_civil`: days since 1970-01-01 (negative before it). The
      source documents a valid date as its precondition; the computation only
      needs a month in [1, 12] and a day for which no `unsigned` intermediate
      wraps, which any day of [1, 31] satisfies. Day 0 is 1970-01-01. */
  function DaysFromCivil(y: int, m: nat, d: nat): (z: int)
    requires 1 <= m <= 12 && 1 <= d <= 31
    ensures y == 1970 && m == 1 && d == 1 ==> z == 0
  {
    var y' := ShiftedYear(y, m);
    var era := EraOfYear(y');
    var yoe := y' - era * 400;               // [0, 399]
    var doy := DayOfYear(m, d);              // [0, 365]
    var doe := YearStart(yoe) + doy;         // [0, 146096]
    era * 146097 + doe - 719468
  }

  /** `yoe` of `civil_from_days`: the year of the era that contains day `doe`. */
  function YearOfEra(doe: int): int
  {
    (doe - doe / 1460 + doe / 36524 - doe / 146096) / 365
  }

  /** `mp` of `civil_from_days`: the March-based month that contains day `doy`. */
  function MonthOfYear(doy: int): int
  {
    (5 * doy + 2) / 153
  }

  /** `civil_from_days`: the date `z` days after 1970-01-01. It is written in
      three stages: the era, the year of the era, the day of the year. */
  function CivilFromDays(z: int): (c: Civil)
    ensures 1 <= c.month <= 12 && 1 <= c.day <= 31
  {
    var z' := z + 719468;
    var era := EraOfDay(z');
    CivilOfEraDayValid(era, z' - era * 146097);
    CivilOfEraDay(era, z' - era * 146097)    // doe in [0, 146096]
  }

  /** Second stage of `civil_from_days`: day `doe` of era `era`. */
  function CivilOfEraDay(era: int, doe: int): (c: Civil)
    requires 0 <= doe <= 146096
    ensures 1 <= c.month <= 12 && 1 <= c.day <= 31
  {
    YearOfEraBounds(doe);
    var yoe := YearOfEra(doe);               // [0, 399]
    CivilOfYearDay(yoe + era * 400, doe - YearStart(yoe))   // doy in [0, 365]
  }

  /** Last stage of `civil_from_days`: day `doy` of the March-based year `y`. */
  function CivilOfYearDay(y: int, doy: int): (c: Civil)
    requires 0 <= doy <= 365
    ensures 1 <= c.month <= 12 && 1 <= c.day <= 31
  {
    MonthOfYearBounds(doy);
    var mp := MonthOfYear(doy);              // [0, 11]
    var d := doy - MonthStart(mp) + 1;       // [1, 31]
    var m := if mp < 10 then mp + 3 else mp - 9;  // [1, 12]
    Civil(if m <= 2 then y + 1 else y, m, d)
  }

  // ---------------------------------------------------------------------------
  // Arithmetic facts behind the two conversions

  /** Adding whole eras does not change a year's remainder by 4, 100 or 400. */
  lemma Rem4Shift(y: int, era: int)
    ensures (y + era * 400) % 4 == y % 4
  {
    assert y + era * 400 == 4 * (y / 4 + 100 * era) + y % 4;
  }

  lemma Rem100Shift(y: int, era: int)
    ensures (y + era * 400) % 100 == y % 100
  {
    assert y + era * 400 == 100 * (y / 100 + 4 * era) + y % 100;
  }

  lemma Rem400Shift(y: int, era: int)
    ensures (y + era * 400) % 400 == y % 400
  {
    assert y + era * 400 == 400 * (y / 400 + era) + y % 400;
  }

  /** Leap years repeat every 400 years. */
  lemma LeapPeriodic(y: int, era: int, shifted: int)
    requires shifted == y + era * 400
    ensures IsLeap(shifted) == IsLeap(y)
    ensures YearLength(shifted) == YearLength(y)
  {
    Rem4Shift(y, era);
    Rem100Shift(y, era);
    Rem400Shift(y, era);
  }

  /** The length of each March-based month is the difference of consecutive
      month starts; for every month but February it is the common-year length. */
  lemma MonthLengths(m: nat)
    requires 1 <= m <= 12
    ensures m != 2 ==> MonthStart(ShiftedMonth(m) + 1) - MonthStart(ShiftedMonth(m)) == LastDayOfMonthCommonYear(m)
    ensures MonthStart(11) == 337 && MonthStart(10) == 306
  {
  }

  /** Consecutive March-based years of an era start YearLength apart. */
  lemma YearStartStep(a: int)
    requires 0 <= a <= 398
    ensures YearStart(a + 1) == YearStart(a) + YearLength(a + 1)
  {
    assert (a + 1) / 4 - a / 4 == (if (a + 1) % 4 == 0 then 1 else 0);
    assert (a + 1) / 100 - a / 100 == (if (a + 1) % 100 == 0 then 1 else 0);
  }

  /** Later years of an era start at least one year length later. */
  lemma YearStartGrows(a: int, b: int)
    requires 0 <= a < b <= 399
    ensures YearStart(a) + YearLength(a + 1) <= YearStart(b)
  {
    if b == a + 1 {
      YearStartStep(a);
    } else {
      assert a / 4 <= b / 4;
      assert b / 100 <= 3;
    }
  }

  /** `yoe` of a day given by its 100-year, 4-year and day-in-4-years parts. */
  lemma YearOfEraParts(doe: int, c: int, q: int, r2: int)
    requires 0 <= c <= 3 && 0 <= q <= 24 && 0 <= r2 <= 1460
    requires q == 24 ==> r2 <= 1459
    requires doe == 36524 * c + 1461 * q + r2
    ensures YearOfEra(doe) == 100 * c + 4 * q + (if r2 == 1460 then 3 else r2 / 365)
  {
    var s := if r2 == 1460 then 3 else r2 / 365;
    var e := if 24 * c + q + r2 >= 1460 then 1 else 0;
    assert doe / 1460 == 25 * c + q + e;
    assert doe / 36524 == c;
    assert doe / 146096 == 0;
    assert (r2 - e) / 365 == s;
    assert doe - doe / 1460 + doe / 36524 - doe / 146096 == 365 * (100 * c + 4 * q) + (r2 - e);
  }

  /** Start of a year of an era given by its 100-year, 4-year and single-year parts. */
  lemma YearStartParts(c: int, q: int, s: int)
    requires 0 <= c <= 3 && 0 <= q <= 24 && 0 <= s <= 3
    ensures YearStart(100 * c + 4 * q + s) == 36524 * c + 1461 * q + 365 * s
  {
    var yoe := 100 * c + 4 * q + s;
    assert yoe / 4 == 25 * c + q;
    assert yoe / 100 == c;
  }

  /** The comment ranges of `civil_from_days` for `yoe`, and that `doe` lies in
      March-based year `yoe` of its era. */
  lemma YearOfEraBounds(doe: int)
    requires 0 <= doe <= 146096
    ensures 0 <= YearOfEra(doe) <= 399
    ensures YearStart(YearOfEra(doe)) <= doe < YearStart(YearOfEra(doe)) + YearLength(YearOfEra(doe) + 1)
  {
    if doe == 146096 {
      assert YearOfEra(doe) == 399;
      assert YearStart(399) == 145731;
    } else {
      var c := doe / 36524;
      var r1 := doe % 36524;
      var q := r1 / 1461;
      var r2 := r1 % 1461;
      assert 0 <= c <= 3;
      assert q <= 24 && (q == 24 ==> r2 <= 1459);
      YearOfEraInQuad(doe, c, q, r2);
    }
  }

  /** `YearOfEraBounds` for a day that lies in the four-year cycle `q` of
      century `c`, at offset `r2` into that cycle. */
  lemma YearOfEraInQuad(doe: int, c: int, q: int, r2: int)
    requires 0 <= c <= 3 && 0 <= q <= 24 && 0 <= r2 <= 1460
    requires q == 24 ==> r2 <= 1459
    requires doe == 36524 * c + 1461 * q + r2
    ensures 0 <= YearOfEra(doe) <= 399
    ensures YearStart(YearOfEra(doe)) <= doe < YearStart(YearOfEra(doe)) + YearLength(YearOfEra(doe) + 1)
  {
    var s := if r2 == 1460 then 3 else r2 / 365;
    YearOfEraParts(doe, c, q, r2);
    YearStartParts(c, q, s);
    if r2 == 1460 {
      QuadEndIsLeap(c, q);
    }
  }

  /** The year that ends a four-year cycle other than a century's last is a leap year. */
  lemma QuadEndIsLeap(c: int, q: int)
    requires 0 <= c <= 3 && 0 <= q <= 23
    ensures IsLeap(100 * c + 4 * q + 4)
  {
    var y := 100 * c + 4 * q + 4;
    assert y == 4 * (25 * c + q + 1);
    assert y % 100 != 0;
  }

  /** The comment ranges of `civil_from_days` for `mp` and `d`. */
  lemma MonthOfYearBounds(doy: int)
    requires 0 <= doy <= 365
    ensures 0 <= MonthOfYear(doy) <= 11
    ensures MonthStart(MonthOfYear(doy)) <= doy
    ensures MonthOfYear(doy) < 11 ==> doy < MonthStart(MonthOfYear(doy) + 1)
  {
  }

  /** The last stage of `civil_from_days` yields a valid date. */
  lemma CivilOfYearDayValid(y: int, doy: int)
    requires 0 <= doy < YearLength(y + 1)
    ensures var c := CivilOfYearDay(y, doy); ValidDate(c.year, c.month, c.day)
  {
    MonthOfYearBounds(doy);
    var mp := MonthOfYear(doy);
    var m := if mp < 10 then mp + 3 else mp - 9;
    MonthLengths(m);
  }

  /** The two last stages of `civil_from_days` yield a valid date. */
  lemma CivilOfEraDayValid(era: int, doe: int)
    requires 0 <= doe <= 146096
    ensures var c := CivilOfEraDay(era, doe); ValidDate(c.year, c.month, c.day)
  {
    YearOfEraBounds(doe);
    var yoe := YearOfEra(doe);
    var yp := yoe + era * 400;
    LeapPeriodic(yoe + 1, era, yp + 1);
    CivilOfYearDayValid(yp, doe - YearStart(yoe));
  }

  /** March-based month starts grow with the month. */
  lemma MonthStartMonotone(a: int, b: int)
    requires a <= b
    ensures MonthStart(a) <= MonthStart(b)
  {
  }

  /** The comment ranges of `days_from_civil`: `yoe` in [0, 399], `doy` in
      [0, 365] and below the length of its March-based year, `doe` in [0, 146096]. */
  lemma DaysFromCivilRanges(y: int, m: nat, d: nat)
    requires ValidDate(y, m, d)
    ensures var y' := ShiftedYear(y, m);
            var yoe := y' - EraOfYear(y') * 400;
            && 0 <= yoe <= 399
            && 0 <= DayOfYear(m, d) < YearLength(yoe + 1)
            && 0 <= YearStart(yoe) + DayOfYear(m, d) <= 146096
  {
    var y' := ShiftedYear(y, m);
    var era := EraOfYear(y');
    var yoe := y' - era * 400;
    LeapPeriodic(yoe + 1, era, y' + 1);
    MonthLengths(m);
    if m > 2 {
      MonthStartMonotone(ShiftedMonth(m) + 1, 10);
    }
    if yoe < 399 {
      YearStartGrows(yoe, 399);
    }
  }

  /** Floor division by 400 has one answer. */
  lemma EraOfYearUnique(era: int, y: int)
    requires era * 400 <= y < era * 400 + 400
    ensures EraOfYear(y) == era
  {
  }

  /** Floor division by 146097 has one answer. */
  lemma EraOfDayUnique(era: int, z: int)
    requires era * 146097 <= z < era * 146097 + 146097
    ensures EraOfDay(z) == era
  {
  }

  /** Only one year of an era contains a given day of the era. */
  lemma YearOfEraUnique(yoe: int, doe: int)
    requires 0 <= yoe <= 399
    requires YearStart(yoe) <= doe < YearStart(yoe) + YearLength(yoe + 1)
    ensures YearOfEra(doe) == yoe
  {
    YearOfEraBounds(doe);
    var r := YearOfEra(doe);
    if r < yoe {
      YearStartGrows(r, yoe);
    } else if r > yoe {
      YearStartGrows(yoe, r);
    }
  }

  /** The month of a valid date's day of year is the date's own month. */
  lemma MonthOfYearUnique(y: int, m: nat, d: nat)
    requires ValidDate(y, m, d)
    ensures MonthOfYear(DayOfYear(m, d)) == ShiftedMonth(m)
  {
    DaysFromCivilRanges(y, m, d);
    var doy := DayOfYear(m, d);
    MonthOfYearBounds(doy);
    var mp := MonthOfYear(doy);
    var sm := ShiftedMonth(m);
    MonthLengths(m);
    if mp < sm {
      MonthStartMonotone(mp + 1, sm);
    } else if mp > sm {
      MonthStartMonotone(sm + 1, mp);
    }
  }

  /** The last stage of `civil_from_days` inverts the day-of-year computation. */
  lemma CivilOfYearDayInverse(y: int, m: nat, d: nat)
    requires ValidDate(y, m, d)
    ensures 0 <= DayOfYear(m, d) < YearLength(ShiftedYear(y, m) + 1)
    ensures CivilOfYearDay(ShiftedYear(y, m), DayOfYear(m, d)) == Civil(y, m, d)
  {
    DaysFromCivilRanges(y, m, d);
    var y' := ShiftedYear(y, m);
    LeapPeriodic(y' - EraOfYear(y') * 400 + 1, EraOfYear(y'), y' + 1);
    MonthOfYearUnique(y, m, d);
  }

  /** The first stage of `civil_from_days` splits a day count into era and day of era. */
  lemma CivilFromDaysOfEra(z: int, era: int, doe: int)
    requires 0 <= doe <= 146096 && z + 719468 == era * 146097 + doe
    ensures CivilFromDays(z) == CivilOfEraDay(era, doe)
  {
    EraOfDayUnique(era, z + 719468);
    var z' := z + 719468;
    assert z' - EraOfDay(z') * 146097 == doe;
  }

  /** The second stage of `civil_from_days` splits a day of an era into year and day of year. */
  lemma CivilOfEraDayOfYear(era: int, yoe: int, doy: int, doe: int, yp: int)
    requires 0 <= yoe <= 399 && 0 <= doy < YearLength(yoe + 1)
    requires doe == YearStart(yoe) + doy && doe <= 146096
    requires yp == yoe + era * 400
    ensures 0 <= doy < YearLength(yp + 1)
    ensures CivilOfEraDay(era, doe) == CivilOfYearDay(yp, doy)
  {
    YearOfEraUnique(yoe, doe);
    LeapPeriodic(yoe + 1, era, yp + 1);
  }

  /** The first two stages of `civil_from_days` recover the March-based year
      and the day of that year that `days_from_civil` combined. */
  lemma CivilFromDaysStages(y: int, m: nat, d: nat)
    requires ValidDate(y, m, d)
    ensures 0 <= DayOfYear(m, d) < YearLength(ShiftedYear(y, m) + 1)
    ensures CivilFromDays(DaysFromCivil(y, m, d)) == CivilOfYearDay(ShiftedYear(y, m), DayOfYear(m, d))
  {
    EraStage(y, m, d);
    YearStage(y, m, d);
  }

  /** `doe` of `days_from_civil`: the day of the era of a date. */
  function DayOfEra(y: int, m: nat, d: nat): int
    requires 1 <= m <= 12
  {
    var y' := ShiftedYear(y, m);
    YearStart(y' - EraOfYear(y') * 400) + DayOfYear(m, d)
  }

  /** The first stage of `civil_from_days` on a valid date's day count finds
      the era and the day of era that `days_from_civil` combined. */
  lemma EraStage(y: int, m: nat, d: nat)
    requires ValidDate(y, m, d)
    ensures 0 <= DayOfEra(y, m, d) <= 146096
    ensures CivilFromDays(DaysFromCivil(y, m, d)) == CivilOfEraDay(EraOfYear(ShiftedYear(y, m)), DayOfEra(y, m, d))
  {
    var y' := ShiftedYear(y, m);
    var era := EraOfYear(y');
    DaysFromCivilRanges(y, m, d);
    assert DaysFromCivil(y, m, d) + 719468 == era * 146097 + DayOfEra(y, m, d);
    CivilFromDaysOfEra(DaysFromCivil(y, m, d), era, DayOfEra(y, m, d));
  }

  /** The second stage of `civil_from_days` on a valid date's day of era finds
      the March-based year and the day of that year. */
  lemma YearStage(y: int, m: nat, d: nat)
    requires ValidDate(y, m, d)
    ensures 0 <= DayOfEra(y, m, d) <= 146096
    ensures 0 <= DayOfYear(m, d) < YearLength(ShiftedYear(y, m) + 1)
    ensures CivilOfEraDay(EraOfYear(ShiftedYear(y, m)), DayOfEra(y, m, d))
            == CivilOfYearDay(ShiftedYear(y, m), DayOfYear(m, d))
  {
    var y' := ShiftedYear(y, m);
    var era := EraOfYear(y');
    var yoe := y' - era * 400;
    DaysFromCivilRanges(y, m, d);
    CivilOfEraDayOfYear(era, yoe, DayOfYear(m, d), DayOfEra(y, m, d), y');
  }

  /** Round trip: every valid date survives `days_from_civil` then `civil_from_days`. */
  lemma CivilRoundTrip(y: int, m: nat, d: nat)
    requires ValidDate(y, m, d)
    ensures CivilFromDays(DaysFromCivil(y, m, d)) == Civil(y, m, d)
  {
    CivilFromDaysStages(y, m, d);
    CivilOfYearDayInverse(y, m, d);
  }

  /** The last stage of `civil_from_days` produces a date whose March-based
      year and day of year are the ones it was given. */
  lemma CivilOfYearDayParts(yp: int, doy: int)
    requires 0 <= doy < YearLength(yp + 1)
    ensures var c := CivilOfYearDay(yp, doy);
            ShiftedYear(c.year, c.month) == yp && DayOfYear(c.month, c.day) == doy
  {
    MonthOfYearBounds(doy);
  }

  /** March 1 of year `yoe` of era `era`, as a day count. */
  lemma MarchFirstOfEra(era: int, yoe: int, yp: int)
    requires 0 <= yoe <= 399 && yp == yoe + era * 400
    ensures DaysFromCivil(yp, 3, 1) == era * 146097 + YearStart(yoe) - 719468
  {
    EraOfYearUnique(era, yp);
  }

  /** The last stage of `civil_from_days` lands `doy` days after March 1 of `yp`. */
  lemma YearDayRoundTrip(yp: int, doy: int)
    requires 0 <= doy < YearLength(yp + 1)
    ensures var c := CivilOfYearDay(yp, doy);
            ValidDate(c.year, c.month, c.day) &&
            DaysFromCivil(c.year, c.month, c.day) == DaysFromCivil(yp, 3, 1) + doy
  {
    CivilOfYearDayValid(yp, doy);
    CivilOfYearDayParts(yp, doy);
    var c := CivilOfYearDay(yp, doy);
    DecomposeDays(c.year, c.month, c.day);
  }

  /** The two last stages of `civil_from_days` land on day `doe` of era `era`. */
  lemma EraDayRoundTrip(era: int, doe: int)
    requires 0 <= doe <= 146096
    ensures var c := CivilOfEraDay(era, doe);
            ValidDate(c.year, c.month, c.day) &&
            DaysFromCivil(c.year, c.month, c.day) == era * 146097 + doe - 719468
  {
    YearOfEraBounds(doe);
    var yoe := YearOfEra(doe);
    var doy := doe - YearStart(yoe);
    var yp := yoe + era * 400;
    CivilOfEraDayOfYear(era, yoe, doy, doe, yp);
    YearDayRoundTrip(yp, doy);
    MarchFirstOfEra(era, yoe, yp);
  }

  /** Round trip: every day count survives `civil_from_days` then `days_from_civil`. */
  lemma DaysRoundTrip(z: int)
    ensures var c := CivilFromDays(z); ValidDate(c.year, c.month, c.day) && DaysFromCivil(c.year, c.month, c.day) == z
  {
    var era := EraOfDay(z + 719468);
    var doe := z + 719468 - era * 146097;
    CivilFromDaysOfEra(z, era, doe);
    EraDayRoundTrip(era, doe);
  }

  // ---------------------------------------------------------------------------
  // How the day count advances through days, months and years

  /** A date is its March-based year's March 1 plus its day of that year. */
  lemma DecomposeDays(y: int, m: nat, d: nat)
    requires 1 <= m <= 12 && 1 <= d <= 31
    ensures DaysFromCivil(y, m, d) == DaysFromCivil(ShiftedYear(y, m), 3, 1) + DayOfYear(m, d)
  {
  }

  /** From one March 1 to the next is the length of the calendar year that
      holds the February in between. */
  lemma MarchFirstStep(yp: int)
    ensures DaysFromCivil(yp + 1, 3, 1) == DaysFromCivil(yp, 3, 1) + YearLength(yp + 1)
  {
    var era := EraOfYear(yp);
    var yoe := yp - era * 400;
    if yoe <= 398 {
      MarchFirstStepInEra(era, yoe, yp);
    } else {
      MarchFirstStepAcrossEras(era, yp);
    }
  }

  /** `MarchFirstStep` for two years of the same era. */
  lemma MarchFirstStepInEra(era: int, yoe: int, yp: int)
    requires 0 <= yoe <= 398 && yp == yoe + era * 400
    ensures DaysFromCivil(yp + 1, 3, 1) == DaysFromCivil(yp, 3, 1) + YearLength(yp + 1)
  {
    MarchFirstOfEra(era, yoe, yp);
    MarchFirstOfEra(era, yoe + 1, yp + 1);
    YearStartStep(yoe);
    LeapPeriodic(yoe + 1, era, yp + 1);
  }

  /** `MarchFirstStep` from the last year of an era to the first of the next. */
  lemma MarchFirstStepAcrossEras(era: int, yp: int)
    requires yp == 399 + era * 400
    ensures DaysFromCivil(yp + 1, 3, 1) == DaysFromCivil(yp, 3, 1) + YearLength(yp + 1)
  {
    var next := era + 1;
    assert yp + 1 == next * 400;
    MarchFirstOfEra(era, 399, yp);
    MarchFirstOfEra(next, 0, yp + 1);
    LastYearOfEra();
    LeapPeriodic(0, next, yp + 1);
    assert next * 146097 == era * 146097 + 146097;
  }

  /** The last year of an era starts 366 days before the era ends: the
      February that closes it is in year 0 of the next era, a leap year. */
  lemma LastYearOfEra()
    ensures YearStart(399) == 145731 && YearStart(0) == 0 && YearLength(0) == 366
  {
  }

  /** From one January 1 to the next is the length of the year. */
  lemma NewYearStep(y: int)
    ensures DaysFromCivil(y + 1, 1, 1) == DaysFromCivil(y, 1, 1) + YearLength(y)
  {
    DecomposeDays(y + 1, 1, 1);
    DecomposeDays(y, 1, 1);
    MarchFirstStep(y - 1);
  }

  /** From the first of a month to the first of the next is the month's length. */
  lemma MonthStep(y: int, m: nat)
    requires 1 <= m <= 11
    ensures DaysFromCivil(y, m + 1, 1) == DaysFromCivil(y, m, 1) + LastDayOfMonth(y, m)
  {
    if m == 2 {
      FebruaryStep(y);
    } else {
      var next := m + 1;
      MonthStepOutsideFebruary(y, m, next);
    }
  }

  /** From February 1 to March 1 is the length of February. */
  lemma FebruaryStep(y: int)
    ensures DaysFromCivil(y, 3, 1) == DaysFromCivil(y, 2, 1) + LastDayOfMonth(y, 2)
  {
    DecomposeDays(y, 3, 1);
    DecomposeDays(y, 2, 1);
    MonthLengths(2);
    MarchFirstStep(y - 1);
  }

  /** `MonthStep` for the months whose length does not depend on the year. */
  lemma MonthStepOutsideFebruary(y: int, m: nat, next: nat)
    requires 1 <= m <= 11 && m != 2 && next == m + 1
    ensures DaysFromCivil(y, next, 1) == DaysFromCivil(y, m, 1) + LastDayOfMonth(y, m)
  {
    DecomposeDays(y, next, 1);
    DecomposeDays(y, m, 1);
    MonthLengths(m);
  }

  /** Within a month the day count advances one per day. */
  lemma DayStep(y: int, m: nat, d: nat)
    requires ValidDate(y, m, d)
    ensures DaysFromCivil(y, m, d) == DaysFromCivil(y, m, 1) + d - 1
  {
  }

  /** Every date of year y lies between its January 1 and the next one. */
  lemma WithinYear(y: int, m: nat, d: nat)
    requires ValidDate(y, m, d)
    ensures DaysFromCivil(y, 1, 1) <= DaysFromCivil(y, m, d) < DaysFromCivil(y, 1, 1) + YearLength(y)
  {
    DecomposeDays(y, m, d);
    DecomposeDays(y, 1, 1);
    MonthLengths(m);
    if m > 2 {
      MarchFirstStep(y - 1);
      MonthStartMonotone(ShiftedMonth(m) + 1, 10);
    }
  }

  /** January 1 of year y is on or after the epoch exactly when y >= 1970. */
  lemma {:induction false} NewYearSign(y: int)
    ensures y >= 1970 ==> DaysFromCivil(y, 1, 1) >= 0
    ensures y < 1970 ==> DaysFromCivil(y, 1, 1) < 0
    decreases if y >= 1970 then y - 1970 else 1970 - y
  {
    if y > 1970 {
      NewYearSign(y - 1);
      NewYearStep(y - 1);
    } else if y < 1970 {
      NewYearSign(y + 1);
      NewYearStep(y);
      assert DaysFromCivil(1970, 1, 1) == 0;
    }
  }

  /** A negative day count means exactly a date before 1970-01-01. */
  lemma DaysFromCivilSign(y: int, m: nat, d: nat)
    requires ValidDate(y, m, d)
    ensures DaysFromCivil(y, m, d) < 0 <==> y < 1970
  {
    WithinYear(y, m, d);
    NewYearSign(y);
    NewYearSign(y + 1);
    NewYearStep(y);
    assert DaysFromCivil(1970, 1, 1) == 0;
  }
}
