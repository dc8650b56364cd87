/** Day-of-week arithmetic of nc2nds/date_util.h. Weekdays are numbered
    0 (Sunday) to 6 (Saturday), and are C++ `unsigned` values. */
module Weekdays {
  import opened CArith
  import opened CivilCalendar

  /** `weekday_from_days`: the weekday of the day `z` days after 1970-01-01,
      which was a Thursday. The source shifts negative counts so that the
      truncating `%` never sees a negative operand below -4. */
  function WeekdayFromDays(z: int): (wd: U32)
    ensures wd <= 6
    ensures wd == (z + 4) % 7
  {
    if z >= -4 then CRem(z + 4, 7)
    else
      ShiftedRemainder(z);
      CRem(z + 5, 7) + 6
  }

  /** Below day -4 the shifted truncating remainder plus 6 is the weekday. */
  lemma ShiftedRemainder(z: int)
    requires z < -4
    ensures CRem(z + 5, 7) + 6 == (z + 4) % 7
  {
    var n := -(z + 5);
    var q, r := n / 7, n % 7;
    assert n == 7 * q + r && 0 <= r < 7;
    assert CRem(z + 5, 7) == -r;
    assert z + 4 == 7 * (-q - 1) + (6 - r);
  }

  /** `weekday_difference`: the number of days from weekday `y` forward to
      weekday `x`, computed with 32-bit unsigned wrap-around. */
  function WeekdayDifference(x: U32, y: U32): (r: U32)
    ensures x <= 6 && y <= 6 ==> r <= 6 && r == (x - y) % 7
  {
    var diff := ToU32(x - y);
    if diff <= 6 then diff else ToU32(diff + 7)
  }

  /** `next_weekday` */
  function NextWeekday(wd: U32): (r: U32)
    ensures r <= 6
    ensures wd <= 6 ==> r == (wd + 1) % 7
  {
    if wd < 6 then wd + 1 else 0
  }

  /** `prev_weekday` */
  function PrevWeekday(wd: U32): (r: U32)
    ensures wd <= 6 ==> r <= 6 && r == (wd - 1) % 7
  {
    if wd > 0 then wd - 1 else 6
  }

  /** `next_weekday` and `prev_weekday` undo each other on weekdays. */
  lemma NextPrevInverse(wd: U32)
    requires wd <= 6
    ensures PrevWeekday(NextWeekday(wd)) == wd
    ensures NextWeekday(PrevWeekday(wd)) == wd
  {
  }

  /** The weekday of the next day is the next weekday, and of the previous
      day the previous one. */
  lemma WeekdayOfNeighbours(z: int)
    ensures WeekdayFromDays(z + 1) == NextWeekday(WeekdayFromDays(z))
    ensures WeekdayFromDays(z - 1) == PrevWeekday(WeekdayFromDays(z))
  {
    ModSevenStep(z + 4);
    ModSevenStep(z + 3);
  }

  /** The remainder by 7 of a successor. */
  lemma ModSevenStep(a: int)
    ensures (a + 1) % 7 == if a % 7 < 6 then a % 7 + 1 else 0
  {
    var q := a / 7;
    assert a == 7 * q + a % 7;
    if a % 7 < 6 {
      assert a + 1 == 7 * q + (a % 7 + 1);
    } else {
      assert a + 1 == 7 * (q + 1);
    }
  }

  /** `weekday_difference` counts the days from one weekday to another:
      from the weekday of day z, k days later (k in [0, 6]) is weekday
      `weekday_difference` days further. */
  lemma WeekdayDifferenceCounts(z: int, k: int)
    requires 0 <= k <= 6
    ensures WeekdayDifference(WeekdayFromDays(z + k), WeekdayFromDays(z)) == k
  {
    var s := z + 4;
    var t := z + k + 4;
    RemainderDifference(s, t, k, WeekdayFromDays(z), WeekdayFromDays(z + k));
  }

  /** Remainders by 7 of two numbers k apart (k in [0, 6]) differ by k, modulo 7. */
  lemma RemainderDifference(s: int, t: int, k: int, a: U32, b: U32)
    requires 0 <= k <= 6 && t == s + k && a == s % 7 && b == t % 7
    ensures WeekdayDifference(b, a) == k
  {
    var q := s / 7;
    assert s == 7 * q + a;
    WeekdayDifferenceCases(b, a);
    if a + k < 7 {
      assert t == 7 * q + (a + k);
    } else {
      assert t == 7 * (q + 1) + (a + k - 7);
    }
  }

  /** On weekdays the unsigned wrap-around of `weekday_difference` amounts to
      adding 7 when `x` is before `y`. */
  lemma WeekdayDifferenceCases(x: U32, y: U32)
    requires x <= 6 && y <= 6
    ensures x >= y ==> WeekdayDifference(x, y) == x - y
    ensures x < y ==> WeekdayDifference(x, y) == x - y + 7
  {
  }

  /** Adding the difference back to the earlier weekday gives the later one. */
  lemma {:induction false} WeekdayDifferenceSteps(x: U32, y: U32)
    requires x <= 6 && y <= 6
    ensures Advance(y, WeekdayDifference(x, y)) == x
  {
    var n := WeekdayDifference(x, y);
    AdvanceIsSum(y, n);
    WeekdayDifferenceCases(x, y);
  }

  /** `n` applications of `next_weekday`. */
  function Advance(wd: U32, n: nat): (r: U32)
    ensures n > 0 ==> r <= 6
  {
    if n == 0 then wd else NextWeekday(Advance(wd, n - 1))
  }

  /** Applying `next_weekday` n times to a weekday adds n modulo 7. */
  lemma {:induction false} AdvanceIsSum(wd: U32, n: nat)
    requires wd <= 6
    ensures Advance(wd, n) == (wd + n) % 7
  {
    if n > 0 {
      AdvanceIsSum(wd, n - 1);
      ModSevenStep(wd + n - 1);
    }
  }

  /** 1970-01-01 was a Thursday (weekday 4). */
  lemma EpochIsThursday()
    ensures WeekdayFromDays(DaysFromCivil(1970, 1, 1)) == 4
  {
    assert DaysFromCivil(1970, 1, 1) == 0;
  }

  /** The weekday repeats every 400 years: an era holds a whole number of weeks. */
  lemma WeekdayOfDateAfterEra(z: int)
    ensures WeekdayFromDays(z + 146097) == WeekdayFromDays(z)
  {
    var s := z + 4;
    var t := s + 146097;
    RemainderAfterWeeks(s, t, 20871);
  }

  /** Adding whole weeks keeps the remainder by 7. */
  lemma RemainderAfterWeeks(s: int, t: int, weeks: int)
    requires t == s + 7 * weeks
    ensures t % 7 == s % 7
  {
    var q := s / 7;
    assert s == 7 * q + s % 7;
    assert t == 7 * (q + weeks) + s % 7;
  }
}
