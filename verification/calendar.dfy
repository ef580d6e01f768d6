/**
 * The proleptic Gregorian calendar: month lengths, the day count from the
 * civil date (1970-01-01 is day 0) and the weekday `Date.getDay` reports,
 * 0 for Sunday through 6 for Saturday.
 */
module Calendar {
  import opened Types

  predicate IsLeapYear(y: int) {
    y % 4 == 0 && (y % 100 != 0 || y % 400 == 0)
  }

  function DaysInMonth(y: int, m: Month0): (n: int)
    ensures 28 <= n <= 31
  {
    if m == 1 then (if IsLeapYear(y) then 29 else 28)
    else if m == 3 || m == 5 || m == 8 || m == 10 then 30
    else 31
  }

  /** A date that exists in the calendar (no 30 February, no 31 April). */
  predicate ValidDate(d: CivilDate) {
    d.day <= DaysInMonth(d.year, d.month)
  }

  /** Date order: by year, then month, then day. */
  predicate DateLe(a: CivilDate, b: CivilDate) {
    a.year < b.year || (a.year == b.year && (a.month < b.month || (a.month == b.month && a.day <= b.day)))
  }

  predicate DateLt(a: CivilDate, b: CivilDate) {
    DateLe(a, b) && a != b
  }

  /** `d` lies between `lo` and `hi`, both included. */
  predicate DateInInterval(d: CivilDate, lo: CivilDate, hi: CivilDate) {
    DateLe(lo, d) && DateLe(d, hi)
  }

  /**
   * Day number of the start of the March-based year `y` (the year that runs
   * from 1 March of `y` to the end of February of `y + 1`), counted in the
   * 400-year Gregorian cycle.
   */
  function MarchYearStart(y: int): int {
    var era := y / 400;
    var yoe := y - era * 400;
    era * 146097 + yoe * 365 + yoe / 4 - yoe / 100
  }

  /** Days from 1 March to the first day of March-based month `mp` (0 = March, 11 = February). */
  function DaysBeforeMonth(mp: int): int
    requires 0 <= mp < 12
  {
    (153 * mp + 2) / 5
  }

  /** Days since 1970-01-01 (negative before it). */
  function DaysFromCivil(d: CivilDate): int {
    var y := if d.month <= 1 then d.year - 1 else d.year;
    var mp := if d.month >= 2 then d.month - 2 else d.month + 10;
    MarchYearStart(y) + DaysBeforeMonth(mp) + d.day - 1 - 719468
  }

  /** `Date.getDay`: 0 = Sunday, ..., 6 = Saturday. Day 0 (1970-01-01) was a Thursday. */
  function Weekday(d: CivilDate): (w: int)
    ensures 0 <= w < 7
  {
    (DaysFromCivil(d) + 4) % 7
  }

  /** The calendar day after `d`. */
  function NextDate(d: CivilDate): (n: CivilDate)
    requires ValidDate(d)
    ensures ValidDate(n)
    ensures DateLt(d, n)
  {
    if d.day < DaysInMonth(d.year, d.month) then CivilDate(d.year, d.month, d.day + 1)
    else if d.month < 11 then CivilDate(d.year, d.month + 1, 1)
    else CivilDate(d.year + 1, 0, 1)
  }

  lemma EpochIsThursday()
    ensures DaysFromCivil(CivilDate(1970, 0, 1)) == 0
    ensures Weekday(CivilDate(1970, 0, 1)) == 4
  {
  }

  /** Euclidean division by a positive constant is determined by quotient and remainder. */
  lemma DivModUnique(x: int, k: int, q: int, r: int)
    requires 0 < k && x == k * q + r && 0 <= r < k
    ensures x / k == q && x % k == r
  {
    var t := q - x / k;
    assert k * t == x % k - r by {
      assert x == k * (x / k) + x % k;
      assert k * q - k * (x / k) == k * t;
    }
    MulSign(k, t);
  }

  /** A non-zero multiple of a positive `k` is at least `k` away from zero. */
  lemma MulSign(k: int, t: int)
    requires 0 < k
    ensures t >= 1 ==> k * t >= k
    ensures t <= -1 ==> k * t <= -k
  {
  }

  /** Adding a multiple of `k` does not change the remainder modulo `k`. */
  lemma ModShift(x: int, k: int, q: int)
    requires 0 < k
    ensures (k * q + x) % k == x % k
  {
    DivModUnique(k * q + x, k, q + x / k, x % k);
  }

  /** Counting one further raises the quotient by `k` exactly when it reaches a multiple of `k`. */
  lemma DivStep(r: int, k: int)
    requires 0 < k
    ensures (r + 1) / k == r / k + (if (r + 1) % k == 0 then 1 else 0)
  {
    var q := r / k;
    DivModUnique(r, k, q, r % k);
    if r % k == k - 1 {
      assert r + 1 == k * (q + 1) + 0 by {
        assert k * (q + 1) == k * q + k;
      }
      DivModUnique(r + 1, k, q + 1, 0);
    } else {
      DivModUnique(r + 1, k, q, r % k + 1);
    }
  }

  /** Within one 400-year cycle, the leap days counted before `r + 1` exceed those before `r` by one exactly at a leap year. */
  lemma CycleStep(r: int)
    requires 0 <= r < 399
    ensures (r + 1) / 4 - r / 4 - ((r + 1) / 100 - r / 100)
         == (if (r + 1) % 4 == 0 && (r + 1) % 100 != 0 then 1 else 0)
  {
    DivStep(r, 4);
    DivStep(r, 100);
    if (r + 1) % 100 == 0 {
      ModShift(0, 4, 25 * ((r + 1) / 100));
      DivModUnique(r + 1, 100, (r + 1) / 100, 0);
      assert r + 1 == 4 * (25 * ((r + 1) / 100)) + 0;
    }
  }

  /** A March-based year has 366 days exactly when the February at its end has 29. */
  lemma {:induction false} MarchYearLength(y: int)
    ensures MarchYearStart(y + 1) == MarchYearStart(y) + 365 + (if IsLeapYear(y + 1) then 1 else 0)
  {
    var e := y / 400;
    var r := y - e * 400;
    DivModUnique(y, 400, e, y % 400);
    assert 0 <= r < 400;
    if r < 399 {
      DivModUnique(y + 1, 400, e, r + 1);
      ModShift(r + 1, 4, 100 * e);
      ModShift(r + 1, 100, 4 * e);
      assert y + 1 == 4 * (100 * e) + (r + 1) && y + 1 == 100 * (4 * e) + (r + 1);
      assert (y + 1) % 400 != 0;
      CycleStep(r);
    } else {
      DivModUnique(y + 1, 400, e + 1, 0);
      ModShift(0, 4, 100 * (e + 1));
      assert IsLeapYear(y + 1);
    }
  }

  /**
   * Consecutive March-based months: the next one starts as many days later as
   * the month `mp` is long (April, June, September and November have 30).
   */
  lemma DaysBeforeMonthStep(mp: int)
    requires 0 <= mp < 11
    ensures DaysBeforeMonth(mp + 1) - DaysBeforeMonth(mp)
         == DaysInMonth(0, if mp < 10 then mp + 2 else 0)
  {
    if mp < 5 {
      assert mp == 0 || mp == 1 || mp == 2 || mp == 3 || mp == 4;
    } else {
      assert mp == 5 || mp == 6 || mp == 7 || mp == 8 || mp == 9 || mp == 10;
    }
  }

  /** Within a month, the next day is one day later. */
  lemma SameMonthStep(d: CivilDate)
    requires d.day < DaysInMonth(d.year, d.month)
    ensures DaysFromCivil(CivilDate(d.year, d.month, d.day + 1)) == DaysFromCivil(d) + 1
  {
  }

  /** From the last day of any month but February and December to the first of the next. */
  lemma MonthEndStep(d: CivilDate)
    requires ValidDate(d) && d.day == DaysInMonth(d.year, d.month)
    requires d.month != 1 && d.month < 11
    ensures DaysFromCivil(CivilDate(d.year, d.month + 1, 1)) == DaysFromCivil(d) + 1
  {
    var mp := if d.month >= 2 then d.month - 2 else d.month + 10;
    DaysBeforeMonthStep(mp);
    assert DaysInMonth(d.year, d.month) == DaysInMonth(0, d.month);
  }

  /** From the last day of February to 1 March: a March-based year ends. */
  lemma FebruaryEndStep(d: CivilDate)
    requires ValidDate(d) && d.month == 1 && d.day == DaysInMonth(d.year, 1)
    ensures DaysFromCivil(CivilDate(d.year, 2, 1)) == DaysFromCivil(d) + 1
  {
    MarchYearLength(d.year - 1);
    assert DaysBeforeMonth(11) == 337 && DaysBeforeMonth(0) == 0;
  }

  /** From 31 December to 1 January: the same March-based year continues. */
  lemma YearEndStep(d: CivilDate)
    requires d.month == 11 && d.day == 31
    ensures DaysFromCivil(CivilDate(d.year + 1, 0, 1)) == DaysFromCivil(d) + 1
  {
    assert DaysBeforeMonth(9) == 275 && DaysBeforeMonth(10) == 306;
  }

  /** The day count grows by exactly one from each valid date to the next. */
  lemma {:induction false} NextDateIsOneDayLater(d: CivilDate)
    requires ValidDate(d)
    ensures DaysFromCivil(NextDate(d)) == DaysFromCivil(d) + 1
  {
    if d.day < DaysInMonth(d.year, d.month) {
      SameMonthStep(d);
    } else if d.month == 1 {
      FebruaryEndStep(d);
    } else if d.month < 11 {
      MonthEndStep(d);
    } else {
      YearEndStep(d);
    }
  }

  /** Day numbers of dates from March 2025 on, counted from 1 March 2025 (day 20148). */
  lemma DaysIn2025(d: CivilDate)
    requires d.year == 2025 && d.month >= 2
    ensures DaysFromCivil(d) == 20148 + DaysBeforeMonth(d.month - 2) + d.day - 1
  {
    DivModUnique(2025, 400, 5, 25);
    DivModUnique(25, 4, 6, 1);
    DivModUnique(25, 100, 0, 25);
    assert MarchYearStart(2025) == 739616;
  }

  /** Weekdays of dates from March 2025 on: 1 March 2025 was a Saturday. */
  lemma WeekdayIn2025(d: CivilDate)
    requires d.year == 2025 && d.month >= 2
    ensures Weekday(d) == (6 + DaysBeforeMonth(d.month - 2) + d.day - 1) % 7
  {
    DaysIn2025(d);
    var k := DaysBeforeMonth(d.month - 2) + d.day - 1;
    DivModUnique(20148 + k + 4, 7, 2878 + (6 + k) / 7, (6 + k) % 7);
  }

  /** `getDay` cycles Sunday, Monday, ..., Saturday, Sunday along the calendar. */
  lemma WeekdayAdvances(d: CivilDate)
    requires ValidDate(d)
    ensures Weekday(NextDate(d)) == (Weekday(d) + 1) % 7
  {
    NextDateIsOneDayLater(d);
    WeekStep(DaysFromCivil(d) + 4);
  }

  /** Counting one further moves the remainder modulo 7 one step round. */
  lemma WeekStep(n: int)
    ensures (n + 1) % 7 == (n % 7 + 1) % 7
  {
    DivModUnique(n, 7, n / 7, n % 7);
    if n % 7 == 6 {
      DivModUnique(n + 1, 7, n / 7 + 1, 0);
    } else {
      DivModUnique(n + 1, 7, n / 7, n % 7 + 1);
    }
  }
}
