/**
 * Day classification and time formatting (utils/bellLogic.ts).
 */
module BellLogic {
  import opened Types
  import opened Calendar
  import opened JsString
  import Constants

  /** Milliseconds since midnight. */
  function MsOfDay(t: DateTime): (n: int)
    ensures 0 <= n < 86400000
  {
    var secs := (t.hour * 60 + t.minute) * 60 + t.second;
    assert secs <= (23 * 60 + 59) * 60 + 59;
    secs * 1000 + t.ms
  }

  /**
   * The order of two instants: by calendar date, then by time of day. On
   * normalised dates this is the order `<=` gives two `Date` values.
   */
  predicate InstantLe(a: DateTime, b: DateTime) {
    DateLt(a.Date(), b.Date()) || (a.Date() == b.Date() && MsOfDay(a) <= MsOfDay(b))
  }

  /** `setHours(0, 0, 0, 0)` on a copy. */
  function StartOfDay(t: DateTime): (r: DateTime)
    ensures r.Date() == t.Date()
    ensures forall u: DateTime :: u.Date() == t.Date() ==> InstantLe(r, u)
  {
    t.(hour := 0, minute := 0, second := 0, ms := 0)
  }

  /** `setHours(23, 59, 59, 999)` on a copy. */
  function EndOfDay(t: DateTime): (r: DateTime)
    ensures r.Date() == t.Date()
    ensures forall u: DateTime :: u.Date() == t.Date() ==> InstantLe(u, r)
  {
    t.(hour := 23, minute := 59, second := 59, ms := 999)
  }

  /**
   * `isDateInRange`: `now` lies between the start of `start`'s day and the end
   * of `end`'s day. Equivalently, the date of `now` lies between the two dates,
   * whatever the times of day of `start` and `end`.
   */
  function IsDateInRange(now: DateTime, start: DateTime, end: DateTime): (r: bool)
    ensures r <==> DateInInterval(now.Date(), start.Date(), end.Date())
  {
    InstantLe(StartOfDay(start), now) && InstantLe(now, EndOfDay(end))
  }

  predicate IsWeekend(now: DateTime) {
    var w := Weekday(now.Date());
    w == 0 || w == 6
  }

  predicate InRange(now: DateTime, r: HolidayRange) {
    IsDateInRange(now, r.start, r.end)
  }

  /** Exact match of day, zero-based month and year. */
  predicate IsHolidayDate(now: DateTime, h: SpecificHoliday) {
    now.day == h.day && now.month == h.month && now.year == h.year
  }

  /** The loop over the holiday ranges, returning on the first one that holds `now`. */
  function InAnyRange(now: DateTime, ranges: seq<HolidayRange>): (r: bool)
    ensures r <==> exists i :: 0 <= i < |ranges| && InRange(now, ranges[i])
  {
    if |ranges| == 0 then false
    else if InRange(now, ranges[0]) then true
    else
      assert forall i :: 1 <= i < |ranges| ==> ranges[i] == ranges[1..][i - 1];
      InAnyRange(now, ranges[1..])
  }

  /** The loop over the single holiday dates, returning on the first match. */
  function OnAnyHoliday(now: DateTime, holidays: seq<SpecificHoliday>): (r: bool)
    ensures r <==> exists i :: 0 <= i < |holidays| && IsHolidayDate(now, holidays[i])
  {
    if |holidays| == 0 then false
    else if IsHolidayDate(now, holidays[0]) then true
    else
      assert forall i :: 1 <= i < |holidays| ==> holidays[i] == holidays[1..][i - 1];
      OnAnyHoliday(now, holidays[1..])
  }

  /**
   * `isNonSchoolDay` over given tables: a weekend, a day inside a holiday
   * range or a listed holiday date; a school day exactly when none holds.
   */
  function IsNonSchoolDayWith(now: DateTime, ranges: seq<HolidayRange>, holidays: seq<SpecificHoliday>): (r: bool)
    ensures r <==>
      || IsWeekend(now)
      || (exists i :: 0 <= i < |ranges| && InRange(now, ranges[i]))
      || (exists i :: 0 <= i < |holidays| && IsHolidayDate(now, holidays[i]))
  {
    if IsWeekend(now) then true
    else if InAnyRange(now, ranges) then true
    else OnAnyHoliday(now, holidays)
  }

  /**
   * `isNonSchoolDay` over the configured tables: a weekend, a date inside one
   * of the holiday ranges, or one of the listed dates.
   */
  function IsNonSchoolDay(now: DateTime): (r: bool)
    ensures r <==>
      || IsWeekend(now)
      || (exists i :: 0 <= i < |Constants.HolidayRanges()| &&
            DateInInterval(now.Date(), Constants.HolidayRanges()[i].start.Date(), Constants.HolidayRanges()[i].end.Date()))
      || (exists i :: 0 <= i < |Constants.SpecificHolidays()| && IsHolidayDate(now, Constants.SpecificHolidays()[i]))
  {
    IsNonSchoolDayWith(now, Constants.HolidayRanges(), Constants.SpecificHolidays())
  }

  /** Saturdays and Sundays are never school days, whatever the tables hold. */
  lemma WeekendIsNonSchool(now: DateTime, ranges: seq<HolidayRange>, holidays: seq<SpecificHoliday>)
    requires Weekday(now.Date()) == 0 || Weekday(now.Date()) == 6
    ensures IsNonSchoolDayWith(now, ranges, holidays)
  {
  }

  /** Every moment of every day of a configured holiday range is non-school. */
  lemma HolidayRangeIsNonSchool(now: DateTime, i: int)
    requires 0 <= i < |Constants.HolidayRanges()|
    requires DateInInterval(now.Date(), Constants.HolidayRanges()[i].start.Date(), Constants.HolidayRanges()[i].end.Date())
    ensures IsNonSchoolDay(now)
  {
    assert InRange(now, Constants.HolidayRanges()[i]);
  }

  /** A configured single holiday is non-school at every moment of its date. */
  lemma SpecificHolidayIsNonSchool(now: DateTime, i: int)
    requires 0 <= i < |Constants.SpecificHolidays()|
    requires now.day == Constants.SpecificHolidays()[i].day
    requires now.month == Constants.SpecificHolidays()[i].month
    requires now.year == Constants.SpecificHolidays()[i].year
    ensures IsNonSchoolDay(now)
  {
    assert IsHolidayDate(now, Constants.SpecificHolidays()[i]);
  }

  /** The classification depends on the calendar date only, not on the time of day. */
  lemma ClassificationIgnoresTimeOfDay(a: DateTime, b: DateTime, ranges: seq<HolidayRange>, holidays: seq<SpecificHoliday>)
    requires a.Date() == b.Date()
    ensures IsNonSchoolDayWith(a, ranges, holidays) == IsNonSchoolDayWith(b, ranges, holidays)
  {
    assert forall r :: InRange(a, r) == InRange(b, r);
    assert forall h :: IsHolidayDate(a, h) == IsHolidayDate(b, h);
  }

  /** Sunday 12 October 2025 ("Hispanidad") is non-school. */
  lemma HispanidadIsNonSchool(t: DateTime)
    requires t.Date() == CivilDate(2025, 9, 12)
    ensures Weekday(t.Date()) == 0
    ensures IsNonSchoolDay(t)
  {
    assert Weekday(t.Date()) == 0 by {
      WeekdayIn2025(t.Date());
      assert DaysBeforeMonth(7) == 214;
    }
  }

  /** Wednesday 24 December 2025 lies in the Christmas range. */
  lemma ChristmasEveIsNonSchool(t: DateTime)
    requires t.Date() == CivilDate(2025, 11, 24)
    ensures Weekday(t.Date()) == 3
    ensures IsNonSchoolDay(t)
  {
    assert Weekday(t.Date()) == 3 by {
      WeekdayIn2025(t.Date());
      assert DaysBeforeMonth(9) == 275;
    }
    assert IsNonSchoolDay(t) by {
      assert Constants.HolidayRanges()[0].start.Date() == CivilDate(2025, 11, 20);
      assert Constants.HolidayRanges()[0].end.Date() == CivilDate(2026, 0, 7);
      HolidayRangeIsNonSchool(t, 0);
    }
  }

  /** Tuesday 14 October 2025 is a school day: a weekday in no range and on no listed date. */
  lemma OrdinaryTuesdayIsSchool(t: DateTime)
    requires t.Date() == CivilDate(2025, 9, 14)
    ensures Weekday(t.Date()) == 2
    ensures !IsNonSchoolDay(t)
  {
    assert Weekday(t.Date()) == 2 by {
      WeekdayIn2025(t.Date());
      assert DaysBeforeMonth(7) == 214;
    }
    OutsideConfiguredTables(t);
  }

  /** Monday 8 December 2025 ("Inmaculada") is non-school. */
  lemma InmaculadaIsNonSchool(t: DateTime)
    requires t.Date() == CivilDate(2025, 11, 8)
    ensures Weekday(t.Date()) == 1 && IsNonSchoolDay(t)
  {
    assert Weekday(t.Date()) == 1 by {
      WeekdayIn2025(t.Date());
      assert DaysBeforeMonth(9) == 275;
    }
    SpecificHolidayIsNonSchool(t, 5);
  }

  /** Tuesday 9 December 2025, the day after a single holiday, is a school day again. */
  lemma DayAfterInmaculadaIsSchool(u: DateTime)
    requires u.Date() == CivilDate(2025, 11, 9)
    ensures Weekday(u.Date()) == 2 && !IsNonSchoolDay(u)
  {
    assert Weekday(u.Date()) == 2 by {
      WeekdayIn2025(u.Date());
      assert DaysBeforeMonth(9) == 275;
    }
    OutsideConfiguredTables(u);
  }

  /** A date from October to 19 December 2025 that is not a listed holiday lies in no range and on no listed date. */
  lemma OutsideConfiguredTables(t: DateTime)
    requires t.year == 2025 && 9 <= t.month <= 11
    requires t.month == 9 ==> t.day != 12 && t.day != 13 && t.day != 31
    requires t.month == 10 ==> t.day != 1
    requires t.month == 11 ==> t.day != 6 && t.day != 8 && t.day < 20
    ensures forall i :: 0 <= i < |Constants.HolidayRanges()| ==> !InRange(t, Constants.HolidayRanges()[i])
    ensures forall i :: 0 <= i < |Constants.SpecificHolidays()| ==> !IsHolidayDate(t, Constants.SpecificHolidays()[i])
  {
    var rs := Constants.HolidayRanges();
    assert !InRange(t, rs[0]) && !InRange(t, rs[1]) && !InRange(t, rs[2]);
  }

  /** `String(n).padStart(2, '0')`. */
  function TwoDigits(n: nat): string {
    PadStart(DecimalString(n), 2, '0')
  }

  /** Below 100, the padded numeral is two digits that read back as `n`. */
  lemma TwoDigitsRoundTrip(n: nat)
    requires n < 100
    ensures |TwoDigits(n)| == 2 && AllDigits(TwoDigits(n))
    ensures ParseDecimal(TwoDigits(n)) == n
  {
    var d := DecimalString(n);
    if n < 10 {
      var s := TwoDigits(n);
      assert s == ['0'] + d;
      assert s[..1] == ['0'];
      assert ParseDecimal(['0']) == 0 by {
        assert ['0'][..0] == [];
      }
    }
  }

  /** `formatTime`: `HH:MM:SS`, each field two zero-padded decimal digits. */
  function FormatTime(t: DateTime): (r: string)
    ensures |r| == 8 && r[2] == ':' && r[5] == ':'
    ensures AllDigits(r[0..2]) && ParseDecimal(r[0..2]) == t.hour
    ensures AllDigits(r[3..5]) && ParseDecimal(r[3..5]) == t.minute
    ensures AllDigits(r[6..8]) && ParseDecimal(r[6..8]) == t.second
  {
    TwoDigitsRoundTrip(t.hour);
    TwoDigitsRoundTrip(t.minute);
    TwoDigitsRoundTrip(t.second);
    JoinFields(TwoDigits(t.hour), TwoDigits(t.minute), TwoDigits(t.second));
    TwoDigits(t.hour) + ":" + TwoDigits(t.minute) + ":" + TwoDigits(t.second)
  }

  /** Where the three two-character fields of `HH:MM:SS` sit. */
  lemma JoinFields(a: string, b: string, c: string)
    requires |a| == 2 && |b| == 2 && |c| == 2
    ensures var r := a + ":" + b + ":" + c;
      |r| == 8 && r[2] == ':' && r[5] == ':' && r[0..2] == a && r[3..5] == b && r[6..8] == c
  {
    var r := a + ":" + b + ":" + c;
    assert r[0..2] == a;
    assert r[3..5] == b;
    assert r[6..8] == c;
  }

  /** Two timestamps print the same time exactly when their hour, minute and second agree. */
  lemma FormatTimeDeterminesClock(a: DateTime, b: DateTime)
    ensures FormatTime(a) == FormatTime(b) <==> (a.hour, a.minute, a.second) == (b.hour, b.minute, b.second)
  {
    if (a.hour, a.minute, a.second) == (b.hour, b.minute, b.second) {
      assert FormatTime(a) == FormatTime(b);
    }
  }

  lemma FormatTimeExample(t: DateTime)
    requires t.hour == 7 && t.minute == 5 && t.second == 9
    ensures FormatTime(t) == "07:05:09"
  {
    TwoDigitsRoundTrip(7);
    TwoDigitsRoundTrip(5);
    TwoDigitsRoundTrip(9);
  }
}
