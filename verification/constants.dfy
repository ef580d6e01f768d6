/**
 * The static configuration (constants.ts): the daily ring times, the holiday
 * ranges, the single holiday dates and the ring duration, with the
 * well-formedness facts the classifier and the trigger rely on.
 */
module Constants {
  import opened Types
  import opened Calendar

  /** `new Date(y, m, d)`: midnight at the start of that date. */
  function Midnight(y: int, m: Month0, d: DayOfMonth): DateTime {
    DateTime(y, m, d, 0, 0, 0, 0)
  }

  function BellSchedule(): seq<BellEvent> {
    [ BellEvent(8, 30, "Entrada"),
      BellEvent(9, 20, "Cambio Clase"),
      BellEvent(10, 15, "Cambio Clase"),
      BellEvent(11, 10, "Recreo Inicio"),
      BellEvent(11, 40, "Recreo Fin"),
      BellEvent(12, 30, "Cambio Clase"),
      BellEvent(13, 25, "Cambio Clase"),
      BellEvent(14, 20, "Salida") ]
  }

  function HolidayRanges(): seq<HolidayRange> {
    [ HolidayRange(Midnight(2025, 11, 20), Midnight(2026, 0, 7), "Navidad"),
      HolidayRange(Midnight(2026, 1, 16), Midnight(2026, 1, 17), "Carnaval"),
      HolidayRange(Midnight(2026, 2, 27), Midnight(2026, 3, 6), "Semana Santa") ]
  }

  /** Months are zero-based: 9 is October. */
  function SpecificHolidays(): seq<SpecificHoliday> {
    [ SpecificHoliday(12, 9, 2025, "Hispanidad"),
      SpecificHoliday(13, 9, 2025, "Puente"),
      SpecificHoliday(31, 9, 2025, "Puente"),
      SpecificHoliday(1, 10, 2025, "Todos los Santos"),
      SpecificHoliday(6, 11, 2025, "Constitución"),
      SpecificHoliday(8, 11, 2025, "Inmaculada"),
      SpecificHoliday(23, 3, 2026, "Día Comunidad"),
      SpecificHoliday(24, 3, 2026, "Puente"),
      SpecificHoliday(1, 4, 2026, "Día del Trabajo") ]
  }

  /** How long the relay stays on after a ring, in milliseconds. */
  const BellDurationMs: int := 5000

  /** Minutes since midnight of a scheduled ring. */
  function MinuteOfDay(e: BellEvent): int {
    e.hour * 60 + e.minute
  }

  predicate ValidBellTime(e: BellEvent) {
    0 <= e.hour < 24 && 0 <= e.minute < 60
  }

  /** Ring times in range, ordered strictly by (hour, minute). */
  predicate WellFormedSchedule(s: seq<BellEvent>) {
    && (forall i :: 0 <= i < |s| ==> ValidBellTime(s[i]))
    && (forall i, j :: 0 <= i < j < |s| ==> MinuteOfDay(s[i]) < MinuteOfDay(s[j]))
  }

  /** The calendar date a specific holiday names, when its fields form one. */
  predicate HolidayIsValidDate(h: SpecificHoliday) {
    0 <= h.month < 12 && 1 <= h.day <= 31 && ValidDate(CivilDate(h.year, h.month, h.day))
  }

  lemma ScheduleIsWellFormed()
    ensures |BellSchedule()| > 0
    ensures WellFormedSchedule(BellSchedule())
  {
    var s := BellSchedule();
    assert forall i :: 0 <= i < |s| - 1 ==> MinuteOfDay(s[i]) < MinuteOfDay(s[i + 1]);
    AdjacentOrderIsTotal(s);
  }

  /** A schedule whose neighbours are in strict order is in strict order throughout. */
  lemma {:induction false} AdjacentOrderIsTotal(s: seq<BellEvent>)
    requires forall i :: 0 <= i < |s| - 1 ==> MinuteOfDay(s[i]) < MinuteOfDay(s[i + 1])
    ensures forall i, j :: 0 <= i < j < |s| ==> MinuteOfDay(s[i]) < MinuteOfDay(s[j])
  {
    if |s| > 1 {
      AdjacentOrderIsTotal(s[1..]);
      forall i, j | 0 <= i < j < |s|
        ensures MinuteOfDay(s[i]) < MinuteOfDay(s[j])
      {
        if i > 0 {
          assert s[i] == s[1..][i - 1] && s[j] == s[1..][j - 1];
        } else if j > 1 {
          assert s[j] == s[1..][j - 1] && s[1] == s[1..][0];
        }
      }
    }
  }

  /** No two scheduled rings share a minute. */
  lemma ScheduleMinutesDistinct()
    ensures forall i, j :: 0 <= i < j < |BellSchedule()| ==>
      (BellSchedule()[i].hour, BellSchedule()[i].minute) != (BellSchedule()[j].hour, BellSchedule()[j].minute)
  {
    ScheduleIsWellFormed();
  }

  lemma RangesAreWellFormed()
    ensures forall i :: 0 <= i < |HolidayRanges()| ==>
      ValidDate(HolidayRanges()[i].start.Date()) && ValidDate(HolidayRanges()[i].end.Date())
      && DateLe(HolidayRanges()[i].start.Date(), HolidayRanges()[i].end.Date())
    ensures forall i, j :: 0 <= i < j < |HolidayRanges()| ==>
      DateLt(HolidayRanges()[i].end.Date(), HolidayRanges()[j].start.Date())
  {
  }

  lemma SpecificHolidaysAreWellFormed()
    ensures forall i :: 0 <= i < |SpecificHolidays()| ==> HolidayIsValidDate(SpecificHolidays()[i])
    ensures forall i, j :: 0 <= i < j < |SpecificHolidays()| ==>
      (SpecificHolidays()[i].day, SpecificHolidays()[i].month, SpecificHolidays()[i].year)
      != (SpecificHolidays()[j].day, SpecificHolidays()[j].month, SpecificHolidays()[j].year)
  {
  }

  /** Single holiday dates and holiday ranges never overlap. */
  lemma SpecificHolidaysOutsideRanges()
    ensures forall i, j :: 0 <= i < |SpecificHolidays()| && 0 <= j < |HolidayRanges()| ==>
      var h := SpecificHolidays()[i];
      !DateInInterval(CivilDate(h.year, h.month, h.day), HolidayRanges()[j].start.Date(), HolidayRanges()[j].end.Date())
  {
  }

  lemma BellDurationPositive()
    ensures BellDurationMs > 0
  {
  }
}
