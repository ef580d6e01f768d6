/**
 * Data model of the bell controller (types.ts), plus the timestamp record that
 * stands in for a JavaScript `Date` read in local wall-clock time.
 */
module Types {

  /** Zero-based month, as `Date.getMonth` returns it: 0 is January, 11 is December. */
  type Month0 = m: int | 0 <= m < 12

  /** Day of the month as `Date.getDate` returns it. */
  type DayOfMonth = d: int | 1 <= d <= 31 witness 1

  type Hour = h: int | 0 <= h < 24
  type Minute = m: int | 0 <= m < 60
  type Second = s: int | 0 <= s < 60
  type Millis = ms: int | 0 <= ms < 1000

  /** A calendar date with a zero-based month. */
  datatype CivilDate = CivilDate(year: int, month: Month0, day: DayOfMonth)

  /**
   * A wall-clock timestamp. The field ranges are those every normalised
   * `Date` satisfies; the weekday is not a field but is computed from the date.
   */
  datatype DateTime = DateTime(year: int, month: Month0, day: DayOfMonth,
                               hour: Hour, minute: Minute, second: Second, ms: Millis)
  {
    /** The calendar date of this timestamp, its time of day dropped. */
    function Date(): CivilDate {
      CivilDate(year, month, day)
    }
  }

  /** One scheduled ring: the `BellSchedule` interface (its `label` is `activity` here, `label` being a Dafny keyword). */
  datatype BellEvent = BellEvent(hour: int, minute: int, activity: string)

  /** An inclusive range of non-school days: the `HolidayRange` interface. */
  datatype HolidayRange = HolidayRange(start: DateTime, end: DateTime, name: string)

  /** A single non-school date, month zero-based: the `SpecificHoliday` interface. */
  datatype SpecificHoliday = SpecificHoliday(day: int, month: int, year: int, name: string)

  /** The result of `Array.prototype.find`: an element, or `undefined`. */
  datatype Option<T> = None | Some(value: T)
}
