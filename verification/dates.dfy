/**
  Calendar dates as (year, month, day) triples, month 1-based, and the two
  orders the app sorts by.
 */
module Dates {

  datatype Date = Date(year: int, month: int, day: int)

  datatype MonthDay = MonthDay(month: int, day: int)

  /** Proleptic Gregorian leap years, as JavaScript's Date counts them. */
  predicate IsLeapYear(y: int) {
    y % 4 == 0 && (y % 100 != 0 || y % 400 == 0)
  }

  function DaysInMonth(y: int, m: int): int
    requires 1 <= m <= 12
  {
    if m == 2 then (if IsLeapYear(y) then 29 else 28)
    else if m == 4 || m == 6 || m == 9 || m == 11 then 30
    else 31
  }

  /** A real calendar date: one that JavaScript's Date keeps without rolling it over. */
  predicate ValidDate(d: Date) {
    1 <= d.month <= 12 && 1 <= d.day <= DaysInMonth(d.year, d.month)
  }

  /**
    The date `new Date(y, m - 1, d)` denotes for a triple that does not roll
    over: the constructor reads years 0 to 99 as 1900 to 1999.
   */
  function LocalDate(d: Date): Date {
    Date(if 0 <= d.year <= 99 then 1900 + d.year else d.year, d.month, d.day)
  }

  /** Chronological order of dates: year, then month, then day. */
  predicate DateLe(a: Date, b: Date) {
    || a.year < b.year
    || (a.year == b.year && a.month < b.month)
    || (a.year == b.year && a.month == b.month && a.day <= b.day)
  }

  /** Calendar order of month-days: month first, then day. */
  predicate MonthDayLe(a: MonthDay, b: MonthDay) {
    a.month < b.month || (a.month == b.month && a.day <= b.day)
  }

  /** Month index since year 0: months counted across year boundaries. */
  function MonthIndex(d: Date): int {
    d.year * 12 + (d.month - 1)
  }
}
