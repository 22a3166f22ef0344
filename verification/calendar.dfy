/** The part of a calendar date-time constructor the codec relies on: which
    field combinations name a real instant (proleptic Gregorian calendar,
    no time zone). */
module Calendar {
  import opened Wrappers
  import opened Transport

  /** A naive date-time with a microsecond field, as the source builds it. */
  datatype DateTime = DateTime(year: int, month: int, day: int, hour: int, minute: int, second: int, microsecond: int)

  predicate IsLeapYear(year: int)
  {
    year % 4 == 0 && (year % 100 != 0 || year % 400 == 0)
  }

  function DaysInMonth(year: int, month: int): (d: int)
    requires 1 <= month <= 12
    ensures 28 <= d <= 31
    ensures d == 29 <==> month == 2 && IsLeapYear(year)
    ensures d == 31 <==> month in {1, 3, 5, 7, 8, 10, 12}
    ensures d == 30 <==> month in {4, 6, 9, 11}
    ensures month == 2 && !IsLeapYear(year) ==> d == 28
  {
    if month == 2 then (if IsLeapYear(year) then 29 else 28)
    else if month in {4, 6, 9, 11} then 30
    else 31
  }

  /** The days of the first `n` months of `year`. */
  function DaysBefore(year: int, n: nat): nat
    requires n <= 12
  {
    if n == 0 then 0 else DaysBefore(year, n - 1) + DaysInMonth(year, n)
  }

  /** The month lengths add up to the length of the year: 366 days in a
      leap year, 365 otherwise. */
  lemma {:induction false} YearLength(year: int)
    ensures DaysBefore(year, 12) == if IsLeapYear(year) then 366 else 365
  {
    var feb := DaysInMonth(year, 2);
    assert DaysBefore(year, 1) == 31;
    assert DaysBefore(year, 2) == 31 + feb;
    assert DaysBefore(year, 3) == 62 + feb;
    assert DaysBefore(year, 4) == 92 + feb;
    assert DaysBefore(year, 5) == 123 + feb;
    assert DaysBefore(year, 6) == 153 + feb;
    assert DaysBefore(year, 7) == 184 + feb;
    assert DaysBefore(year, 8) == 215 + feb;
    assert DaysBefore(year, 9) == 245 + feb;
    assert DaysBefore(year, 10) == 276 + feb;
    assert DaysBefore(year, 11) == 306 + feb;
  }

  /** Every field within the range the constructor accepts. */
  predicate IsValid(dt: DateTime)
  {
    && 1 <= dt.year <= 9999
    && 1 <= dt.month <= 12
    && 1 <= dt.day <= DaysInMonth(dt.year, dt.month)
    && 0 <= dt.hour <= 23
    && 0 <= dt.minute <= 59
    && 0 <= dt.second <= 59
    && 0 <= dt.microsecond <= 999_999
  }

  /** The constructor: a date-time from its fields, or InvalidTimestamp. */
  function MakeDateTime(year: int, month: int, day: int, hour: int, minute: int, second: int, microsecond: int)
    : (r: Result<DateTime, Error>)
    ensures r.Success? <==> IsValid(DateTime(year, month, day, hour, minute, second, microsecond))
    ensures r.Success? ==> r.value == DateTime(year, month, day, hour, minute, second, microsecond)
    ensures r.Failure? ==> r.error == InvalidTimestamp
  {
    var dt := DateTime(year, month, day, hour, minute, second, microsecond);
    if IsValid(dt) then Success(dt) else Failure(InvalidTimestamp)
  }
}
