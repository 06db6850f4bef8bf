/** The `Date` and `Year` columns that the timeline view adds to the table.
    `to_datetime` folds the Date.Year, Date.Month and Date.Day columns into
    the number YYYYMMDD and reads the date back from its digits, so a row
    holding a calendar date gets that date, and a row that does not may still
    spell one (month 0 and day 101 spell January 1). */
module Dates {
  import opened Events

  datatype Date = Date(year: int, month: int, day: int)

  /** Raised for the first row whose numbers spell no representable date;
      it aborts the whole view. */
  datatype DateError = InvalidDate(year: int, month: int, day: int)

  predicate IsLeapYear(y: int) {
    (y % 4 == 0 && y % 100 != 0) || y % 400 == 0
  }

  /** The length of month `m` of year `y` in the Gregorian calendar. */
  function DaysInMonth(y: int, m: int): (n: int)
    requires 1 <= m <= 12
    ensures n == 31 <==> m in {1, 3, 5, 7, 8, 10, 12}
    ensures n == 30 <==> m in {4, 6, 9, 11}
    ensures n == 29 <==> m == 2 && IsLeapYear(y)
    ensures n == 28 <==> m == 2 && !IsLeapYear(y)
  {
    if m == 2 then (if IsLeapYear(y) then 29 else 28)
    else if m == 4 || m == 6 || m == 9 || m == 11 then 30
    else 31
  }

  predicate ValidDate(y: int, m: int, d: int) {
    1 <= m <= 12 && 1 <= d <= DaysInMonth(y, m)
  }

  /** `to_datetime` on a year/month/day frame first folds the three columns
      into one number, year * 10000 + month * 100 + day ... */
  function Assembled(e: Event): int {
    e.year * 10000 + e.month * 100 + e.day
  }

  /** ... and then reads that number as the digits YYYYMMDD. */
  function Spelled(e: Event): Date {
    var v := Assembled(e);
    Date(v / 10000, v / 100 % 100, v % 100)
  }

  /** `d` is not earlier than the day (y, m, day). */
  predicate NotBefore(d: Date, y: int, m: int, day: int) {
    d.year > y || (d.year == y && (d.month > m || (d.month == m && d.day >= day)))
  }

  /** `d` is not later than the day (y, m, day). */
  predicate NotAfter(d: Date, y: int, m: int, day: int) {
    d.year < y || (d.year == y && (d.month < m || (d.month == m && d.day <= day)))
  }

  /** Midnight of `d` is a nanosecond Timestamp: between 1677-09-21 00:12:43
      and 2262-04-11 23:47:16, so from 1677-09-22 to 2262-04-11. */
  predicate InTimestampRange(d: Date) {
    NotBefore(d, 1677, 9, 22) && NotAfter(d, 2262, 4, 11)
  }

  /** The date a row's three numbers spell, if it is a calendar date pandas can
      represent; otherwise the error naming the row's values. */
  function ToDate(e: Event): (r: Result<Date, DateError>)
    ensures r.Ok? <==> ValidDate(Spelled(e).year, Spelled(e).month, Spelled(e).day) && InTimestampRange(Spelled(e))
    ensures r.Ok? ==> r.value == Spelled(e)
    ensures r.Err? ==> r.error == InvalidDate(e.year, e.month, e.day)
  {
    var d := Spelled(e);
    if ValidDate(d.year, d.month, d.day) && InTimestampRange(d) then Ok(d)
    else Err(InvalidDate(e.year, e.month, e.day))
  }

  /** A row holding a calendar date spells exactly that date. */
  lemma CalendarDateSpellsItself(e: Event)
    requires ValidDate(e.year, e.month, e.day)
    ensures Spelled(e) == Date(e.year, e.month, e.day)
  {
    var v := Assembled(e);
    var low := e.month * 100 + e.day;
    assert 0 <= low < 10000 && v == e.year * 10000 + low;
    assert v / 10000 == e.year;
    assert v / 100 == e.year * 100 + e.month;
    assert v % 100 == e.day;
  }

  /** Row `i` is the first row that does not convert. */
  predicate FirstInvalid(rows: seq<Event>, i: int) {
    0 <= i < |rows| && ToDate(rows[i]).Err? &&
    forall k :: 0 <= k < i ==> ToDate(rows[k]).Ok?
  }

  /** The `Date` column: one date per row, or the error for the first row that
      does not convert. */
  function DateColumn(rows: seq<Event>): (r: Result<seq<Date>, DateError>)
    ensures r.Ok? <==> forall i :: 0 <= i < |rows| ==> ToDate(rows[i]).Ok?
    ensures r.Ok? ==> |r.value| == |rows|
    ensures r.Ok? ==> forall i :: 0 <= i < |rows| ==> r.value[i] == Spelled(rows[i])
    ensures r.Err? ==> exists i :: FirstInvalid(rows, i) && r.error == InvalidDate(rows[i].year, rows[i].month, rows[i].day)
  {
    if rows == [] then Ok([])
    else
      match ToDate(rows[0])
      case Err(e) => Err(e)
      case Ok(d) =>
        match DateColumn(rows[1..])
        case Err(e) =>
          var i :| FirstInvalid(rows[1..], i) && e == InvalidDate(rows[1..][i].year, rows[1..][i].month, rows[1..][i].day);
          assert forall k :: 1 <= k < |rows| ==> rows[1..][k - 1] == rows[k];
          assert FirstInvalid(rows, i + 1);
          Err(e)
        case Ok(ds) =>
          assert forall k :: 1 <= k < |rows| ==> rows[1..][k - 1] == rows[k];
          Ok([d] + ds)
  }

  /** A row's `Year` value: the year of the date its numbers spell. */
  function Year(e: Event): int {
    Spelled(e).year
  }

  /** For a row holding a calendar date, `Year` is its `Date.Year`. */
  lemma YearOfCalendarDate(e: Event)
    requires ValidDate(e.year, e.month, e.day)
    ensures Year(e) == e.year
  {
    CalendarDateSpellsItself(e);
  }

  /** The `Year` column, read back from the `Date` column (`Date.dt.year`). */
  function YearColumn(rows: seq<Event>): (r: Result<seq<int>, DateError>)
    ensures r.Ok? <==> DateColumn(rows).Ok?
    ensures r.Err? ==> r.error == DateColumn(rows).error
    ensures r.Ok? ==> |r.value| == |rows| && forall i :: 0 <= i < |rows| ==> r.value[i] == Year(rows[i])
  {
    match DateColumn(rows)
    case Err(e) => Err(e)
    case Ok(ds) => Ok(seq(|ds|, i requires 0 <= i < |ds| => ds[i].year))
  }
}
