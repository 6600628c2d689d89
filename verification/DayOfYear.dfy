/** The format parser's `%j`: from the day of the year to month and day, and back. */
module DayOfYearCode {
  import opened Calendar
  import opened Timestamps
  import L = Legacy

  /** `compute_day_of_year`. */
  function ComputeDayOfYear(year: int, month: int, day: int): int
    requires 1 <= month <= 12
  {
    [0, 31, 59, 90, 120, 151, 181, 212, 243, 273, 304, 334][month - 1] + day
    + if month > 2 && IsLeapYearDate(year) then 1 else 0
  }

  /** It counts the days since 1 January. */
  lemma ComputeDayOfYearCounts(d: Date)
    requires IsDate(d)
    ensures ComputeDayOfYear(d.year, d.month, d.day) == DayNumber(d) - JanuaryFirst(d.year) + 1
    ensures 1 <= ComputeDayOfYear(d.year, d.month, d.day) <= YearLength(d.year)
  {
    L.DayOfYear(d);
  }

  function DaysPerMonth(month: int): int
    requires 1 <= month <= 12
  {
    [31, 28, 31, 30, 31, 30, 31, 31, 30, 31, 30, 31][month - 1]
  }

  /** The first day of a month in the count. */
  lemma MonthStarts(year: int, month: int)
    requires 1 <= month < 12
    ensures ComputeDayOfYear(year, month + 1, 0) == ComputeDayOfYear(year, month, 0) + MonthLength(year, month)
    ensures MonthLength(year, month) == DaysPerMonth(month) + if month == 2 && IsLeapYearDate(year) then 1 else 0
  {
  }

  lemma DecemberStarts(year: int)
    ensures ComputeDayOfYear(year, 12, 0) + 31 == YearLength(year)
  {
  }

  /** `resolve_day_of_year`: succeeds exactly on the days the year has, and inverts the count. */
  method ResolveDayOfYear(year: int, dayOfYear: int) returns (ok: bool, month: int, day: int)
    ensures ok <==> 1 <= dayOfYear <= YearLength(year)
    ensures ok ==> IsDate(Date(year, month, day)) && ComputeDayOfYear(year, month, day) == dayOfYear
  {
    hide IsLeapYearDate;
    month, day := 0, 0;
    if dayOfYear < 1 {
      return false, month, day;
    }
    var leap := IsLeapYearDate(year);
    var maxDay := if leap then 366 else 365;
    if dayOfYear > maxDay {
      return false, month, day;
    }
    var remaining := dayOfYear;
    month := 1;
    DecemberStarts(year);
    while month <= 12
      invariant 1 <= month <= 12 && remaining >= 1 && dayOfYear == ComputeDayOfYear(year, month, 0) + remaining
      decreases 12 - month
    {
      var days := DaysPerMonth(month);
      if month == 2 && leap { days := days + 1; }
      if month < 12 { MonthStarts(year, month); }
      if remaining <= days {
        day := remaining;
        return true, month, day;
      }
      remaining := remaining - days;
      month := month + 1;
    }
    assert false;
  }

  /** So every date is recovered from its day of the year. */
  lemma DayOfYearDetermines(d: Date, e: Date)
    requires IsDate(d) && IsDate(e) && d.year == e.year
    requires ComputeDayOfYear(d.year, d.month, d.day) == ComputeDayOfYear(e.year, e.month, e.day)
    ensures d == e
  {
    ComputeDayOfYearCounts(d);
    ComputeDayOfYearCounts(e);
    DayNumberOrders(d, e);
  }
}
