/** `date_time_conversions.hpp`: seconds since the epoch and calendar date-times. */
module Timestamps {
  import opened Words
  import opened Calendar
  import opened FastDate

  const MIN_YEAR: int := -2967369602200
  const MAX_YEAR: int := 292277022000
  const UNIX_EPOCH: int := 1970
  const SEC_PER_DAY: int := 86400

  /** `DateTimeStruct`. */
  datatype DateTime = DateTime(year: int, mon: int, day: int, hour: int, min: int, sec: int, ms: int)

  predicate IsTimestamp(ts: int) {
    -TWO_63 <= ts < TWO_63
  }

  // ----- validation.hpp -----

  /** `is_leap_year_date`: bit masks on two's complement instead of divisions by 4 and 400. */
  predicate IsLeapYearDate(year: int)
    ensures IsLeapYearDate(year) <==> IsLeap(year)
  {
    LeapMasks(year);
    U64(year) % 4 == 0 && (TruncMod(year, 25) != 0 || U64(year) % 16 == 0)
  }

  /** Divisible by 4 and 25 is divisible by 100; by 16 and 25, by 400. */
  lemma LeapMasks(year: int)
    ensures U64(year) % 4 == year % 4 && U64(year) % 16 == year % 16
    ensures TruncMod(year, 25) == 0 <==> year % 25 == 0
    ensures IsLeap(year) <==> year % 4 == 0 && (year % 25 != 0 || year % 16 == 0)
  {
    var q, r := year / TWO_64, year % TWO_64;
    DivModUnique(year, 4, 0x4000_0000_0000_0000 * q + r / 4, r % 4);
    DivModUnique(year, 16, 0x1000_0000_0000_0000 * q + r / 16, r % 16);
    FloorForms(year, 25);
    LeapByCoprimes(year);
  }

  lemma LeapByCoprimes(year: int)
    ensures IsLeap(year) <==> year % 4 == 0 && (year % 25 != 0 || year % 16 == 0)
  {
    var (q, r) := (year / 400, year % 400);
    DivModUnique(year, 4, 100 * q + r / 4, r % 4);
    DivModUnique(year, 16, 25 * q + r / 16, r % 16);
    DivModUnique(year, 25, 16 * q + r / 25, r % 25);
    DivModUnique(year, 100, 4 * q + r / 100, r % 100);
    LeapInCycle(r);
  }

  /** Within one 400-year cycle. */
  lemma LeapInCycle(r: nat)
    requires r < 400
    ensures (r % 4 == 0 && (r % 100 != 0 || r == 0)) <==> r % 4 == 0 && (r % 25 != 0 || r % 16 == 0)
  {
    if r % 100 == 0 {
      var h := r / 100;
      assert r == 100 * h && h in {0, 1, 2, 3};
    } else if r % 4 == 0 && r % 25 == 0 {
      DivModUnique(r, 100, r / 4 - 6 * (r / 25), 0);
      assert false;
    }
  }

  /** `num_days_in_month`, including months outside 1..12. */
  function NumDaysInMonth(year: int, month: int): (n: int)
    ensures 1 <= month <= 12 ==> n == MonthLength(year, month)
    ensures !(1 <= month <= 12) ==> n == 0
  {
    if month > 12 || month < 0 then 0
    else if month == 2 then (if IsLeapYearDate(year) then 29 else 28)
    else [0, 31, 30, 31, 30, 31, 30, 31, 31, 30, 31, 30, 31][month]
  }

  /** `is_valid_date`, with its day/year swap for DD-MM-YYYY arguments. */
  predicate IsValidDate(year: int, month: int, day: int)
    decreases if day > 31 then 1 else 0
  {
    if day > 31 && year <= 31 then IsValidDate(day, month, year)
    else if year < MIN_YEAR || year > MAX_YEAR || month < 1 || month > 12 || day < 1 || day > 31 then false
    else if month == 2 then (if IsLeapYearDate(year) then day <= 29 else day <= 28)
    else if month in {4, 6, 9, 11} then day <= 30
    else true
  }

  /** What `is_valid_date` accepts: calendar dates in the year range, written either way round. */
  lemma IsValidDateExactly(year: int, month: int, day: int)
    ensures IsValidDate(year, month, day) <==>
      if day > 31 && year <= 31 then IsDate(Date(day, month, year)) && day <= MAX_YEAR
      else IsDate(Date(year, month, day)) && MIN_YEAR <= year <= MAX_YEAR
  {
  }

  predicate IsValidTime(hour: int, min: int, sec: int, ms: int) {
    0 <= hour <= 23 && 0 <= min <= 59 && 0 <= sec <= 59 && 0 <= ms <= 999
  }

  predicate IsValidDateTime(dt: DateTime) {
    IsValidDate(dt.year, dt.mon, dt.day) && IsValidTime(dt.hour, dt.min, dt.sec, dt.ms)
  }

  // ----- seconds to date-time and back -----

  /** `to_date_time` on an integral timestamp. */
  function ToDateTime(ts: int): DateTime {
    var split := SplitUnixDay(ts);
    var date := DateFromDays(split.0);
    var hour := split.1 / 3600;
    var minSecs := split.1 - hour * 3600;
    var min := minSecs / 60;
    DateTime(date.year, date.month, date.day, hour, min, minSecs - min * 60, 0)
  }

  /** `to_timestamp_unchecked`, with its day/year swap. */
  function ToTimestampUnchecked(dt: DateTime): int
    requires 1 <= dt.mon <= 12
    decreases if dt.day >= UNIX_EPOCH then 1 else 0
  {
    if dt.day >= UNIX_EPOCH && dt.year <= 31 then
      ToTimestampUnchecked(dt.(year := dt.day, day := dt.year))
    else
      DaysFromDate(dt.year, dt.mon, dt.day) * SEC_PER_DAY + 3600 * dt.hour + 60 * dt.min + dt.sec
  }

  function DateOf(dt: DateTime): Date {
    Date(dt.year, dt.mon, dt.day)
  }

  lemma DaysOfTimestamp(ts: int)
    requires IsTimestamp(ts)
    ensures -MAX_DAYS <= ts / SEC_PER_DAY <= MAX_DAYS
  {
  }

  /** What `to_date_time` returns: the date the day-by-day calendar reaches after `ts / 86400` days
      (rounded down), and the time of day. */
  lemma ToDateTimeCorrect(ts: int)
    requires IsTimestamp(ts)
    ensures var dt := ToDateTime(ts);
            && DateOf(dt) == DayByDay(ts / SEC_PER_DAY)
            && 0 <= dt.hour <= 23 && 0 <= dt.min <= 59 && 0 <= dt.sec <= 59 && dt.ms == 0
            && 3600 * dt.hour + 60 * dt.min + dt.sec == ts % SEC_PER_DAY
            && IsDate(DateOf(dt)) && -YEAR_LIMIT <= dt.year <= YEAR_LIMIT
  {
    hide DateFromDays, DayByDay, IsDate, ToDateTime;
    DaysOfTimestamp(ts);
    DateFromDaysCorrect(ts / SEC_PER_DAY);
    YearRange(ts / SEC_PER_DAY);
    ClockFields(ts);
  }

  lemma ClockFields(ts: int)
    ensures var dt := ToDateTime(ts);
            && DateOf(dt) == DateFromDays(ts / SEC_PER_DAY)
            && IsValidTime(dt.hour, dt.min, dt.sec, dt.ms) && dt.ms == 0
            && 3600 * dt.hour + 60 * dt.min + dt.sec == ts % SEC_PER_DAY
  {
    hide DateFromDays;
  }

  /** `to_timestamp_unchecked` on a calendar date-time. */
  lemma ToTimestampCorrect(dt: DateTime)
    requires IsDate(DateOf(dt)) && -YEAR_LIMIT <= dt.year <= YEAR_LIMIT
    ensures ToTimestampUnchecked(dt) == DayNumber(DateOf(dt)) * SEC_PER_DAY + 3600 * dt.hour + 60 * dt.min + dt.sec
  {
    hide DaysFromDate, DayNumber;
    DaysFromDateCorrect(DateOf(dt));
  }

  /** Converting a timestamp to a date-time and back is the identity on all of `int64_t`. */
  lemma TimestampRoundTrip(ts: int)
    requires IsTimestamp(ts)
    ensures var dt := ToDateTime(ts); 1 <= dt.mon <= 12 && ToTimestampUnchecked(dt) == ts
  {
    hide ToDateTime, ToTimestampUnchecked, DayByDay, DayNumber;
    ToDateTimeCorrect(ts);
    ToTimestampCorrect(ToDateTime(ts));
    DayNumberOfWalk(ts / SEC_PER_DAY);
  }

  /** Converting any calendar date-time whose timestamp fits `int64_t` and back is the identity. */
  lemma DateTimeRoundTrip(dt: DateTime)
    requires IsDate(DateOf(dt)) && -YEAR_LIMIT <= dt.year <= YEAR_LIMIT
    requires IsValidTime(dt.hour, dt.min, dt.sec, 0) && dt.ms == 0
    requires IsTimestamp(ToTimestampUnchecked(dt))
    ensures ToDateTime(ToTimestampUnchecked(dt)) == dt
  {
    hide ToDateTime, ToTimestampUnchecked, DayByDay, DayNumber;
    var ts := ToTimestampUnchecked(dt);
    var n, secs := DayNumber(DateOf(dt)), 3600 * dt.hour + 60 * dt.min + dt.sec;
    ToTimestampCorrect(dt);
    DivModUnique(ts, SEC_PER_DAY, n, secs);
    ToDateTimeCorrect(ts);
    WalkOfDayNumber(DateOf(dt));
    ClockUnique(ToDateTime(ts), dt);
  }

  lemma ClockUnique(a: DateTime, b: DateTime)
    requires IsValidTime(a.hour, a.min, a.sec, 0) && IsValidTime(b.hour, b.min, b.sec, 0)
    requires 3600 * a.hour + 60 * a.min + a.sec == 3600 * b.hour + 60 * b.min + b.sec
    ensures a.hour == b.hour && a.min == b.min && a.sec == b.sec
  {
  }

  /** A date given as day, month, year is valid when the date is, but gets the timestamp of the date only from 1970 on:
      earlier years are taken for so many days of the month. */
  lemma DayFirst(d: Date, hour: int, min: int, sec: int)
    requires IsDate(d) && 31 < d.year <= MAX_YEAR
    ensures IsValidDate(d.day, d.month, d.year)
    ensures var ts := DayNumber(d) * SEC_PER_DAY + 3600 * hour + 60 * min + sec;
      ToTimestampUnchecked(DateTime(d.day, d.month, d.year, hour, min, sec, 0)) == ts <==> d.year >= UNIX_EPOCH
  {
    hide DaysFromDate, DayNumber;
    IsValidDateExactly(d.day, d.month, d.year);
    if d.year >= UNIX_EPOCH {
      assert DateOf(DateTime(d.year, d.month, d.day, hour, min, sec, 0)) == d;
      ToTimestampCorrect(DateTime(d.year, d.month, d.day, hour, min, sec, 0));
    } else {
      DaysOfYearAsDay(d);
    }
  }

  lemma DaysOfYearAsDay(d: Date)
    requires IsDate(d) && 31 < d.year < UNIX_EPOCH
    ensures DaysFromDate(d.day, d.month, d.year) < DayNumber(d)
  {
    hide DaysFromDate, MarchFirst, DoyFromMarch, DaysBeforeMarchMonth;
    DaysFromDateClosed(d.day, d.month, d.year);
    DateInTable(d);
    MarchFirstGrows(if d.month <= 2 then d.day - 1 else d.day, MarchYear(d));
  }

  /** The year a timestamp lies in, by the day-by-day calendar. */
  function YearOf(ts: int): int {
    DayByDay(ts / SEC_PER_DAY).year
  }

  /** `years_since_epoch` by the fast algorithm. */
  function YearsSinceEpoch(ts: int): (y: int)
    requires IsTimestamp(ts)
    ensures y == YearOf(ts) - UNIX_EPOCH
  {
    DaysOfTimestamp(ts);
    DateFromDaysCorrect(ts / SEC_PER_DAY);
    YearFromDays(SplitUnixDay(ts).0) - UNIX_EPOCH
  }

  /** `weekday_of_ts` (0 = Sunday). */
  function WeekdayOfTs(ts: int): (w: int)
    ensures w == (ts / SEC_PER_DAY + 4) % 7
  {
    FloorMod(FloorDiv(ts, SEC_PER_DAY) + 4, 7)
  }
}
