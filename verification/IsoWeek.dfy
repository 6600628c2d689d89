/** `date_conversions.hpp` weekdays and `iso_week_conversions.hpp`: the ISO 8601 week calendar. */
module IsoWeek {
  import opened Words
  import opened Calendar
  import opened FastDate
  import opened Timestamps

  /** The sum that `day_of_week_date` reduces modulo 7; every division truncates. */
  function WeekdaySum(year: int, month: int, day: int): int
    requires 1 <= month <= 12
  {
    var a := TruncDiv(14 - month, 12);
    var y := year - a;
    var m := month + 12 * a - 2;
    7000 + (day + y + TruncDiv(y, 4) - TruncDiv(y, 100) + TruncDiv(y, 400) + TruncDiv(31 * m, 12))
  }

  /** `day_of_week_date` (0 = Sunday). */
  function DayOfWeekDate(year: int, month: int, day: int): int
    requires 1 <= month <= 12
  {
    TruncMod(WeekdaySum(year, month, day), 7)
  }

  /** Weekday of a day number: 1970-01-01 was a Thursday. */
  function WeekdayOfDay(n: int): (w: int)
    ensures 0 <= w < 7
  {
    (n + 4) % 7
  }

  /** `31 * m / 12` is the March month table, shifted by two, modulo 7. */
  lemma MonthShift(month: int)
    requires 1 <= month <= 12
    ensures var a := TruncDiv(14 - month, 12);
            && a == (if month <= 2 then 1 else 0)
            && TruncDiv(31 * (month + 12 * a - 2), 12) >= 0
            && (DaysBeforeMarchMonth(if month <= 2 then month + 9 else month - 3) + 2
                - TruncDiv(31 * (month + 12 * a - 2), 12)) % 7 == 0
  {
  }

  /** Truncating instead of flooring adds one to the leap days of a negative year that is not itself a leap year. */
  lemma TruncatedLeapDays(y: int)
    ensures TruncDiv(y, 4) - TruncDiv(y, 100) + TruncDiv(y, 400)
         == y / 4 - y / 100 + y / 400 + (if y >= 0 || IsLeap(y) then 0 else 1)
  {
    TruncatedQuotient(y, 4);
    TruncatedQuotient(y, 100);
    TruncatedQuotient(y, 400);
    hide TruncDiv;
  }

  lemma TruncatedQuotient(y: int, b: int)
    requires b > 0
    ensures TruncDiv(y, b) == y / b + (if y < 0 && y % b != 0 then 1 else 0)
  {
    FloorForms(y, b);
  }

  /** Up to that one, the sum is the day count modulo 7. */
  lemma WeekdaySumCounts(d: Date)
    requires IsDate(d)
    ensures (WeekdaySum(d.year, d.month, d.day) - (if MarchYear(d) >= 0 || IsLeap(MarchYear(d)) then 0 else 1)) % 7
         == WeekdayOfDay(DayNumber(d))
  {
    hide DaysBeforeMarchMonth, TruncDiv, IsLeap;
    var y := MarchYear(d);
    MonthShift(d.month);
    TruncatedLeapDays(y);
    var start := DaysBeforeMarchMonth(if d.month <= 2 then d.month + 9 else d.month - 3);
    var shift := TruncDiv(31 * (d.month + 12 * TruncDiv(14 - d.month, 12) - 2), 12);
    assert DayNumber(d) == MarchFirst(y) + start + d.day - 1;
    FlooredSums(y, start, shift, d.day);
  }

  lemma FlooredSums(y: int, start: int, shift: int, day: int)
    requires (start + 2 - shift) % 7 == 0
    ensures (7000 + (day + y + (y / 4 - y / 100 + y / 400) + shift)) % 7 == WeekdayOfDay(MarchFirst(y) + start + day - 1)
  {
    var r := 7000 + (day + y + (y / 4 - y / 100 + y / 400) + shift);
    var n := MarchFirst(y) + start + day - 1 + 4;
    var k := (start + 2 - shift) / 7;
    assert n == r + 7 * (52 * y + k - 103781);
    DivModUnique(n, 7, r / 7 + 52 * y + k - 103781, r % 7);
  }

  /** The closed weekday formula is right exactly when the divisions of its year lose nothing by truncation, and the
      remainder of its sum does not come out negative. */
  lemma DayOfWeekDateExactly(d: Date)
    requires IsDate(d)
    ensures var (y, sum) := (MarchYear(d), WeekdaySum(d.year, d.month, d.day));
      DayOfWeekDate(d.year, d.month, d.day) == WeekdayOfDay(DayNumber(d))
      <==> y >= 0 || (IsLeap(y) && (sum >= 0 || sum % 7 == 0))
  {
    hide WeekdaySum, DayNumber, IsLeap;
    var sum := WeekdaySum(d.year, d.month, d.day);
    WeekdaySumCounts(d);
    FloorForms(sum, 7);
    if MarchYear(d) >= 0 { SumFromYearZero(d); }
  }

  lemma SumFromYearZero(d: Date)
    requires IsDate(d) && MarchYear(d) >= 0
    ensures WeekdaySum(d.year, d.month, d.day) >= 0
  {
    MonthShift(d.month);
  }

  /** From year 1 on, the closed weekday formula is the day count modulo 7. */
  lemma DayOfWeekDateCorrect(d: Date)
    requires IsDate(d) && d.year >= 1
    ensures DayOfWeekDate(d.year, d.month, d.day) == WeekdayOfDay(DayNumber(d))
  {
    hide DayOfWeekDate, WeekdaySum, DayNumber;
    DayOfWeekDateExactly(d);
  }

  /** Before March of year 0 it can be wrong: 1 March of year -1. */
  lemma DayOfWeekDateBeforeYearZero()
    ensures DayOfWeekDate(-1, 3, 1) != WeekdayOfDay(DayNumber(Date(-1, 3, 1)))
  {
  }

  /** The two weekday functions of the library agree on every timestamp from year 1 on. */
  lemma WeekdaysAgree(ts: int)
    requires IsTimestamp(ts) && ToDateTime(ts).year >= 1
    ensures var dt := ToDateTime(ts);
      1 <= dt.mon <= 12 && DayOfWeekDate(dt.year, dt.mon, dt.day) == WeekdayOfTs(ts)
  {
    hide ToDateTime, DayByDay, DayNumber, DayOfWeekDate;
    ToDateTimeCorrect(ts);
    DayNumberOfWalk(ts / SEC_PER_DAY);
    DayOfWeekDateCorrect(DateOf(ToDateTime(ts)));
  }

  // ----- ISO week dates -----

  datatype IsoWeekDate = IsoWeekDate(year: int, week: int, weekday: int)

  /** `iso_weekday_of_date`: 1 = Monday .. 7 = Sunday. */
  function IsoWeekdayOfDate(year: int, month: int, day: int): int
    requires 1 <= month <= 12
  {
    var w := DayOfWeekDate(year, month, day);
    if w == 0 then 7 else w
  }

  /** `to_iso_week_date`. */
  function ToIsoWeekDate(year: int, month: int, day: int): IsoWeekDate
    requires 1 <= month <= 12
  {
    var isoWeekday := IsoWeekdayOfDate(year, month, day);
    var thursdayDay := DaysFromDate(year, month, day) + (4 - isoWeekday);
    var isoYear := ToDateTime(thursdayDay * SEC_PER_DAY).year;
    var firstThursday := DaysFromDate(isoYear, 1, 4) + (4 - IsoWeekdayOfDate(isoYear, 1, 4));
    IsoWeekDate(isoYear, TruncDiv(thursdayDay - firstThursday, 7) + 1, isoWeekday)
  }

  /** `iso_weeks_in_year`. */
  function IsoWeeksInYear(isoYear: int): int {
    ToIsoWeekDate(isoYear, 12, 28).week
  }

  /** `is_valid_iso_week_date`. */
  predicate IsValidIsoWeekDate(iso: IsoWeekDate) {
    MIN_YEAR <= iso.year <= MAX_YEAR && 1 <= iso.weekday <= 7 && 1 <= iso.week <= IsoWeeksInYear(iso.year)
  }

  datatype Result<T> = Ok(value: T) | InvalidArgument

  /** `iso_week_date_to_date`; the source throws on an invalid week date. */
  function IsoWeekDateToDate(iso: IsoWeekDate): Result<Date> {
    if !IsValidIsoWeekDate(iso) then InvalidArgument
    else
      var firstThursday := DaysFromDate(iso.year, 1, 4) + (4 - IsoWeekdayOfDate(iso.year, 1, 4));
      var targetDay := firstThursday + (iso.week - 1) * 7 + (iso.weekday - 4);
      Ok(DateOf(ToDateTime(targetDay * SEC_PER_DAY)))
  }

  // ----- the week calendar on day numbers, as section 4.1.4 of ISO 8601:2004 defines it -----

  /** ISO weekday of a day number. */
  function IsoWeekdayOfDay(n: int): (w: int)
    ensures 1 <= w <= 7
  {
    if WeekdayOfDay(n) == 0 then 7 else WeekdayOfDay(n)
  }

  /** The Thursday of the Monday-to-Sunday week holding day `n`. */
  function ThursdayOf(n: int): (t: int)
    ensures n - 3 <= t <= n + 3 && IsoWeekdayOfDay(t) == 4
  {
    WeekdayShift(n, 4 - IsoWeekdayOfDay(n));
    n + 4 - IsoWeekdayOfDay(n)
  }

  lemma WeekdayShift(n: int, k: int)
    ensures WeekdayOfDay(n + k) == (WeekdayOfDay(n) + k) % 7
  {
    DivModUnique(n + k + 4, 7, (n + 4) / 7 + ((n + 4) % 7 + k) / 7, ((n + 4) % 7 + k) % 7);
  }

  /** The first Thursday of a year: the one in the week of 4 January. */
  function FirstThursday(y: int): (t: int)
    ensures JanuaryFirst(y) <= t <= JanuaryFirst(y) + 6 && IsoWeekdayOfDay(t) == 4
  {
    ThursdayOf(JanuaryFirst(y) + 3)
  }

  /** Two Thursdays are whole weeks apart. */
  lemma WeeksBetween(s: int, t: int)
    requires IsoWeekdayOfDay(s) == 4 && IsoWeekdayOfDay(t) == 4
    ensures (t - s) % 7 == 0
  {
    WeekdayShift(s, t - s);
    assert (4 + (t - s)) % 7 == 4;
  }

  /** The ISO week date of day `n`: the year and week are those of its week's Thursday. */
  function IsoOfDay(n: int): IsoWeekDate {
    var t := ThursdayOf(n);
    var y := DayByDay(t).year;
    IsoWeekDate(y, (t - FirstThursday(y)) / 7 + 1, IsoWeekdayOfDay(n))
  }

  /** The day an ISO week date names. */
  function DayOfIso(iso: IsoWeekDate): int {
    FirstThursday(iso.year) + (iso.week - 1) * 7 + (iso.weekday - 4)
  }

  /** A week date is real when its weekday exists and its week's Thursday falls in its year. */
  ghost predicate IsIsoWeekDate(iso: IsoWeekDate) {
    1 <= iso.weekday <= 7 && 1 <= iso.week && FirstThursday(iso.year) + (iso.week - 1) * 7 < JanuaryFirst(iso.year + 1)
  }

  /** Day numbers and real ISO week dates are in bijection. */
  lemma IsoOfDayInverts(n: int)
    ensures IsIsoWeekDate(IsoOfDay(n)) && DayOfIso(IsoOfDay(n)) == n
  {
    hide DayByDay, JanuaryFirst, FirstThursday, WeekdayOfDay;
    var t := ThursdayOf(n);
    var y := DayByDay(t).year;
    YearOfDay(t, y);
    WeeksBetween(FirstThursday(y), t);
    assert t - FirstThursday(y) > -7;
  }

  lemma DayOfIsoInverts(iso: IsoWeekDate)
    requires IsIsoWeekDate(iso)
    ensures IsoOfDay(DayOfIso(iso)) == iso
  {
    hide DayByDay, JanuaryFirst, FirstThursday, WeekdayOfDay;
    var t := FirstThursday(iso.year) + (iso.week - 1) * 7;
    var n := DayOfIso(iso);
    WeekdayFromThursday(FirstThursday(iso.year), iso.week - 1, iso.weekday);
    assert ThursdayOf(n) == t;
    YearOfDay(t, iso.year);
  }

  lemma WeekdayFromThursday(t: int, weeks: int, weekday: int)
    requires IsoWeekdayOfDay(t) == 4 && 1 <= weekday <= 7
    ensures IsoWeekdayOfDay(t + weeks * 7 + (weekday - 4)) == weekday
  {
    WeekdayShift(t, weeks * 7 + (weekday - 4));
    DivModUnique(4 + (weeks * 7 + (weekday - 4)), 7, weeks + (if weekday == 7 then 1 else 0), weekday % 7);
  }

  /** Days on which the week conversions stay inside `int64_t` seconds and the weekday formula holds. */
  predicate InWeekRange(n: int) {
    JanuaryFirst(1) <= n < MAX_DAYS - 3
  }

  lemma FirstThursdayByFormula(y: int)
    requires 1 <= y <= YEAR_LIMIT
    ensures DaysFromDate(y, 1, 4) + (4 - IsoWeekdayOfDate(y, 1, 4)) == FirstThursday(y)
  {
    hide DaysFromDate, DayOfWeekDate, WeekdayOfDay, DayNumber, JanuaryFirst, DayByDay;
    DaysFromDateCorrect(Date(y, 1, 4));
    DayOfWeekDateCorrect(Date(y, 1, 4));
    JanuaryFourth(y);
  }

  lemma JanuaryFourth(y: int)
    ensures DayNumber(Date(y, 1, 4)) == JanuaryFirst(y) + 3
  {
    hide MarchFirst;
  }

  lemma YearOfMidnight(n: int)
    requires -MAX_DAYS < n < MAX_DAYS
    ensures DateOf(ToDateTime(n * SEC_PER_DAY)) == DayByDay(n)
  {
    hide ToDateTime, DayByDay;
    ToDateTimeCorrect(n * SEC_PER_DAY);
    assert n * SEC_PER_DAY / SEC_PER_DAY == n;
  }

  lemma ThursdayYear(n: int)
    requires InWeekRange(n)
    ensures 1 <= DayByDay(ThursdayOf(n)).year <= YEAR_LIMIT
    ensures -MAX_DAYS < ThursdayOf(n) < MAX_DAYS
  {
    hide DayByDay, WeekdayOfDay;
    var t := ThursdayOf(n);
    assert IsoWeekdayOfDay(JanuaryFirst(1)) == 1 by { FirstDayOfYearOne(); }
    YearOneStart(n);
    YearRange(t);
    YearOfDay(t, DayByDay(t).year);
    if DayByDay(t).year < 1 {
      JanuaryFirstGrows(DayByDay(t).year + 1, 1);
    }
  }

  lemma FirstDayOfYearOne()
    ensures JanuaryFirst(1) == -719162 && WeekdayOfDay(JanuaryFirst(1)) == 1
  {
  }

  /** 1 January of year 1 is a Monday, so no week of year 1 has its Thursday in year 0. */
  lemma YearOneStart(n: int)
    requires JanuaryFirst(1) <= n
    ensures ThursdayOf(n) >= JanuaryFirst(1)
  {
    hide DayByDay;
    FirstDayOfYearOne();
    var k := n - JanuaryFirst(1);
    WeekdayShift(JanuaryFirst(1), k);
    assert k < 3 ==> WeekdayOfDay(n) == 1 + k;
  }

  /** The pieces of the formula are those of the week calendar. */
  lemma WeekDateByFormula(d: Date, n: int)
    requires IsDate(d) && DaysFromDate(d.year, d.month, d.day) == n
    requires IsoWeekdayOfDate(d.year, d.month, d.day) == IsoWeekdayOfDay(n)
    requires var t := ThursdayOf(n);
      var y := DayByDay(t).year;
      ToDateTime(t * SEC_PER_DAY).year == y && DaysFromDate(y, 1, 4) + (4 - IsoWeekdayOfDate(y, 1, 4)) == FirstThursday(y) <= t
    ensures ToIsoWeekDate(d.year, d.month, d.day) == IsoOfDay(n)
  {
    hide DayByDay, DaysFromDate, IsoWeekdayOfDate, FirstThursday, ToDateTime, JanuaryFirst, IsoWeekdayOfDay, IsDate;
  }

  /** `to_iso_week_date` computes the ISO 8601 week date of every date from year 1 on. */
  lemma ToIsoWeekDateCorrect(d: Date)
    requires IsDate(d) && d.year >= 1 && InWeekRange(DayNumber(d))
    ensures ToIsoWeekDate(d.year, d.month, d.day) == IsoOfDay(DayNumber(d))
  {
    hide DayByDay, DaysFromDate, DayOfWeekDate, WeekdayOfDay, FirstThursday, DayNumber, ToDateTime, JanuaryFirst, IsDate,
      ToIsoWeekDate, ThursdayOf, IsoOfDay;
    var n := DayNumber(d);
    YearsInRange(n, d);
    DaysFromDateCorrect(d);
    DayOfWeekDateCorrect(d);
    ThursdayYear(n);
    YearOfMidnight(ThursdayOf(n));
    var y := DayByDay(ThursdayOf(n)).year;
    FirstThursdayByFormula(y);
    FirstThursdayBefore(n);
    WeekDateByFormula(d, n);
  }

  lemma FirstThursdayBefore(n: int)
    ensures FirstThursday(DayByDay(ThursdayOf(n)).year) <= ThursdayOf(n)
  {
    hide DayByDay, JanuaryFirst, WeekdayOfDay, FirstThursday;
    IsoOfDayInverts(n);
  }

  lemma YearsInRange(n: int, d: Date)
    requires IsDate(d) && DayNumber(d) == n && InWeekRange(n)
    ensures -YEAR_LIMIT <= d.year <= YEAR_LIMIT
  {
    hide DayByDay, DayNumber;
    WalkOfDayNumber(d);
    assert JanuaryFirst(1) == -719162 by { FirstDayOfYearOne(); }
    YearRange(n);
  }

  /** `iso_weeks_in_year`: 53 exactly when 1 January is a Thursday, or a Wednesday in a leap year. */
  lemma IsoWeeksInYearCorrect(y: int)
    requires 1 <= y <= MAX_YEAR
    ensures var w := WeekdayOfDay(JanuaryFirst(y));
            IsoWeeksInYear(y) == if w == 4 || (w == 3 && IsLeap(y)) then 53 else 52
    ensures FirstThursday(y) + (IsoWeeksInYear(y) - 1) * 7 < JanuaryFirst(y + 1) <= FirstThursday(y) + IsoWeeksInYear(y) * 7
  {
    hide DayByDay, ToIsoWeekDate, DayNumber, IsLeap, WeekdayOfDay, FirstThursday, JanuaryFirst;
    var n := JanuaryFirst(y + 1) - 4;
    December28(y);
    ToIsoWeekDateCorrect(Date(y, 12, 28));
    JanuaryFirstStep(y);
    var t := ThursdayOf(n);
    YearOfDay(t, y);
    WeeksBetween(FirstThursday(y), t);
    FirstThursdayOffset(y);
  }

  lemma FirstThursdayOffset(y: int)
    ensures FirstThursday(y) == JanuaryFirst(y) + (4 - WeekdayOfDay(JanuaryFirst(y))) % 7
  {
    hide JanuaryFirst;
    WeekdayShift(JanuaryFirst(y), 3);
  }

  lemma December28(y: int)
    requires 1 <= y <= MAX_YEAR
    ensures DayNumber(Date(y, 12, 28)) == JanuaryFirst(y + 1) - 4 && InWeekRange(DayNumber(Date(y, 12, 28)))
  {
    hide MarchFirst;
    var d := Date(y, 12, 28);
    assert DayNumber(d) == MarchFirst(y) + 302 && JanuaryFirst(y + 1) == MarchFirst(y) + 306;
    JanuaryFirstGrows(1, y);
    JanuaryFirstStep(y);
    assert MarchFirst(y) <= MarchFirst(MAX_YEAR) by { MarchFirstGrows(y, MAX_YEAR); }
    LastDayBound();
  }

  lemma LastDayBound()
    ensures MarchFirst(MAX_YEAR) + 306 < MAX_DAYS
  {
  }

  /** `is_valid_iso_week_date` accepts exactly the real week dates, from year 1 to MAX_YEAR. */
  lemma IsValidIsoWeekDateExactly(iso: IsoWeekDate)
    requires 1 <= iso.year
    ensures IsValidIsoWeekDate(iso) <==> IsIsoWeekDate(iso) && iso.year <= MAX_YEAR
  {
    hide FirstThursday, JanuaryFirst, IsoWeeksInYear;
    if iso.year <= MAX_YEAR {
      IsoWeeksInYearCorrect(iso.year);
    }
  }

  /** Date to week date and back. */
  lemma DateIsoRoundTrip(d: Date)
    requires IsDate(d) && d.year >= 1 && InWeekRange(DayNumber(d)) && DayByDay(ThursdayOf(DayNumber(d))).year <= MAX_YEAR
    ensures IsoWeekDateToDate(ToIsoWeekDate(d.year, d.month, d.day)) == Ok(d)
  {
    hide DayByDay, ToIsoWeekDate, DayNumber, FirstThursday, JanuaryFirst, DaysFromDate;
    hide IsoWeekdayOfDate, IsValidIsoWeekDate, ToDateTime, MarchFirst, WeekdayOfDay, IsDate, ThursdayOf;
    var n := DayNumber(d);
    ToIsoWeekDateCorrect(d);
    IsoOfDayInverts(n);
    ThursdayYear(n);
    var iso := IsoOfDay(n);
    IsValidIsoWeekDateExactly(iso);
    FirstThursdayByFormula(iso.year);
    assert JanuaryFirst(1) == -719162 by { FirstDayOfYearOne(); }
    YearOfMidnight(n);
    WalkOfDayNumber(d);
  }

  /** Week date to date and back. */
  lemma IsoDateRoundTrip(iso: IsoWeekDate)
    requires 1 <= iso.year && IsValidIsoWeekDate(iso)
    ensures var r := IsoWeekDateToDate(iso);
            r.Ok? && IsDate(r.value) && ToIsoWeekDate(r.value.year, r.value.month, r.value.day) == iso
  {
    hide DayByDay, ToIsoWeekDate, DayNumber, FirstThursday, JanuaryFirst;
    hide DaysFromDate, IsoWeekdayOfDate, IsValidIsoWeekDate, ToDateTime, MarchFirst, WeekdayOfDay;
    IsValidIsoWeekDateExactly(iso);
    FirstThursdayByFormula(iso.year);
    var n := DayOfIso(iso);
    IsoDayInRange(iso);
    YearOfMidnight(n);
    DayOfIsoInverts(iso);
    DayNumberOfWalk(n);
    ToIsoWeekDateCorrect(DayByDay(n));
  }

  /** The days of a valid week date lie from year 1 on and below the last representable day. */
  lemma IsoDayInRange(iso: IsoWeekDate)
    requires 1 <= iso.year <= MAX_YEAR && IsIsoWeekDate(iso)
    ensures InWeekRange(DayOfIso(iso)) && -MAX_DAYS < DayOfIso(iso) < MAX_DAYS && DayByDay(DayOfIso(iso)).year >= 1
  {
    hide DayByDay, FirstThursday, MarchFirst, WeekdayOfDay, DayNumber;
    var n := DayOfIso(iso);
    FirstDayOfYearOne();
    JanuaryFirstGrows(1, iso.year);
    JanuaryFirstGrows(iso.year + 1, MAX_YEAR + 1);
    assert JanuaryFirst(MAX_YEAR + 1) + 10 < MAX_DAYS by { LastJanuaryBound(); }
    FirstThursdayOffset(iso.year);
    assert n >= JanuaryFirst(1) by { if iso.year > 1 { JanuaryFirstGrows(2, iso.year); JanuaryFirstStep(1); } }
    YearOfDay(n, DayByDay(n).year);
    if DayByDay(n).year < 1 {
      JanuaryFirstGrows(DayByDay(n).year + 1, 1);
    }
  }

  lemma LastJanuaryBound()
    ensures JanuaryFirst(MAX_YEAR + 1) + 10 < MAX_DAYS
  {
  }
}
