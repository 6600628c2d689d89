/** The older conversions: a countdown from year 292277022000 in steps of 400, 100, 4 and 1 years. */
module Legacy {
  import opened Words
  import opened Calendar
  import opened FastDate
  import opened Timestamps

  const BIAS_292277022000: int := 9223371890843040000
  const BIAS_2000: int := 946684800
  const SEC_PER_YEAR: int := 31536000
  const SEC_PER_LEAP_YEAR: int := 31622400
  const SEC_PER_4_YEARS: int := 126230400
  const SEC_PER_100_YEARS: int := 3155673600
  const SEC_PER_400_YEARS: int := 12622780800

  /** Timestamps on which `-((ts - BIAS_2000) - BIAS_292277022000)` neither overflows nor goes negative. */
  predicate InCountdown(ts: int) {
    -145065051007 <= ts <= BIAS_292277022000 + BIAS_2000
  }

  /** Strictly between 00:00:00 on 1 January and 00:00:00 on 2 January of a leap year. */
  predicate InsideLeapNewYear(ts: int) {
    var y := YearOf(ts);
    IsLeap(y) && SEC_PER_DAY * JanuaryFirst(y) < ts < SEC_PER_DAY * (JanuaryFirst(y) + 1)
  }

  /** Days from 1 January of year MAX_YEAR - k to 1 January of MAX_YEAR. */
  function Down(k: nat): int {
    365 * k + k / 4 - k / 100 + k / 400
  }

  lemma JanuaryDown(k: nat)
    ensures JanuaryFirst(MAX_YEAR - k) == JanuaryFirst(MAX_YEAR) - Down(k)
    ensures SEC_PER_DAY * JanuaryFirst(MAX_YEAR) == BIAS_292277022000 + BIAS_2000
  {
    hide MarchFirst;
    MirrorMarchFirst(730692555, k);
    MirrorMarchFirst(730692555, 0);
    assert JanuaryFirst(MAX_YEAR - k) == MarchFirst(400 * 730692555 - 1 - k) + 306;
  }

  /** Years counted down in steps of 400, 100, 4 and 1. */
  function Steps(a: nat, b: nat, c: nat, e: nat): nat {
    400 * a + 100 * b + 4 * c + e
  }

  lemma DownOfSteps(a: nat, b: nat, c: nat, e: nat)
    requires b < 4 && c < 25 && e < 4
    ensures Down(Steps(a, b, c, e)) == 146097 * a + 36524 * b + 1461 * c + 365 * e
  {
    var k := Steps(a, b, c, e);
    DivModUnique(k, 4, 100 * a + 25 * b + c, e);
    DivModUnique(k, 100, 4 * a + b, 4 * c + e);
    DivModUnique(k, 400, a, 100 * b + 4 * c + e);
  }

  lemma DownNext(k: nat)
    ensures Down(k + 1) == Down(k) + YearLength(MAX_YEAR - k - 1)
  {
    JanuaryDown(k);
    JanuaryDown(k + 1);
    JanuaryFirstStep(MAX_YEAR - k - 1);
    hide Down, JanuaryFirst;
  }

  /** One pass of the countdown: the quotients and the remainder. */
  ghost predicate Counted(s: int, a: int, b: int, c: int, e: int, rest: int) {
    && s == a * SEC_PER_400_YEARS + b * SEC_PER_100_YEARS + c * SEC_PER_4_YEARS + e * SEC_PER_YEAR + rest
    && a >= 0 && b >= 0 && c >= 0 && e >= 0
    && 0 <= rest < SEC_PER_YEAR
    && e * SEC_PER_YEAR + rest < SEC_PER_4_YEARS
    && c * SEC_PER_4_YEARS + e * SEC_PER_YEAR + rest < SEC_PER_100_YEARS
    && b * SEC_PER_100_YEARS + c * SEC_PER_4_YEARS + e * SEC_PER_YEAR + rest < SEC_PER_400_YEARS
  }

  /** Where the countdown stops: either `rest` seconds below 1 January of year MAX_YEAR - k, or, when a
      quotient reached 4 one day early, inside 1 January of a leap year (counting from its end). */
  lemma WhereItStops(s: int, a: int, b: int, c: int, e: int, rest: int)
    requires Counted(s, a, b, c, e, rest)
    ensures var k := Steps(a, b, c, e);
            if b < 4 && e < 4 then s == SEC_PER_DAY * Down(k) + rest
            else k > 0 && rest < SEC_PER_DAY && s == SEC_PER_DAY * (Down(k) - 1) + rest
                 && YearLength(MAX_YEAR - k) == 366
  {
    hide Down, YearLength, IsLeap;
    if b == 4 {
      assert c == 0 && e == 0;
      DownOfSteps(a + 1, 0, 0, 0);
      DownOfSteps(a, 3, 24, 3);
      assert Steps(a, 4, 0, 0) == Steps(a + 1, 0, 0, 0) == Steps(a, 3, 24, 3) + 1;
      DownNext(Steps(a, 3, 24, 3));
    } else if e == 4 {
      assert c < 24;
      DownOfSteps(a, b, c + 1, 0);
      DownOfSteps(a, b, c, 3);
      assert Steps(a, b, c, 4) == Steps(a, b, c + 1, 0) == Steps(a, b, c, 3) + 1;
      DownNext(Steps(a, b, c, 3));
    } else {
      assert b < 4 && c < 25 && e < 4;
      DownOfSteps(a, b, c, e);
    }
  }

  /** The year of a timestamp, by its distance below 1 January of MAX_YEAR. */
  lemma YearByDistance(ts: int, k: nat)
    requires SEC_PER_DAY * Down(k) <= BIAS_292277022000 + BIAS_2000 - ts < SEC_PER_DAY * Down(k + 1)
    ensures BIAS_292277022000 + BIAS_2000 - ts == SEC_PER_DAY * Down(k) ==> YearOf(ts) == MAX_YEAR - k
    ensures BIAS_292277022000 + BIAS_2000 - ts > SEC_PER_DAY * Down(k) ==> YearOf(ts) == MAX_YEAR - k - 1
  {
    hide Down, JanuaryFirst, DayByDay;
    var s := BIAS_292277022000 + BIAS_2000 - ts;
    JanuaryDown(k);
    JanuaryDown(k + 1);
    JanuaryFirstStep(MAX_YEAR - k);
    if s == SEC_PER_DAY * Down(k) {
      assert ts == SEC_PER_DAY * JanuaryFirst(MAX_YEAR - k);
      YearOfDay(ts / SEC_PER_DAY, MAX_YEAR - k);
    } else {
      YearOfDay(ts / SEC_PER_DAY, MAX_YEAR - k - 1);
    }
  }

  /** The year the countdown names. */
  function Named(a: int, b: int, c: int, e: int, rest: int): int {
    MAX_YEAR - 400 * a - 100 * b - 4 * c - e - (if rest == 0 then 0 else 1)
  }

  lemma NamedYear(ts: int, a: int, b: int, c: int, e: int, rest: int)
    requires Counted(BIAS_292277022000 + BIAS_2000 - ts, a, b, c, e, rest)
    ensures Named(a, b, c, e, rest) == YearOf(ts) - (if InsideLeapNewYear(ts) then 1 else 0)
    ensures !InsideLeapNewYear(ts) ==>
      SEC_PER_DAY * JanuaryFirst(Named(a, b, c, e, rest) + (if rest == 0 then 0 else 1)) - rest ==
      if b < 4 && e < 4 then ts else ts - SEC_PER_DAY
    ensures InsideLeapNewYear(ts) ==> rest > 0 && SEC_PER_DAY * (JanuaryFirst(YearOf(ts)) + 1) - rest == ts
    ensures InsideLeapNewYear(ts) <==> (b == 4 || e == 4) && rest > 0
    ensures b == 4 || e == 4 ==> rest < SEC_PER_DAY && IsLeap(YearOf(ts))
  {
    hide Down, JanuaryFirst, YearOf;
    var s, k := BIAS_292277022000 + BIAS_2000 - ts, Steps(a, b, c, e);
    WhereItStops(s, a, b, c, e, rest);
    JanuaryDown(k);
    if b < 4 && e < 4 {
      DownNext(k);
      YearByDistance(ts, k);
      JanuaryDown(k + 1);
    } else {
      DownNext(k - 1);
      YearByDistance(ts, k - 1);
    }
  }

  /** `legacy::years_since_epoch`: right everywhere except strictly inside 1 January of a leap year,
      where it names the year before. */
  method YearsSinceEpochLegacy(ts: int) returns (r: int)
    requires InCountdown(ts)
    ensures r + UNIX_EPOCH == YearOf(ts) - (if InsideLeapNewYear(ts) then 1 else 0)
  {
    hide YearOf, InsideLeapNewYear;
    var y := MAX_YEAR;
    var secs := -((ts - BIAS_2000) - BIAS_292277022000);
    var n400 := TruncDiv(secs, SEC_PER_400_YEARS);
    secs := secs - n400 * SEC_PER_400_YEARS;
    y := y - n400 * 400;
    var n100 := TruncDiv(secs, SEC_PER_100_YEARS);
    secs := secs - n100 * SEC_PER_100_YEARS;
    y := y - n100 * 100;
    var n4 := TruncDiv(secs, SEC_PER_4_YEARS);
    secs := secs - n4 * SEC_PER_4_YEARS;
    y := y - n4 * 4;
    var n1 := TruncDiv(secs, SEC_PER_YEAR);
    secs := secs - n1 * SEC_PER_YEAR;
    y := y - n1;
    NamedYear(ts, n400, n100, n4, n1, secs);
    y := if secs == 0 then y else y - 1;
    r := y - UNIX_EPOCH;
  }

  lemma YearBeforeLeap(y: int)
    requires IsLeap(y)
    ensures !IsLeap(y - 1)
  {
  }

  /** `is_leap_year_ts`: wrong exactly strictly inside 1 January of a leap year. */
  method IsLeapYearTs(ts: int) returns (b: bool)
    requires InCountdown(ts)
    ensures b <==> IsLeap(YearOf(ts)) && !InsideLeapNewYear(ts)
  {
    hide YearOf, JanuaryFirst;
    var y := MAX_YEAR;
    var secs := -((ts - BIAS_2000) - BIAS_292277022000);
    var n400 := TruncDiv(secs, SEC_PER_400_YEARS);
    secs := secs - n400 * SEC_PER_400_YEARS;
    y := y - n400 * 400;
    var n100 := TruncDiv(secs, SEC_PER_100_YEARS);
    secs := secs - n100 * SEC_PER_100_YEARS;
    y := y - n100 * 100;
    var n4 := TruncDiv(secs, SEC_PER_4_YEARS);
    secs := secs - n4 * SEC_PER_4_YEARS;
    y := y - n4 * 4;
    var n1 := TruncDiv(secs, SEC_PER_YEAR);
    secs := secs - n1 * SEC_PER_YEAR;
    y := y - n1;
    NamedYear(ts, n400, n100, n4, n1, secs);
    y := if secs == 0 then y else y - 1;
    if InsideLeapNewYear(ts) {
      YearBeforeLeap(YearOf(ts));
    }
    b := IsLeapYearDate(y);
  }

  /** The exception is real: one second into 2000. */
  lemma NewYear2000IsMisnamed()
    ensures InCountdown(946684801) && YearOf(946684801) == 2000 && InsideLeapNewYear(946684801)
  {
    hide DayByDay;
    YearOfDay(10957, 2000);
    assert 946684801 / SEC_PER_DAY == 10957;
  }

  // ----- legacy::to_timestamp_unchecked -----

  /** `mos` and `lmos`: days before a month in a common and in a leap year. */
  function DaysBeforeMonth(leap: bool, month: int): int
    requires 1 <= month <= 12
  {
    if leap then [0, 31, 60, 91, 121, 152, 182, 213, 244, 274, 305, 335][month - 1]
    else [0, 31, 59, 90, 120, 151, 181, 212, 243, 273, 304, 334][month - 1]
  }

  lemma DayOfYear(d: Date)
    requires IsDate(d)
    ensures DayNumber(d) == JanuaryFirst(d.year) + DaysBeforeMonth(IsLeap(d.year), d.month) + d.day - 1
  {
    hide MarchFirst;
    MarchFirstStep(d.year - 1);
  }

  /** The countdown of years, on values. */
  lemma DownOfYears(years: nat, a: int, b: int, c: int, e: int)
    requires a == years / 400 && b == years % 400 / 100 && c == years % 100 / 4 && e == years % 4
    ensures years == Steps(a, b, c, e) && 0 <= b < 4 && 0 <= c < 25
    ensures SEC_PER_DAY * Down(years) == a * SEC_PER_400_YEARS + b * SEC_PER_100_YEARS + c * SEC_PER_4_YEARS + e * SEC_PER_YEAR
  {
    StepsOf(years);
    DownOfSteps(a, b, c, e);
    hide Down;
  }

  lemma StepsOf(years: nat)
    ensures years == 400 * (years / 400) + 100 * (years % 400 / 100) + 4 * (years % 100 / 4) + years % 4
  {
    var q, r := years / 400, years % 400;
    DivModUnique(years, 100, 4 * q + r / 100, r % 100);
    DivModUnique(years, 4, 100 * q + r / 4, r % 4);
    assert r % 100 / 4 * 4 + r % 4 == r % 100;
  }

  lemma QuotientsOf(years: nat)
    ensures var y4 := years - years / 400 * 400;
            var y2 := y4 - y4 / 100 * 100;
            var y1 := y2 - y2 / 4 * 4;
            y4 / 100 == years % 400 / 100 && y2 / 4 == years % 100 / 4 && y1 == years % 4
  {
    var q, r := years / 400, years % 400;
    DivModUnique(years, 100, 4 * q + r / 100, r % 100);
    DivModUnique(years, 4, 100 * q + r / 4, r % 4);
  }

  /** `legacy::to_timestamp_unchecked` equals the fast conversion on every calendar date-time of the
      years where its own 64-bit sums stay in range. */
  method ToTimestampUncheckedLegacy(dt: DateTime) returns (ts: int)
    requires IsDate(DateOf(dt)) && -2600 <= dt.year <= MAX_YEAR
    requires IsValidTime(dt.hour, dt.min, dt.sec, 0)
    ensures ts == ToTimestampUnchecked(dt)
  {
    hide Down, JanuaryFirst, ToTimestampUnchecked, DayNumber;
    var secs := 0;
    var years := MAX_YEAR - dt.year;
    ghost var k := years;
    QuotientsOf(k);
    var n400 := TruncDiv(years, 400);
    secs := secs + n400 * SEC_PER_400_YEARS;
    years := years - n400 * 400;
    var n100 := TruncDiv(years, 100);
    secs := secs + n100 * SEC_PER_100_YEARS;
    years := years - n100 * 100;
    var n4 := TruncDiv(years, 4);
    secs := secs + n4 * SEC_PER_4_YEARS;
    years := years - n4 * 4;
    secs := secs + years * SEC_PER_YEAR;
    DownOfYears(k, n400, n100, n4, years);
    assert 0 <= secs < TWO_63;
    secs := BIAS_292277022000 - secs;
    secs := secs + BIAS_2000;
    JanuaryDown(k);
    DayOfYear(DateOf(dt));
    ToTimestampCorrect(dt);
    if dt.mon == 1 && dt.day == 1 && dt.hour == 0 && dt.min == 0 && dt.sec == 0 {
      return secs;
    }
    secs := secs + (DaysBeforeMonth(IsLeapYearDate(dt.year), dt.mon) + dt.day - 1) * SEC_PER_DAY;
    ts := secs + 3600 * dt.hour + 60 * dt.min + dt.sec;
  }

  // ----- legacy::to_date_time -----

  /** `TABLE_MONTH_OF_YEAR`: month of day `i` (from 0) of a common year. */
  function TableMonth(i: int): (m: int)
    requires 0 <= i < 365
    ensures 1 <= m <= 12 && DaysBeforeMonth(false, m) <= i
    ensures m < 12 ==> i < DaysBeforeMonth(false, m + 1)
  {
    if i < 31 then 1 else if i < 59 then 2 else if i < 90 then 3 else if i < 120 then 4
    else if i < 151 then 5 else if i < 181 then 6 else if i < 212 then 7 else if i < 243 then 8
    else if i < 273 then 9 else if i < 304 then 10 else if i < 334 then 11 else 12
  }

  /** `TABLE_DAY_OF_YEAR`. */
  function TableDay(i: int): int
    requires 0 <= i < 365
  {
    i - DaysBeforeMonth(false, TableMonth(i)) + 1
  }

  /** Table lookup with the leap-year shift after 28 February. */
  function DateInYear(year: int, days: int): (d: Date)
    requires 0 <= days < YearLength(year)
  {
    if IsLeapYearDate(year) then
      Date(year,
           if days >= 59 then TableMonth(days - 1) else TableMonth(days),
           if days == 59 then TableDay(days - 1) + 1
           else if days > 59 then TableDay(days - 1) else TableDay(days))
    else
      Date(year, TableMonth(days), TableDay(days))
  }

  lemma DateInYearCorrect(year: int, days: int)
    requires 0 <= days < YearLength(year)
    ensures DateInYear(year, days) == DayByDay(JanuaryFirst(year) + days)
  {
    hide DayByDay, JanuaryFirst, DayNumber, IsLeap;
    var d := DateInYear(year, days);
    DateInYearShape(year, days);
    DayOfYear(d);
    WalkOfDayNumber(d);
  }

  lemma DateInYearShape(year: int, days: int)
    requires 0 <= days < YearLength(year)
    ensures var d := DateInYear(year, days);
            IsDate(d) && d.year == year && DaysBeforeMonth(IsLeap(year), d.month) + d.day - 1 == days
  {
    hide IsLeap;
  }

  /** After 00:00:00 on 1 January of a leap year and up to 00:00:00 on 2 January, that instant included. */
  predicate LateLeapNewYear(ts: int) {
    var y := YearOf(ts);
    IsLeap(y) && SEC_PER_DAY * JanuaryFirst(y) < ts <= SEC_PER_DAY * (JanuaryFirst(y) + 1)
  }

  /** The midnights at which the countdown ends in its year-start branch. */
  predicate NewYearMidnight(ts: int) {
    var y := YearOf(ts);
    ts == SEC_PER_DAY * JanuaryFirst(y) || (IsLeap(y) && ts == SEC_PER_DAY * (JanuaryFirst(y) + 1))
  }

  /** The time-of-day fields, which the year-start branch leaves unset. */
  datatype Clock = Unset | Clock(hour: int, min: int, sec: int)

  /** `legacy::to_date_time`: the date is right everywhere except on `LateLeapNewYear`, where it is one day early; the
      time of day is right wherever it is set at all. */
  method ToDateLegacy(ts: int) returns (d: Date, clock: Clock)
    requires InCountdown(ts)
    ensures d == DayByDay(ts / SEC_PER_DAY - (if LateLeapNewYear(ts) then 1 else 0))
    ensures clock.Unset? <==> NewYearMidnight(ts)
    ensures clock.Clock? ==> IsValidTime(clock.hour, clock.min, clock.sec, 0)
                             && 3600 * clock.hour + 60 * clock.min + clock.sec == ts % SEC_PER_DAY
  {
    hide YearOf, JanuaryFirst, DayByDay, IsLeap;
    var y := MAX_YEAR;
    var secs := -((ts - BIAS_2000) - BIAS_292277022000);
    var n400 := TruncDiv(secs, SEC_PER_400_YEARS);
    secs := secs - n400 * SEC_PER_400_YEARS;
    y := y - n400 * 400;
    var n100 := TruncDiv(secs, SEC_PER_100_YEARS);
    secs := secs - n100 * SEC_PER_100_YEARS;
    y := y - n100 * 100;
    var n4 := TruncDiv(secs, SEC_PER_4_YEARS);
    secs := secs - n4 * SEC_PER_4_YEARS;
    y := y - n4 * 4;
    var n1 := TruncDiv(secs, SEC_PER_YEAR);
    secs := secs - n1 * SEC_PER_YEAR;
    y := y - n1;
    RestOfYear(ts, n400, n100, n4, n1, secs);
    if secs == 0 {
      DateInYearCorrect(y, 0);
      return Date(y, 1, 1), Unset;
    }
    var year := y - 1;
    secs := if IsLeapYearDate(year) then SEC_PER_LEAP_YEAR - secs else SEC_PER_YEAR - secs;
    var days := TruncDiv(secs, SEC_PER_DAY);
    DateInYearCorrect(year, days);
    var daySecs := FloorMod(secs, SEC_PER_DAY);
    var hour := daySecs / 3600;
    var minSecs := daySecs - hour * 3600;
    var min := minSecs / 60;
    return DateInYear(year, days), Clock(hour, min, minSecs - min * 60);
  }

  /** Seconds since 1 January of the named year, in the branch that subtracts from a whole year. */
  lemma RestOfYear(ts: int, a: int, b: int, c: int, e: int, rest: int)
    requires Counted(BIAS_292277022000 + BIAS_2000 - ts, a, b, c, e, rest)
    ensures var y, day := Named(a, b, c, e, rest), ts / SEC_PER_DAY - (if LateLeapNewYear(ts) then 1 else 0);
            var secs := SEC_PER_DAY * YearLength(y) - rest;
            if rest == 0 then day == JanuaryFirst(y)
            else 0 <= secs < SEC_PER_DAY * YearLength(y) && day == JanuaryFirst(y) + secs / SEC_PER_DAY
                 && secs % SEC_PER_DAY == ts % SEC_PER_DAY
    ensures rest == 0 <==> NewYearMidnight(ts)
  {
    hide YearOf, JanuaryFirst, IsLeap;
    NamedYear(ts, a, b, c, e, rest);
    var y := Named(a, b, c, e, rest);
    JanuaryFirstStep(y);
    if InsideLeapNewYear(ts) {
      YearBeforeLeap(YearOf(ts));
    } else if rest > 0 {
      assert ts == SEC_PER_DAY * JanuaryFirst(y) + (SEC_PER_DAY * YearLength(y) - rest);
    }
  }

  /** The exception is real: the midnight that ends 1 January 2000 is given that day, and no time. */
  lemma MidnightAfterNewYear2000()
    ensures InCountdown(946771200) && LateLeapNewYear(946771200) && NewYearMidnight(946771200)
    ensures DayByDay(946771200 / SEC_PER_DAY) == Date(2000, 1, 2)
  {
    hide DayByDay;
    YearOfDay(10958, 2000);
    WalkOfDayNumber(Date(2000, 1, 2));
    assert DayNumber(Date(2000, 1, 2)) == 10958 == 946771200 / SEC_PER_DAY;
  }

  // ----- legacy::date_to_unix_day -----

  /** `legacy::date_to_unix_day`: the month table replaced by `(153 * m + 2) / 5`. */
  function DateToUnixDayLegacy(year: int, month: int, day: int): int
    requires 1 <= month <= 12 && day >= 1
  {
    var y := year - (if month <= 2 then 1 else 0);
    var m := if month <= 2 then month + 9 else month - 3;
    var era := TruncDiv(if y >= 0 then y else y - 399, 400);
    var yoe := y - era * 400;
    var doy := TruncDiv(153 * m + 2, 5) + day - 1;
    var doe := yoe * 365 + TruncDiv(yoe, 4) - TruncDiv(yoe, 100) + doy;
    era * 146097 + doe - 719468
  }

  lemma DateToUnixDayAgrees(d: Date)
    requires IsDate(d)
    ensures DateToUnixDayLegacy(d.year, d.month, d.day) == DayNumber(d)
    ensures -YEAR_LIMIT <= d.year <= YEAR_LIMIT ==>
      DateToUnixDayLegacy(d.year, d.month, d.day) == DaysFromDate(d.year, d.month, d.day)
  {
    hide MarchFirst, DaysFromDate, TruncDiv;
    var y := MarchYear(d);
    TruncatedEra(y);
    EraForm(y, y / 400, y % 400);
    MonthFormula(if d.month <= 2 then d.month + 9 else d.month - 3);
    if -YEAR_LIMIT <= d.year <= YEAR_LIMIT {
      DaysFromDateCorrect(d);
    }
  }

  lemma MonthFormula(m: int)
    requires 0 <= m < 12
    ensures TruncDiv(153 * m + 2, 5) == DaysBeforeMarchMonth(m)
  {
  }

  lemma TruncatedEra(y: int)
    ensures TruncDiv(if y >= 0 then y else y - 399, 400) == y / 400
    ensures var yoe := y - y / 400 * 400;
            yoe == y % 400 && TruncDiv(yoe, 4) == yoe / 4 && TruncDiv(yoe, 100) == yoe / 100
  {
    if y < 0 {
      DivModUnique(-(y - 399), 400, -(y / 400), 399 - y % 400);
    }
  }
}
