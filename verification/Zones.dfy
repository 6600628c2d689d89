/** `time_zone_conversions.hpp`: European and US civil time, whose two directions are written independently. */
module Zones {
  import opened Words
  import opened Calendar
  import opened Timestamps
  import opened IsoWeek

  const HOUR: int := 3600

  // ----- last Sundays -----

  /** `last_sunday_month_day`. */
  function LastSundayMonthDay(year: int, month: int): int
    requires 1 <= month <= 12
  {
    var days := NumDaysInMonth(year, month);
    days - DayOfWeekDate(year, month, days)
  }

  /** The greatest day up to `d` that the weekday formula calls a Sunday; 0 when there is none. */
  function LastSundayUpTo(year: int, month: int, d: nat): (r: nat)
    requires 1 <= month <= 12
    ensures r <= d
    ensures r > 0 ==> DayOfWeekDate(year, month, r) == 0
    ensures forall e :: r < e <= d ==> DayOfWeekDate(year, month, e) != 0
  {
    if d == 0 then 0
    else if DayOfWeekDate(year, month, d) == 0 then d
    else LastSundayUpTo(year, month, d - 1)
  }

  /** The Sunday a backward scan of the month meets first. */
  function LastSunday(year: int, month: int): nat
    requires 1 <= month <= 12
  {
    LastSundayUpTo(year, month, NumDaysInMonth(year, month))
  }

  lemma WeekdayInMonth(year: int, month: int, d: int, last: int)
    requires year >= 1 && 1 <= month <= 12 && 1 <= d <= MonthLength(year, month) && 1 <= last <= MonthLength(year, month)
    ensures DayOfWeekDate(year, month, d) == (DayOfWeekDate(year, month, last) + d - last) % 7
    ensures 0 <= DayOfWeekDate(year, month, last) < 7
  {
    hide DayOfWeekDate, MarchFirst, WeekdayOfDay, MonthLength;
    DayOfWeekDateCorrect(Date(year, month, d));
    DayOfWeekDateCorrect(Date(year, month, last));
    WeekdayShift(DayNumber(Date(year, month, last)), d - last);
  }

  /** From year 1 on, the scan finds the day the closed formula names, and it is the month's last Sunday. */
  lemma LastSundayAgrees(year: int, month: int)
    requires year >= 1 && 1 <= month <= 12
    ensures LastSunday(year, month) == LastSundayMonthDay(year, month)
    ensures MonthLength(year, month) - 7 < LastSunday(year, month) <= MonthLength(year, month)
    ensures WeekdayOfDay(DayNumber(Date(year, month, LastSunday(year, month)))) == 0
  {
    hide DayOfWeekDate, LastSundayUpTo, WeekdayOfDay, DayNumber, MonthLength;
    var days := MonthLength(year, month);
    var last := LastSundayMonthDay(year, month);
    WeekdayInMonth(year, month, days, days);
    WeekdayInMonth(year, month, last, days);
    assert DayOfWeekDate(year, month, last) == 0;
    var found := LastSunday(year, month);
    if found > last {
      WeekdayInMonth(year, month, found, days);
    }
    DayOfWeekDateCorrect(Date(year, month, last));
  }

  // ----- Central European Time -----

  /** Hours `cet_to_gmt` subtracts from a local date-time. */
  function CetOffsetHours(dt: DateTime): int {
    if dt.year < 2002 then
      if 3 < dt.mon < 10 then 2
      else if dt.mon == 3 then
        var last := LastSunday(dt.year, 3);
        if dt.day > last then 2 else if dt.day == last && dt.hour >= 2 then 2 else 1
      else if dt.mon == 10 then
        if dt.day < LastSunday(dt.year, 10) then 2 else 1
      else 1
    else
      if 3 < dt.mon < 10 then 2
      else if dt.mon == 3 then
        var last := LastSunday(dt.year, 3);
        if dt.day > last then 2 else if dt.day == last && dt.hour >= 3 then 2 else 1
      else if dt.mon == 10 then
        var last := LastSunday(dt.year, 10);
        if dt.day < last then 2 else if dt.day == last && dt.hour < 2 then 2 else 1
      else 1
  }

  function CetToGmt(cet: int): int {
    cet - HOUR * CetOffsetHours(ToDateTime(cet))
  }

  /** `cet_to_gmt_impl`: scans the month backwards for its last Sunday. */
  method CetToGmtImpl(cet: int) returns (gmt: int)
    requires IsTimestamp(cet)
    ensures gmt == CetToGmt(cet)
  {
    hide ToDateTime, DayOfWeekDate, LastSundayUpTo;
    var dt := ToDateTime(cet);
    assert IsDate(DateOf(dt)) by { ToDateTimeCorrect(cet); }
    var maxDays := NumDaysInMonth(dt.year, dt.mon);
    if dt.year < 2002 {
      if dt.mon > 3 && dt.mon < 10 {
        return cet - HOUR * 2;
      } else if dt.mon == 3 {
        var d := maxDays;
        while d >= dt.day
          invariant dt.day - 1 <= d <= maxDays
          invariant forall e :: d < e <= maxDays ==> DayOfWeekDate(dt.year, 3, e) != 0
        {
          if DayOfWeekDate(dt.year, 3, d) == 0 {
            if d == dt.day {
              if dt.hour >= 2 {
                return cet - HOUR * 2;
              }
              return cet - HOUR;
            }
            return cet - HOUR;
          }
          d := d - 1;
        }
        return cet - HOUR * 2;
      } else if dt.mon == 10 {
        var d := maxDays;
        while d >= dt.day
          invariant dt.day - 1 <= d <= maxDays
          invariant forall e :: d < e <= maxDays ==> DayOfWeekDate(dt.year, 10, e) != 0
        {
          if DayOfWeekDate(dt.year, 10, d) == 0 {
            if d == dt.day {
              return cet - HOUR;
            }
            return cet - HOUR * 2;
          }
          d := d - 1;
        }
        return cet - HOUR;
      }
      return cet - HOUR;
    }

    if dt.mon > 3 && dt.mon < 10 {
      return cet - HOUR * 2;
    }
    if dt.mon == 3 {
      var d := maxDays;
      while d >= dt.day
        invariant dt.day - 1 <= d <= maxDays
        invariant forall e :: d < e <= maxDays ==> DayOfWeekDate(dt.year, 3, e) != 0
      {
        if DayOfWeekDate(dt.year, 3, d) == 0 {
          if d == dt.day {
            if dt.hour >= 1 + 2 {
              return cet - HOUR * 2;
            }
            return cet - HOUR;
          }
          return cet - HOUR;
        }
        d := d - 1;
      }
      return cet - HOUR * 2;
    }
    if dt.mon == 10 {
      var d := maxDays;
      while d >= dt.day
        invariant dt.day - 1 <= d <= maxDays
        invariant forall e :: d < e <= maxDays ==> DayOfWeekDate(dt.year, 10, e) != 0
      {
        if DayOfWeekDate(dt.year, 10, d) == 0 {
          if d == dt.day {
            if dt.hour >= 1 + 1 {
              return cet - HOUR;
            }
            return cet - HOUR * 2;
          }
          return cet - HOUR * 2;
        }
        d := d - 1;
      }
    }
    return cet - HOUR;
  }

  /** `gmt_to_cet_impl`. */
  function GmtToCet(gmt: int): int {
    var dt := ToDateTime(gmt);
    if 3 < dt.mon < 10 then gmt + HOUR * 2
    else if dt.mon == 3 then
      var last := LastSundayMonthDay(dt.year, 3);
      if dt.day > last then gmt + HOUR * 2
      else if dt.day < last then gmt + HOUR
      else if dt.hour >= 1 then gmt + HOUR * 2
      else gmt + HOUR
    else if dt.mon == 10 then
      var last := LastSundayMonthDay(dt.year, 10);
      if dt.day > last then gmt + HOUR
      else if dt.day < last then gmt + HOUR * 2
      else if dt.hour >= 1 then gmt + HOUR
      else gmt + HOUR * 2
    else gmt + HOUR
  }

  // ----- switch instants on the seconds line -----

  /** `hour` o'clock on a date, in seconds. */
  function Instant(d: Date, hour: int): int
    requires IsDate(d)
  {
    DayNumber(d) * SEC_PER_DAY + HOUR * hour
  }

  /** A timestamp is at or after an instant exactly when its calendar fields are. */
  lemma AtOrAfter(ts: int, d: Date, hour: int)
    requires IsTimestamp(ts) && IsDate(d) && 0 <= hour <= 23
    ensures var dt := ToDateTime(ts);
            ts >= Instant(d, hour) <==> Before(d, DateOf(dt)) || (d == DateOf(dt) && dt.hour >= hour)
  {
    hide ToDateTime, DayByDay, DayNumber, Before;
    ToDateTimeCorrect(ts);
    var e := DateOf(ToDateTime(ts));
    DayNumberOfWalk(ts / SEC_PER_DAY);
    DayNumberOrders(d, e);
  }

  /** 01:00 UTC on the last Sunday of March and of October. */
  function SpringSwitch(y: int): int
    requires y >= 1
  {
    LastSundayAgrees(y, 3);
    Instant(Date(y, 3, LastSunday(y, 3)), 1)
  }

  function AutumnSwitch(y: int): int
    requires y >= 1
  {
    LastSundayAgrees(y, 10);
    Instant(Date(y, 10, LastSunday(y, 10)), 1)
  }

  /** `gmt_to_cet` adds two hours exactly between the two switches of the UTC year. */
  lemma GmtToCetBySwitches(g: int)
    requires IsTimestamp(g) && ToDateTime(g).year >= 1
    ensures var y := ToDateTime(g).year;
            GmtToCet(g) == g + HOUR * (if SpringSwitch(y) <= g < AutumnSwitch(y) then 2 else 1)
  {
    hide ToDateTime, LastSunday, Instant, LastSundayMonthDay;
    var dt := ToDateTime(g);
    ToDateTimeCorrect(g);
    LastSundayAgrees(dt.year, 3);
    LastSundayAgrees(dt.year, 10);
    AtOrAfter(g, Date(dt.year, 3, LastSunday(dt.year, 3)), 1);
    AtOrAfter(g, Date(dt.year, 10, LastSunday(dt.year, 10)), 1);
  }

  /** `cet_to_gmt` subtracts two hours exactly from 03:00 local on the spring switch day
      to 02:00 local on the autumn one (local years from 2002). */
  lemma CetToGmtBySwitches(l: int)
    requires IsTimestamp(l) && ToDateTime(l).year >= 2002
    ensures var y := ToDateTime(l).year;
            CetToGmt(l) == l - HOUR * (if SpringSwitch(y) + 2 * HOUR <= l < AutumnSwitch(y) + HOUR then 2 else 1)
  {
    hide ToDateTime, LastSunday, DayNumber, LastSundayMonthDay;
    var dt := ToDateTime(l);
    ToDateTimeCorrect(l);
    LastSundayAgrees(dt.year, 3);
    LastSundayAgrees(dt.year, 10);
    AtOrAfter(l, Date(dt.year, 3, LastSunday(dt.year, 3)), 3);
    AtOrAfter(l, Date(dt.year, 10, LastSunday(dt.year, 10)), 2);
  }

  /** Both switches of a year lie well inside it. */
  lemma SwitchesInsideYear(y: int)
    requires y >= 1
    ensures JanuaryFirst(y) * SEC_PER_DAY + 100 * HOUR <= SpringSwitch(y)
    ensures SpringSwitch(y) + 100 * HOUR <= AutumnSwitch(y)
    ensures AutumnSwitch(y) + 100 * HOUR <= JanuaryFirst(y + 1) * SEC_PER_DAY
  {
    hide LastSunday, MarchFirst;
    LastSundayAgrees(y, 3);
    LastSundayAgrees(y, 10);
    MarchFirstStep(y - 1);
  }

  lemma YearBounds(ts: int)
    requires IsTimestamp(ts)
    ensures var y := ToDateTime(ts).year;
            JanuaryFirst(y) * SEC_PER_DAY <= ts < JanuaryFirst(y + 1) * SEC_PER_DAY
  {
    hide ToDateTime, DayByDay, JanuaryFirst;
    ToDateTimeCorrect(ts);
    YearOfDay(ts / SEC_PER_DAY, ToDateTime(ts).year);
  }

  /** Timestamps a few hours apart lie in the same year or on the two sides of one new year. */
  lemma NearbyYears(a: int, b: int)
    requires IsTimestamp(a) && IsTimestamp(b) && a <= b <= a + 3 * HOUR
    ensures var ya, yb := ToDateTime(a).year, ToDateTime(b).year;
            ya == yb || (yb == ya + 1 && a + 3 * HOUR >= JanuaryFirst(yb) * SEC_PER_DAY && b < JanuaryFirst(yb) * SEC_PER_DAY + 3 * HOUR)
  {
    hide ToDateTime, JanuaryFirst;
    var ya, yb := ToDateTime(a).year, ToDateTime(b).year;
    YearBounds(a);
    YearBounds(b);
    JanuaryFirstStep(ya + 1);
    if yb < ya {
      JanuaryFirstGrows(yb + 1, ya);
    } else if yb > ya + 1 {
      JanuaryFirstGrows(ya + 2, yb);
    }
  }

  /** 00:00-00:59 UTC on the last Sunday of October: the local hour that is repeated. */
  predicate InRepeatedHour(g: int) {
    var y := ToDateTime(g).year;
    y >= 1 && AutumnSwitch(y) - HOUR <= g < AutumnSwitch(y)
  }

  /** 02:00-02:59 local on the last Sunday of March: the local hour that is skipped. */
  predicate InSkippedHour(l: int) {
    var y := ToDateTime(l).year;
    y >= 1 && SpringSwitch(y) + HOUR <= l < SpringSwitch(y) + 2 * HOUR
  }

  /** UTC timestamps whose Central European year is 2002 or later, away from overflow. */
  ghost predicate CetFromGmtDomain(g: int) {
    IsTimestamp(g) && IsTimestamp(g + 2 * HOUR) && ToDateTime(g).year >= 1 && ToDateTime(GmtToCet(g)).year >= 2002
  }

  /** Local timestamps of year 2002 or later, away from overflow. */
  ghost predicate CetFromLocalDomain(l: int) {
    IsTimestamp(l) && IsTimestamp(l - 2 * HOUR) && ToDateTime(l).year >= 2002
  }

  /** From UTC to Central European Time and back is the identity, except that the first pass over the
      repeated autumn hour comes back one hour late. */
  lemma CetRoundTripFromGmt(g: int)
    requires CetFromGmtDomain(g)
    ensures CetToGmt(GmtToCet(g)) == g + (if InRepeatedHour(g) then HOUR else 0)
  {
    hide ToDateTime, CetToGmt, GmtToCet, SpringSwitch, AutumnSwitch, JanuaryFirst;
    GmtToCetBySwitches(g);
    var l := GmtToCet(g);
    CetToGmtBySwitches(l);
    NearbyYears(g, l);
    SwitchesInsideYear(ToDateTime(g).year);
    SwitchesInsideYear(ToDateTime(l).year);
  }

  /** From Central European Time to UTC and back is the identity, except that the skipped spring hour
      comes back one hour later. */
  lemma CetRoundTripFromLocal(l: int)
    requires CetFromLocalDomain(l)
    ensures GmtToCet(CetToGmt(l)) == l + (if InSkippedHour(l) then HOUR else 0)
  {
    hide ToDateTime, CetToGmt, GmtToCet, SpringSwitch, AutumnSwitch, JanuaryFirst;
    CetToGmtBySwitches(l);
    var g := CetToGmt(l);
    NearbyYears(g, l);
    GmtToCetBySwitches(g);
    SwitchesInsideYear(ToDateTime(g).year);
    SwitchesInsideYear(ToDateTime(l).year);
  }

  // ----- local years before 2002 -----

  /** Before 2002 `cet_to_gmt` subtracts two hours from 02:00 local on the spring switch day until the
      autumn switch day begins. */
  lemma CetToGmtBySwitchesBefore2002(l: int)
    requires IsTimestamp(l) && 1 <= ToDateTime(l).year < 2002
    ensures var y := ToDateTime(l).year;
            CetToGmt(l) == l - HOUR * (if SpringSwitch(y) + HOUR <= l < AutumnSwitch(y) - HOUR then 2 else 1)
  {
    hide ToDateTime, LastSunday, DayNumber, LastSundayMonthDay;
    var dt := ToDateTime(l);
    ToDateTimeCorrect(l);
    LastSundayAgrees(dt.year, 3);
    LastSundayAgrees(dt.year, 10);
    AtOrAfter(l, Date(dt.year, 3, LastSunday(dt.year, 3)), 2);
    AtOrAfter(l, Date(dt.year, 10, LastSunday(dt.year, 10)), 0);
  }

  /** The last three UTC hours of summer time. */
  predicate BeforeAutumnSwitch(g: int) {
    var y := ToDateTime(g).year;
    y >= 1 && AutumnSwitch(y) - 3 * HOUR <= g < AutumnSwitch(y)
  }

  /** 00:00-01:59 local on the last Sunday of October. */
  predicate AroundAutumnSwitch(l: int) {
    var y := ToDateTime(l).year;
    y >= 1 && AutumnSwitch(y) - HOUR <= l < AutumnSwitch(y) + HOUR
  }

  /** Before 2002 the way back from UTC is wrong exactly in the three summer hours of the autumn switch day. */
  lemma CetRoundTripFromGmtBefore2002(g: int)
    requires IsTimestamp(g) && IsTimestamp(g + 2 * HOUR) && 1 <= ToDateTime(g).year && ToDateTime(GmtToCet(g)).year < 2002
    ensures CetToGmt(GmtToCet(g)) == g + (if BeforeAutumnSwitch(g) then HOUR else 0)
  {
    hide ToDateTime, CetToGmt, GmtToCet, SpringSwitch, AutumnSwitch, JanuaryFirst;
    GmtToCetBySwitches(g);
    var l := GmtToCet(g);
    NearbyYears(g, l);
    CetToGmtBySwitchesBefore2002(l);
    SwitchesInsideYear(ToDateTime(g).year);
    SwitchesInsideYear(ToDateTime(l).year);
  }

  /** And the way back from local time exactly in the skipped hour, an hour early, and in the first two hours of
      the autumn switch day, an hour late. */
  lemma CetRoundTripFromLocalBefore2002(l: int)
    requires IsTimestamp(l) && IsTimestamp(l - 2 * HOUR) && ToDateTime(l).year < 2002 && ToDateTime(CetToGmt(l)).year >= 1
    ensures ToDateTime(l).year >= 1
    ensures GmtToCet(CetToGmt(l)) == l + (if InSkippedHour(l) then -HOUR else if AroundAutumnSwitch(l) then HOUR else 0)
  {
    hide ToDateTime, CetToGmt, GmtToCet, SpringSwitch, AutumnSwitch, JanuaryFirst;
    var g := CetToGmt(l);
    assert l - 2 * HOUR <= g <= l by { CetOffsets(l); }
    NearbyYears(g, l);
    CetToGmtBySwitchesBefore2002(l);
    GmtToCetBySwitches(g);
    SwitchesInsideYear(ToDateTime(g).year);
    SwitchesInsideYear(ToDateTime(l).year);
  }

  lemma Moment(day: Date, minute: int)
    requires IsDate(day) && 1970 <= day.year <= 2002 && 0 <= minute <= 59
    ensures var ts := DayNumber(day) * SEC_PER_DAY + 60 * minute;
      IsTimestamp(ts) ==> ToDateTime(ts) == DateTime(day.year, day.month, day.day, 0, minute, 0, 0)
  {
    hide ToDateTime, DayByDay, DayNumber;
    var ts := DayNumber(day) * SEC_PER_DAY + 60 * minute;
    if IsTimestamp(ts) {
      ToDateTimeCorrect(ts);
      assert ts / SEC_PER_DAY == DayNumber(day) && ts % SEC_PER_DAY == 60 * minute;
      WalkOfDayNumber(day);
    }
  }

  lemma CetOffsets(l: int)
    ensures l - 2 * HOUR <= CetToGmt(l) <= l - HOUR
  {
    hide ToDateTime;
  }

  lemma GmtOffsets(g: int)
    ensures g + HOUR <= GmtToCet(g) <= g + 2 * HOUR
  {
    hide ToDateTime, LastSundayMonthDay;
  }

  /** Both failures are real: midnight UTC and half past midnight local time on 28 October 1990. */
  lemma OctoberSunday1990()
    ensures ToDateTime(657072000) == DateTime(1990, 10, 28, 0, 0, 0, 0) && CetToGmt(GmtToCet(657072000)) == 657072000 + HOUR
    ensures ToDateTime(657073800) == DateTime(1990, 10, 28, 0, 30, 0, 0) && GmtToCet(CetToGmt(657073800)) == 657073800 + HOUR
  {
    hide ToDateTime, DayByDay, CetToGmt, GmtToCet, SpringSwitch, AutumnSwitch, DayNumber;
    var day := Date(1990, 10, 28);
    OctoberDay();
    Moment(day, 0);
    Moment(day, 30);
    CetOffsets(657073800);
    GmtOffsets(657072000);
    NearbyYears(657072000, GmtToCet(657072000));
    NearbyYears(CetToGmt(657073800), 657073800);
    SwitchesInsideYear(1990);
    CetRoundTripFromGmtBefore2002(657072000);
    CetRoundTripFromLocalBefore2002(657073800);
  }

  lemma OctoberDay()
    ensures DayNumber(Date(1990, 10, 28)) == 7605 && AutumnSwitch(1990) == 657072000 + HOUR
  {
    hide LastSunday;
    assert LastSundayMonthDay(1990, 10) == 28;
    hide LastSundayMonthDay;
    LastSundayAgrees(1990, 10);
  }

  /** `european_local_to_gmt` and `gmt_to_european_local`: EET (2) and WET (0) by shifting CET (1). */
  function EuropeanLocalToGmt(local: int, standardOffsetHours: int): int {
    CetToGmt(local - HOUR * (standardOffsetHours - 1))
  }

  function GmtToEuropeanLocal(gmt: int, standardOffsetHours: int): int {
    GmtToCet(gmt) + HOUR * (standardOffsetHours - 1)
  }

  /** They are `k` hours ahead of UTC, and one more in summer. */
  lemma EuropeanBySwitches(g: int, k: int)
    requires IsTimestamp(g) && ToDateTime(g).year >= 1
    ensures var y := ToDateTime(g).year;
      GmtToEuropeanLocal(g, k) == g + HOUR * (k + if SpringSwitch(y) <= g < AutumnSwitch(y) then 1 else 0)
  {
    hide ToDateTime, GmtToCet, SpringSwitch, AutumnSwitch;
    GmtToCetBySwitches(g);
  }

  /** The other European zones (standard offset `k` hours) round-trip exactly as Central European Time does. */
  lemma EuropeanRoundTripFromGmt(g: int, k: int)
    requires CetFromGmtDomain(g)
    ensures EuropeanLocalToGmt(GmtToEuropeanLocal(g, k), k) == g + (if InRepeatedHour(g) then HOUR else 0)
  {
    hide ToDateTime, CetToGmt, GmtToCet, InRepeatedHour;
    CetRoundTripFromGmt(g);
  }

  lemma EuropeanRoundTripFromLocal(local: int, k: int)
    requires CetFromLocalDomain(local - HOUR * (k - 1))
    ensures GmtToEuropeanLocal(EuropeanLocalToGmt(local, k), k)
         == local + (if InSkippedHour(local - HOUR * (k - 1)) then HOUR else 0)
  {
    hide ToDateTime, CetToGmt, GmtToCet, InSkippedHour;
    CetRoundTripFromLocal(local - HOUR * (k - 1));
  }

  lemma EuropeanRoundTripFromGmtBefore2002(g: int, k: int)
    requires IsTimestamp(g) && IsTimestamp(g + 2 * HOUR) && 1 <= ToDateTime(g).year && ToDateTime(GmtToCet(g)).year < 2002
    ensures EuropeanLocalToGmt(GmtToEuropeanLocal(g, k), k) == g + (if BeforeAutumnSwitch(g) then HOUR else 0)
  {
    hide ToDateTime, CetToGmt, GmtToCet, BeforeAutumnSwitch;
    CetRoundTripFromGmtBefore2002(g);
  }

  lemma EuropeanRoundTripFromLocalBefore2002(local: int, k: int)
    requires var cet := local - HOUR * (k - 1);
      IsTimestamp(cet) && IsTimestamp(cet - 2 * HOUR) && ToDateTime(cet).year < 2002 && ToDateTime(CetToGmt(cet)).year >= 1
    ensures var cet := local - HOUR * (k - 1);
      GmtToEuropeanLocal(EuropeanLocalToGmt(local, k), k)
      == local + (if InSkippedHour(cet) then -HOUR else if AroundAutumnSwitch(cet) then HOUR else 0)
  {
    hide ToDateTime, CetToGmt, GmtToCet, InSkippedHour, AroundAutumnSwitch;
    CetRoundTripFromLocalBefore2002(local - HOUR * (k - 1));
  }

  // ----- US Eastern Time -----

  /** First Sunday of a month, by the formula of `is_us_eastern_dst_local`. */
  function FirstSunday(year: int, month: int): int
    requires 1 <= month <= 12
  {
    1 + TruncMod(7 - DayOfWeekDate(year, month, 1), 7)
  }

  /** `is_us_eastern_dst_local`. */
  predicate IsUsEasternDstLocal(dt: DateTime) {
    var (startMonth, startDay, endMonth, endDay) :=
      if dt.year >= 2007 then (3, FirstSunday(dt.year, 3) + 7, 11, FirstSunday(dt.year, 11))
      else (4, FirstSunday(dt.year, 4), 10, LastSundayMonthDay(dt.year, 10));
    if startMonth < dt.mon < endMonth then true
    else if dt.mon < startMonth || dt.mon > endMonth then false
    else if dt.mon == startMonth then
      if dt.day > startDay then true else if dt.day < startDay then false else dt.hour >= 2
    else
      if dt.day < endDay then true else if dt.day > endDay then false else dt.hour < 2
  }

  /** `et_to_gmt` and `gmt_to_et`: the second decides by the standard-time clock. */
  function EtToGmt(et: int): int {
    et + HOUR * (if IsUsEasternDstLocal(ToDateTime(et)) then 4 else 5)
  }

  function GmtToEt(gmt: int): int {
    gmt - HOUR * (if IsUsEasternDstLocal(ToDateTime(gmt - HOUR * 5)) then 4 else 5)
  }

  lemma FirstSundayCorrect(year: int, month: int)
    requires year >= 1 && 1 <= month <= 12
    ensures 1 <= FirstSunday(year, month) <= 7
    ensures WeekdayOfDay(DayNumber(Date(year, month, FirstSunday(year, month)))) == 0
  {
    hide DayOfWeekDate, WeekdayOfDay, MarchFirst;
    DayOfWeekDateCorrect(Date(year, month, 1));
    WeekdayShift(DayNumber(Date(year, month, 1)), FirstSunday(year, month) - 1);
  }

  /** 02:00 on the days daylight time starts and ends. */
  function EasternStart(y: int): int
    requires y >= 1
  {
    FirstSundayCorrect(y, 3);
    FirstSundayCorrect(y, 4);
    if y >= 2007 then Instant(Date(y, 3, FirstSunday(y, 3) + 7), 2) else Instant(Date(y, 4, FirstSunday(y, 4)), 2)
  }

  function EasternEnd(y: int): int
    requires y >= 1
  {
    FirstSundayCorrect(y, 11);
    LastSundayAgrees(y, 10);
    if y >= 2007 then Instant(Date(y, 11, FirstSunday(y, 11)), 2)
    else Instant(Date(y, 10, LastSundayMonthDay(y, 10)), 2)
  }

  lemma EasternBySwitches(x: int)
    requires IsTimestamp(x) && ToDateTime(x).year >= 1
    ensures var dt := ToDateTime(x);
            IsUsEasternDstLocal(dt) <==> EasternStart(dt.year) <= x < EasternEnd(dt.year)
  {
    hide ToDateTime, Instant, FirstSunday, LastSundayMonthDay, LastSunday, WeekdayOfDay, DayNumber;
    var dt := ToDateTime(x);
    ToDateTimeCorrect(x);
    FirstSundayCorrect(dt.year, 3);
    FirstSundayCorrect(dt.year, 4);
    FirstSundayCorrect(dt.year, 11);
    LastSundayAgrees(dt.year, 10);
    if dt.year >= 2007 {
      AtOrAfter(x, Date(dt.year, 3, FirstSunday(dt.year, 3) + 7), 2);
      AtOrAfter(x, Date(dt.year, 11, FirstSunday(dt.year, 11)), 2);
    } else {
      AtOrAfter(x, Date(dt.year, 4, FirstSunday(dt.year, 4)), 2);
      AtOrAfter(x, Date(dt.year, 10, LastSundayMonthDay(dt.year, 10)), 2);
    }
  }

  /** Eastern Time is five hours behind UTC, four in summer; the way from UTC looks at the clock of standard time. */
  lemma EasternOffsets(x: int)
    requires IsTimestamp(x) && ToDateTime(x).year >= 1
    ensures var y := ToDateTime(x).year;
      var hours := if EasternStart(y) <= x < EasternEnd(y) then 4 else 5;
      EtToGmt(x) == x + HOUR * hours && GmtToEt(x + 5 * HOUR) == x + 5 * HOUR - HOUR * hours
  {
    hide ToDateTime, IsUsEasternDstLocal, EasternStart, EasternEnd;
    EasternBySwitches(x);
    assert x + 5 * HOUR - HOUR * 5 == x;
  }

  /** The switches of 2024 in Europe: 31 March and 27 October. */
  lemma EuropeanSwitches2024()
    ensures SpringSwitch(2024) == Instant(Date(2024, 3, 31), 1) == 1711846800
    ensures AutumnSwitch(2024) == Instant(Date(2024, 10, 27), 1) == 1729990800
  {
    hide LastSunday;
    assert LastSundayMonthDay(2024, 3) == 31 && LastSundayMonthDay(2024, 10) == 27;
    hide LastSundayMonthDay;
    LastSundayAgrees(2024, 3);
    LastSundayAgrees(2024, 10);
  }

  /** The switches of 2024 in the United States: 10 March and 3 November. */
  lemma EasternSwitches2024()
    ensures EasternStart(2024) == Instant(Date(2024, 3, 10), 2) && EasternEnd(2024) == Instant(Date(2024, 11, 3), 2)
  {
    assert WeekdaySum(2024, 3, 1) == 9518 && WeekdaySum(2024, 11, 1) == 9539;
    hide WeekdaySum, LastSunday, LastSundayMonthDay, DayNumber;
    assert DayOfWeekDate(2024, 3, 1) == 5 && DayOfWeekDate(2024, 11, 1) == 5;
  }

  /** And by the older rule in 2006: 2 April and 29 October. */
  lemma EasternSwitches2006()
    ensures EasternStart(2006) == Instant(Date(2006, 4, 2), 2) && EasternEnd(2006) == Instant(Date(2006, 10, 29), 2)
  {
    assert WeekdaySum(2006, 4, 1) == 9498 && WeekdaySum(2006, 10, 31) == 9543;
    hide WeekdaySum, LastSunday, DayNumber;
  }

  lemma EasternInsideYear(y: int)
    requires y >= 1
    ensures JanuaryFirst(y) * SEC_PER_DAY + 100 * HOUR <= EasternStart(y)
    ensures EasternStart(y) + 100 * HOUR <= EasternEnd(y)
    ensures EasternEnd(y) + 100 * HOUR <= JanuaryFirst(y + 1) * SEC_PER_DAY
  {
    hide FirstSunday, LastSundayMonthDay, MarchFirst, WeekdayOfDay, LastSunday;
    FirstSundayCorrect(y, 3);
    FirstSundayCorrect(y, 4);
    FirstSundayCorrect(y, 11);
    LastSundayAgrees(y, 10);
    MarchFirstStep(y - 1);
  }

  /** From UTC to Eastern Time and back is the identity, except for the last hour before 02:00 standard time
      on the autumn switch Sunday (06:00-06:59 UTC), which comes back one hour late. */
  lemma EasternRoundTripFromGmt(g: int)
    requires IsTimestamp(g) && IsTimestamp(g - 5 * HOUR)
    requires ToDateTime(g - 5 * HOUR).year >= 1
    ensures var end := EasternEnd(ToDateTime(g - 5 * HOUR).year) + 5 * HOUR;
            EtToGmt(GmtToEt(g)) == g + (if end - HOUR <= g < end then HOUR else 0)
  {
    hide ToDateTime, IsUsEasternDstLocal, EasternStart, EasternEnd, JanuaryFirst;
    var x := g - 5 * HOUR;
    EasternBySwitches(x);
    var l := GmtToEt(g);
    NearbyYears(x, l);
    EasternBySwitches(l);
    EasternInsideYear(ToDateTime(x).year);
    EasternInsideYear(ToDateTime(l).year);
  }

  /** From Eastern Time to UTC and back is the identity, except that the hour skipped in spring
      (02:00-02:59 local) comes back one hour earlier. */
  lemma EasternRoundTripFromLocal(l: int)
    requires IsTimestamp(l) && IsTimestamp(l - HOUR) && ToDateTime(l - HOUR).year >= 1
    ensures ToDateTime(l).year >= 1
    ensures var start := EasternStart(ToDateTime(l).year);
            GmtToEt(EtToGmt(l)) == l - (if start <= l < start + HOUR then HOUR else 0)
  {
    hide ToDateTime, IsUsEasternDstLocal, EasternStart, EasternEnd, JanuaryFirst;
    NearbyYears(l - HOUR, l);
    EasternBySwitches(l);
    EasternBySwitches(l - HOUR);
    EasternInsideYear(ToDateTime(l - HOUR).year);
    EasternInsideYear(ToDateTime(l).year);
  }
}
