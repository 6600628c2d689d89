/** `workday_conversions.hpp`: ranks of workdays within a month. */
module Workdays {
  import opened Words
  import opened Calendar
  import opened Timestamps
  import opened IsoWeek
  import opened Legacy

  /** `is_day_off_unix_day`. */
  predicate IsDayOffUnixDay(unixDay: int)
    ensures IsDayOffUnixDay(unixDay) <==> WeekdayOfDay(unixDay) in {0, 6}
  {
    FloorForms(unixDay + 4, 7);
    var wd := TruncMod(unixDay + 4, 7);
    var fixed := wd + (if wd < 0 then 7 else 0);
    fixed == 0 || fixed == 6
  }

  /** `is_workday(year, month, day)`; its inline day count is `legacy::date_to_unix_day`. */
  predicate IsWorkday(year: int, month: int, day: int) {
    if !IsValidDate(year, month, day) then false
    else
      IsValidDateExactly(year, month, day);
      !IsDayOffUnixDay(DateToUnixDayLegacy(year, month, day))
  }

  predicate SupportedMonth(year: int, month: int) {
    MIN_YEAR <= year <= MAX_YEAR && 1 <= month <= 12
  }

  /** Monday to Friday, on the day-by-day calendar. */
  predicate IsWeekdayDate(d: Date)
    requires IsDate(d)
  {
    WeekdayOfDay(DayNumber(d)) !in {0, 6}
  }

  /** Workdays of a supported month are its dates that fall on Monday to Friday. */
  lemma IsWorkdayCorrect(year: int, month: int, day: int)
    requires SupportedMonth(year, month) && 1 <= day <= 31
    ensures IsWorkday(year, month, day) <==>
      IsDate(Date(year, month, day)) && IsWeekdayDate(Date(year, month, day))
  {
    hide DayNumber, DateToUnixDayLegacy, IsValidDate, WeekdayOfDay;
    IsValidDateExactly(year, month, day);
    if IsDate(Date(year, month, day)) {
      DateToUnixDayAgrees(Date(year, month, day));
    }
  }

  /** Number of workdays among days 1..day of a month. */
  function WorkdaysUpTo(year: int, month: int, day: nat): (n: nat)
    ensures n <= day
  {
    if day == 0 then 0 else WorkdaysUpTo(year, month, day - 1) + (if IsWorkday(year, month, day) then 1 else 0)
  }

  lemma {:induction false} WorkdaysUpToGrows(year: int, month: int, a: nat, b: nat)
    requires a <= b
    ensures WorkdaysUpTo(year, month, a) <= WorkdaysUpTo(year, month, b)
    decreases b
  {
    hide IsWorkday;
    if a < b {
      WorkdaysUpToGrows(year, month, a, b - 1);
    }
  }

  /** `count_workdays_in_month`. */
  method CountWorkdaysInMonth(year: int, month: int) returns (total: int)
    ensures total == WorkdaysUpTo(year, month, NumDaysInMonth(year, month))
  {
    hide IsWorkday;
    var days := NumDaysInMonth(year, month);
    if days <= 0 {
      return 0;
    }
    total := 0;
    var day := 1;
    while day <= days
      invariant 1 <= day <= days + 1
      invariant total == WorkdaysUpTo(year, month, day - 1)
    {
      if IsWorkday(year, month, day) {
        total := total + 1;
      }
      day := day + 1;
    }
  }

  /** Rank of a workday within its month, from 1; 0 for a day that is not a workday of the month. */
  function WorkdayRank(year: int, month: int, day: int): nat {
    if 1 <= day <= NumDaysInMonth(year, month) && IsWorkday(year, month, day) then WorkdaysUpTo(year, month, day) else 0
  }

  /** `workday_index_in_month`. */
  method WorkdayIndexInMonth(year: int, month: int, day: int) returns (r: int)
    ensures r == WorkdayRank(year, month, day)
  {
    hide IsWorkday;
    if !IsWorkday(year, month, day) {
      return 0;
    }
    var days := NumDaysInMonth(year, month);
    if days <= 0 {
      return 0;
    }
    var index := 0;
    var current := 1;
    while current <= days
      invariant 1 <= current <= days + 1
      invariant index == WorkdaysUpTo(year, month, current - 1)
      invariant day < 1 || day >= current
    {
      if IsWorkday(year, month, current) {
        index := index + 1;
        if current == day {
          return index;
        }
      }
      current := current + 1;
    }
    return 0;
  }

  /** Ranks rise strictly along the workdays of a month, so they are distinct. */
  lemma RankOrders(year: int, month: int, a: int, b: int)
    requires WorkdayRank(year, month, a) > 0 && WorkdayRank(year, month, b) > 0
    ensures WorkdayRank(year, month, a) < WorkdayRank(year, month, b) <==> a < b
    ensures WorkdayRank(year, month, a) == WorkdayRank(year, month, b) <==> a == b
  {
    hide IsWorkday;
    if a < b {
      WorkdaysUpToGrows(year, month, a, b - 1);
    } else if b < a {
      WorkdaysUpToGrows(year, month, b, a - 1);
    }
  }

  /** Every rank from 1 to the month's count is taken by a workday: with `RankOrders`, the ranks are an
      order-preserving bijection between the workdays and 1..count. */
  lemma {:induction false} RankReached(year: int, month: int, days: nat, k: nat) returns (day: int)
    requires 1 <= k <= WorkdaysUpTo(year, month, days)
    ensures 1 <= day <= days && IsWorkday(year, month, day) && WorkdaysUpTo(year, month, day) == k
  {
    hide IsWorkday;
    if k <= WorkdaysUpTo(year, month, days - 1) {
      day := RankReached(year, month, days - 1, k);
    } else {
      day := days;
    }
  }

  /** A workday's rank is between 1 and the month's count. */
  lemma RankInRange(year: int, month: int, day: int)
    requires 1 <= day <= NumDaysInMonth(year, month) && IsWorkday(year, month, day)
    ensures 1 <= WorkdayRank(year, month, day) <= WorkdaysUpTo(year, month, NumDaysInMonth(year, month))
  {
    hide IsWorkday;
    WorkdaysUpToGrows(year, month, day, NumDaysInMonth(year, month));
  }

  /** Any seven consecutive days of a month hold five workdays. */
  lemma WeekHasFive(year: int, month: int, k: nat)
    requires SupportedMonth(year, month) && k + 7 <= MonthLength(year, month)
    ensures WorkdaysUpTo(year, month, k + 7) == WorkdaysUpTo(year, month, k) + 5
  {
    hide IsWorkday, WorkdaysUpTo, DayNumber, WeekdayOfDay;
    var w := WeekdayOfDay(DayNumber(Date(year, month, 1)) + k);
    OneDay(year, month, k, 1, w);
    OneDay(year, month, k, 2, w);
    OneDay(year, month, k, 3, w);
    OneDay(year, month, k, 4, w);
    OneDay(year, month, k, 5, w);
    OneDay(year, month, k, 6, w);
    OneDay(year, month, k, 7, w);
  }

  lemma OneDay(year: int, month: int, k: nat, i: int, w: int)
    requires SupportedMonth(year, month) && 1 <= i && k + i <= MonthLength(year, month)
    requires w == WeekdayOfDay(DayNumber(Date(year, month, 1)) + k)
    ensures WorkdaysUpTo(year, month, k + i)
         == WorkdaysUpTo(year, month, k + i - 1) + (if (w + i - 1) % 7 in {0, 6} then 0 else 1)
  {
    hide IsWorkday, WeekdayOfDay, MonthLength, DayNumber;
    WorkdayByOffset(year, month, k + i);
    WeekdayShift(DayNumber(Date(year, month, 1)) + k, i - 1);
  }

  lemma WorkdayByOffset(year: int, month: int, day: int)
    requires SupportedMonth(year, month) && 1 <= day <= MonthLength(year, month)
    ensures IsWorkday(year, month, day) == (WeekdayOfDay(DayNumber(Date(year, month, 1)) + day - 1) !in {0, 6})
  {
    IsWorkdayCorrect(year, month, day);
    hide WeekdayOfDay, IsWorkday, MarchFirst;
  }

  /** Every month of every supported year has between 20 and 23 workdays. */
  lemma CountRange(year: int, month: int)
    requires SupportedMonth(year, month)
    ensures 20 <= WorkdaysUpTo(year, month, NumDaysInMonth(year, month)) <= 23
  {
    hide IsWorkday;
    WeekHasFive(year, month, 0);
    WeekHasFive(year, month, 7);
    WeekHasFive(year, month, 14);
    WeekHasFive(year, month, 21);
    assert WorkdaysUpTo(year, month, 28) == 20;
    var days := MonthLength(year, month);
    WorkdaysUpToGrows(year, month, 28, days);
    assert days >= 29 ==> WorkdaysUpTo(year, month, 29) <= 21;
    assert days >= 30 ==> WorkdaysUpTo(year, month, 30) <= 22;
    assert days >= 31 ==> WorkdaysUpTo(year, month, 31) <= 23;
  }

  /** `first_workday_day`: the least workday, 0 when there is none; every supported month has one, of rank 1. */
  method FirstWorkdayDay(year: int, month: int) returns (r: int)
    ensures r == 0 ==> forall d :: 1 <= d <= NumDaysInMonth(year, month) ==> !IsWorkday(year, month, d)
    ensures r != 0 ==> 1 <= r <= NumDaysInMonth(year, month) && IsWorkday(year, month, r)
                       && (forall d :: 1 <= d < r ==> !IsWorkday(year, month, d)) && WorkdayRank(year, month, r) == 1
    ensures SupportedMonth(year, month) ==> r != 0
  {
    hide IsWorkday;
    var days := NumDaysInMonth(year, month);
    if days <= 0 {
      return 0;
    }
    var day := 1;
    while day <= days
      invariant 1 <= day <= days + 1
      invariant forall d :: 1 <= d < day ==> !IsWorkday(year, month, d)
      invariant WorkdaysUpTo(year, month, day - 1) == 0
    {
      if IsWorkday(year, month, day) {
        return day;
      }
      day := day + 1;
    }
    if SupportedMonth(year, month) {
      CountRange(year, month);
    }
    return 0;
  }

  /** `last_workday_day`: the greatest workday, 0 when there is none; every supported month has one, whose
      rank is the month's count. */
  method LastWorkdayDay(year: int, month: int) returns (r: int)
    ensures r == 0 ==> forall d :: 1 <= d <= NumDaysInMonth(year, month) ==> !IsWorkday(year, month, d)
    ensures r != 0 ==> 1 <= r <= NumDaysInMonth(year, month) && IsWorkday(year, month, r)
                       && (forall d :: r < d <= NumDaysInMonth(year, month) ==> !IsWorkday(year, month, d))
                       && WorkdayRank(year, month, r) == WorkdaysUpTo(year, month, NumDaysInMonth(year, month))
    ensures SupportedMonth(year, month) ==> r != 0
  {
    hide IsWorkday;
    var days := NumDaysInMonth(year, month);
    if days <= 0 {
      return 0;
    }
    var day := days;
    while day >= 1
      invariant 0 <= day <= days
      invariant forall d :: day < d <= days ==> !IsWorkday(year, month, d)
      invariant WorkdaysUpTo(year, month, day) == WorkdaysUpTo(year, month, days)
    {
      if IsWorkday(year, month, day) {
        return day;
      }
      day := day - 1;
    }
    if SupportedMonth(year, month) {
      CountRange(year, month);
    }
    return 0;
  }

  /** `is_within_first_workdays_of_month`: for 1 <= count <= total, exactly the first `count` workdays. */
  method IsWithinFirstWorkdays(year: int, month: int, day: int, count: int) returns (b: bool)
    ensures var total := WorkdaysUpTo(year, month, NumDaysInMonth(year, month));
            b <==> 1 <= count <= total && 1 <= day <= NumDaysInMonth(year, month) && IsWorkday(year, month, day)
                   && WorkdaysUpTo(year, month, day - 1) < count
  {
    hide IsWorkday;
    if count <= 0 {
      return false;
    }
    var total := CountWorkdaysInMonth(year, month);
    if count > total {
      return false;
    }
    var index := WorkdayIndexInMonth(year, month, day);
    b := index > 0 && index <= count;
  }

  /** `is_within_last_workdays_of_month`: for 1 <= count <= total, exactly the last `count` workdays. */
  method IsWithinLastWorkdays(year: int, month: int, day: int, count: int) returns (b: bool)
    ensures var total := WorkdaysUpTo(year, month, NumDaysInMonth(year, month));
            b <==> 1 <= count <= total && 1 <= day <= NumDaysInMonth(year, month) && IsWorkday(year, month, day)
                   && total - WorkdaysUpTo(year, month, day) < count
  {
    hide IsWorkday;
    if count <= 0 {
      return false;
    }
    var total := CountWorkdaysInMonth(year, month);
    if count > total {
      return false;
    }
    var index := WorkdayIndexInMonth(year, month, day);
    b := index > 0 && index >= total - count + 1;
  }
}
