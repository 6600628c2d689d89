/** The proleptic Gregorian calendar as a day-by-day walk from 1970-01-01:
    the reference every other calendar algorithm of the library is measured against. */
module Calendar {
  datatype Date = Date(year: int, month: int, day: int)

  const EPOCH := Date(1970, 1, 1)

  predicate IsLeap(year: int) {
    year % 4 == 0 && (year % 100 != 0 || year % 400 == 0)
  }

  function YearLength(year: int): (n: nat)
    ensures n == 365 || n == 366
  {
    if IsLeap(year) then 366 else 365
  }

  function MonthLength(year: int, month: int): (n: nat)
    requires 1 <= month <= 12
    ensures 28 <= n <= 31
  {
    if month == 2 then (if IsLeap(year) then 29 else 28)
    else if month in {4, 6, 9, 11} then 30
    else 31
  }

  predicate IsDate(d: Date) {
    1 <= d.month <= 12 && 1 <= d.day <= MonthLength(d.year, d.month)
  }

  function Tomorrow(d: Date): (t: Date)
    requires IsDate(d)
    ensures IsDate(t)
  {
    if d.day < MonthLength(d.year, d.month) then d.(day := d.day + 1)
    else if d.month < 12 then Date(d.year, d.month + 1, 1)
    else Date(d.year + 1, 1, 1)
  }

  function Yesterday(d: Date): (t: Date)
    requires IsDate(d)
    ensures IsDate(t) && Tomorrow(t) == d
  {
    if d.day > 1 then d.(day := d.day - 1)
    else if d.month > 1 then Date(d.year, d.month - 1, MonthLength(d.year, d.month - 1))
    else Date(d.year - 1, 12, 31)
  }

  /** The date `n` days after (before, when negative) 1970-01-01, one day at a time. */
  function DayByDay(n: int): (d: Date)
    ensures IsDate(d)
    decreases if n < 0 then -n else n
  {
    if n == 0 then EPOCH
    else if n > 0 then Tomorrow(DayByDay(n - 1))
    else Yesterday(DayByDay(n + 1))
  }

  /** Dates in calendar order. */
  predicate Before(d: Date, e: Date) {
    d.year < e.year || (d.year == e.year && (d.month < e.month || (d.month == e.month && d.day < e.day)))
  }

  // ----- a closed count of days, by years that begin on 1 March -----

  /** Days before month `m` of a year beginning in March (0 = March). */
  function DaysBeforeMarchMonth(m: int): (n: nat)
    requires 0 <= m < 12
  {
    [0, 31, 61, 92, 122, 153, 184, 214, 245, 275, 306, 337][m]
  }

  function MarchYear(d: Date): int {
    if d.month <= 2 then d.year - 1 else d.year
  }

  function MarchDayOfYear(d: Date): (doy: int)
    requires IsDate(d)
    ensures 0 <= doy < YearLength(MarchYear(d) + 1)
  {
    DaysBeforeMarchMonth(if d.month <= 2 then d.month + 9 else d.month - 3) + d.day - 1
  }

  /** Day number of 1 March of year `y`. */
  function MarchFirst(y: int): int {
    365 * y + y / 4 - y / 100 + y / 400 - 719468
  }

  function DayNumber(d: Date): int
    requires IsDate(d)
  {
    MarchFirst(MarchYear(d)) + MarchDayOfYear(d)
  }

  lemma MarchFirstStep(y: int)
    ensures MarchFirst(y + 1) == MarchFirst(y) + YearLength(y + 1)
  {
    assert (y + 1) / 4 == y / 4 + (if (y + 1) % 4 == 0 then 1 else 0);
    assert (y + 1) / 100 == y / 100 + (if (y + 1) % 100 == 0 then 1 else 0);
    assert (y + 1) / 400 == y / 400 + (if (y + 1) % 400 == 0 then 1 else 0);
  }

  lemma DayNumberOfTomorrow(d: Date)
    requires IsDate(d)
    ensures DayNumber(Tomorrow(d)) == DayNumber(d) + 1
  {
    hide MarchFirst;
    if d.month == 2 {
      MarchFirstStep(d.year - 1);
    }
  }

  lemma {:induction false} MarchFirstGrows(y: int, z: int)
    requires y <= z
    ensures MarchFirst(z) >= MarchFirst(y) + 365 * (z - y)
    decreases z - y
  {
    if y < z {
      MarchFirstGrows(y, z - 1);
      MarchFirstStep(z - 1);
    }
  }

  /** Day numbers order valid dates exactly as the calendar does. */
  lemma DayNumberOrders(d: Date, e: Date)
    requires IsDate(d) && IsDate(e)
    ensures DayNumber(d) < DayNumber(e) <==> Before(d, e)
    ensures DayNumber(d) == DayNumber(e) <==> d == e
  {
    if Before(d, e) {
      DayNumberBefore(d, e);
    } else if Before(e, d) {
      DayNumberBefore(e, d);
    }
  }

  lemma DayNumberBefore(d: Date, e: Date)
    requires IsDate(d) && IsDate(e) && Before(d, e)
    ensures DayNumber(d) < DayNumber(e)
  {
    if MarchYear(d) < MarchYear(e) {
      MarchFirstStep(MarchYear(d));
      MarchFirstGrows(MarchYear(d) + 1, MarchYear(e));
    }
  }

  lemma EpochIsDayZero()
    ensures DayNumber(EPOCH) == 0
  {
  }

  /** The closed count undoes the walk: day `n` of the walk has day number `n`. */
  lemma {:induction false} DayNumberOfWalk(n: int)
    ensures DayNumber(DayByDay(n)) == n
    decreases if n < 0 then -n else n
  {
    hide DayNumber, Tomorrow, Yesterday, IsDate;
    if n == 0 {
      EpochIsDayZero();
    } else if n > 0 {
      DayNumberOfWalk(n - 1);
      DayNumberOfTomorrow(DayByDay(n - 1));
    } else {
      DayNumberOfWalk(n + 1);
      DayNumberOfTomorrow(DayByDay(n));
    }
  }

  /** The walk reaches every valid date, at the day its closed count names. */
  lemma WalkOfDayNumber(d: Date)
    requires IsDate(d)
    ensures DayByDay(DayNumber(d)) == d
  {
    DayNumberOfWalk(DayNumber(d));
    DayNumberOrders(DayByDay(DayNumber(d)), d);
  }

  /** Day number of 1 January. */
  function JanuaryFirst(y: int): int {
    DayNumber(Date(y, 1, 1))
  }

  lemma JanuaryFirstStep(y: int)
    ensures JanuaryFirst(y + 1) == JanuaryFirst(y) + YearLength(y)
  {
    MarchFirstStep(y - 1);
  }

  lemma {:induction false} JanuaryFirstGrows(y: int, z: int)
    requires y <= z
    ensures JanuaryFirst(z) >= JanuaryFirst(y) + 365 * (z - y)
    decreases z - y
  {
    if y < z {
      JanuaryFirstGrows(y, z - 1);
      JanuaryFirstStep(z - 1);
    }
  }

  /** The year of day `n` is the one whose January-to-January span holds `n`. */
  lemma YearOfDay(n: int, y: int)
    ensures DayByDay(n).year == y <==> JanuaryFirst(y) <= n < JanuaryFirst(y + 1)
  {
    var d := DayByDay(n);
    DayNumberOfWalk(n);
    DayNumberOrders(d, Date(y, 1, 1));
    DayNumberOrders(d, Date(y + 1, 1, 1));
  }
}
