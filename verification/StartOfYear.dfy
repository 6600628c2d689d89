/** `start_of_year`: a four-year fast path for 1970..2099, otherwise a 400-year reduction and a century loop. */
module StartOfYear {
  import opened Words
  import opened Calendar
  import opened FastDate
  import opened Timestamps

  const SEC_PER_YEAR: int := 31536000
  const SEC_PER_LEAP_YEAR: int := 31622400
  const SEC_PER_4_YEARS: int := 126230400
  const SEC_PER_FIRST_100_YEARS: int := 3155760000
  const SEC_PER_100_YEARS: int := 3155673600
  const SEC_PER_400_YEARS: int := 12622780800
  const BIAS_2000: int := 946684800
  const BIAS_2100: int := 4102444800

  /** Midnight on 1 January of a year. */
  function NewYear(y: int): int {
    SEC_PER_DAY * JanuaryFirst(y)
  }

  /** 31 December of a leap year outside 1970..2099. */
  predicate LeapYearEndOutsideFastPath(ts: int) {
    var y := YearOf(ts);
    IsLeap(y) && !(1970 <= y < 2100) && ts >= NewYear(y) + 365 * SEC_PER_DAY
  }

  lemma YearOfBetween(ts: int, y: int)
    requires NewYear(y) <= ts < NewYear(y + 1)
    ensures YearOf(ts) == y
  {
    hide DayByDay, JanuaryFirst;
    YearOfDay(ts / SEC_PER_DAY, y);
  }

  /** New Year's days of the years of a 400-year cycle that starts in 2000 + 400 * e. */
  lemma JanuaryForward(e: int, k: nat)
    requires k <= 400
    ensures JanuaryFirst(2000 + 400 * e + k) == 10957 + 146097 * e + 365 * k + (k + 3) / 4 - (k + 99) / 100 + (k + 399) / 400
  {
    var y := 1999 + 400 * e + k;
    assert JanuaryFirst(y + 1) == MarchFirst(y) + 306;
    hide MarchFirst, JanuaryFirst;
    if k == 0 {
      EraForm(y, e + 4, 399);
    } else {
      EraForm(y, e + 5, k - 1);
      assert (k + 3) / 4 == (k - 1) / 4 + 1 && (k + 99) / 100 == (k - 1) / 100 + 1 && (k + 399) / 400 == 1;
    }
  }

  lemma JanuaryModern(y: int)
    requires 1970 <= y <= 2100
    ensures JanuaryFirst(y) == 365 * (y - 1970) + (y - 1969) / 4
  {
  }

  /** The branch for 1970..2099: four-year groups without a century rule. */
  method StartOfYearFast(ts: int) returns (startTs: int)
    requires 0 <= ts < BIAS_2100
    ensures startTs == NewYear(YearOf(ts)) && !LeapYearEndOutsideFastPath(ts)
  {
    hide YearOf, NewYear, LeapYearEndOutsideFastPath, FloorMod;
    var yearStart := FloorMod(ts, SEC_PER_4_YEARS);
    FastPath(ts);
    if yearStart < SEC_PER_YEAR {
      return ts - yearStart;
    } else if yearStart < SEC_PER_YEAR * 2 {
      return ts + SEC_PER_YEAR - yearStart;
    } else if yearStart < SEC_PER_YEAR * 2 + SEC_PER_LEAP_YEAR {
      return ts + SEC_PER_YEAR * 2 - yearStart;
    }
    return ts + (SEC_PER_YEAR * 2 + SEC_PER_LEAP_YEAR) - yearStart;
  }

  /** `start_of_year`: midnight on 1 January of the timestamp's year, for every timestamp but those on
      31 December of a leap year outside 1970..2099, where it is midnight of that same day. */
  method StartOfYearTs(ts: int) returns (startTs: int)
    ensures startTs ==
      if LeapYearEndOutsideFastPath(ts) then NewYear(YearOf(ts)) + 365 * SEC_PER_DAY else NewYear(YearOf(ts))
    ensures startTs == NewYear(YearOf(ts)) <==> !LeapYearEndOutsideFastPath(ts)
  {
    hide YearOf, NewYear, LeapYearEndOutsideFastPath, FloorMod;
    if 0 <= ts < BIAS_2100 {
      startTs := StartOfYearFast(ts);
      return;
    }

    var secs := ts - BIAS_2000;
    var offset400 := FloorMod(secs, SEC_PER_400_YEARS);
    ghost var base := 2000 + 400 * (secs / SEC_PER_400_YEARS);
    CycleStart(secs / SEC_PER_400_YEARS);
    startTs := secs - offset400 + BIAS_2000;
    secs := offset400;
    assert startTs == NewYear(base);
    ghost var century := base;
    if secs >= SEC_PER_FIRST_100_YEARS {
      secs := secs - SEC_PER_FIRST_100_YEARS;
      startTs := startTs + SEC_PER_FIRST_100_YEARS;
      ghost var b := 1;
      while secs >= SEC_PER_100_YEARS
        invariant 1 <= b <= 3
        invariant startTs == NewYear(base) + SEC_PER_FIRST_100_YEARS + (b - 1) * SEC_PER_100_YEARS
        invariant startTs + secs == ts
        invariant 0 <= secs < (4 - b) * SEC_PER_100_YEARS
      {
        secs := secs - SEC_PER_100_YEARS;
        startTs := startTs + SEC_PER_100_YEARS;
        b := b + 1;
      }
      LaterCentury((base - 2000) / 400, b);
      century := base + 100 * b;
      if secs >= 4 * SEC_PER_YEAR {
        secs := secs - 4 * SEC_PER_YEAR;
        startTs := startTs + 4 * SEC_PER_YEAR;
        century := century + 4;
      } else {
        PlainYears(ts, century, secs);
        startTs := startTs + (secs - FloorMod(secs, SEC_PER_YEAR));
        return;
      }
    }

    var offset4 := FloorMod(secs, SEC_PER_4_YEARS);
    ghost var group := century + 4 * (secs / SEC_PER_4_YEARS);
    GroupOfFour((base - 2000) / 400, century - base, secs);
    startTs := startTs + (secs - offset4);
    secs := offset4;
    LeapGroup(ts, group, secs);
    if secs >= SEC_PER_LEAP_YEAR {
      secs := secs - SEC_PER_LEAP_YEAR;
      startTs := startTs + SEC_PER_LEAP_YEAR;
      startTs := startTs + (secs - FloorMod(secs, SEC_PER_YEAR));
      return;
    }
    startTs := startTs + (secs - FloorMod(secs, SEC_PER_YEAR));
  }

  /** 1970..2099: no century rule applies, so four-year groups 1970, 1971, 1972 (leap), 1973 repeat. */
  lemma FastPath(ts: int)
    requires 0 <= ts < BIAS_2100
    ensures var r := ts % SEC_PER_4_YEARS;
            NewYear(YearOf(ts)) == ts - r + (if r < SEC_PER_YEAR then 0
                                             else if r < SEC_PER_YEAR * 2 then SEC_PER_YEAR
                                             else if r < SEC_PER_YEAR * 2 + SEC_PER_LEAP_YEAR then SEC_PER_YEAR * 2
                                             else SEC_PER_YEAR * 2 + SEC_PER_LEAP_YEAR)
    ensures 1970 <= YearOf(ts) < 2100 && !LeapYearEndOutsideFastPath(ts)
  {
    hide JanuaryFirst, DayByDay;
    var c, r := ts / SEC_PER_4_YEARS, ts % SEC_PER_4_YEARS;
    var i := if r < SEC_PER_YEAR then 0
             else if r < SEC_PER_YEAR * 2 then 1
             else if r < SEC_PER_YEAR * 2 + SEC_PER_LEAP_YEAR then 2
             else 3;
    var y := 1970 + 4 * c + i;
    assert c <= 32 && y < 2100;
    JanuaryModern(y);
    JanuaryModern(y + 1);
    YearOfBetween(ts, y);
  }

  lemma CycleStart(e: int)
    ensures NewYear(2000 + 400 * e) == BIAS_2000 + e * SEC_PER_400_YEARS
  {
    hide JanuaryFirst;
    JanuaryForward(e, 0);
  }

  lemma LaterCentury(e: int, b: int)
    requires 1 <= b <= 3
    ensures var c := 2000 + 400 * e + 100 * b;
            && NewYear(c) == NewYear(2000 + 400 * e) + SEC_PER_FIRST_100_YEARS + (b - 1) * SEC_PER_100_YEARS
            && NewYear(c + 1) == NewYear(c) + SEC_PER_YEAR
            && NewYear(c + 2) == NewYear(c) + 2 * SEC_PER_YEAR
            && NewYear(c + 3) == NewYear(c) + 3 * SEC_PER_YEAR
            && NewYear(c + 4) == NewYear(c) + 4 * SEC_PER_YEAR
  {
    hide JanuaryFirst;
    JanuaryForward(e, 0);
    JanuaryForward(e, 100 * b);
    JanuaryForward(e, 100 * b + 1);
    JanuaryForward(e, 100 * b + 2);
    JanuaryForward(e, 100 * b + 3);
    JanuaryForward(e, 100 * b + 4);
  }

  /** Four years without a leap day, at the start of a century. */
  lemma PlainYears(ts: int, c: int, secs: int)
    requires NewYear(c) + secs == ts && 0 <= secs < 4 * SEC_PER_YEAR
    requires NewYear(c + 1) == NewYear(c) + SEC_PER_YEAR
    requires NewYear(c + 2) == NewYear(c) + 2 * SEC_PER_YEAR
    requires NewYear(c + 3) == NewYear(c) + 3 * SEC_PER_YEAR
    requires NewYear(c + 4) == NewYear(c) + 4 * SEC_PER_YEAR
    ensures NewYear(YearOf(ts)) == NewYear(c) + (secs - secs % SEC_PER_YEAR)
    ensures !LeapYearEndOutsideFastPath(ts)
  {
    hide NewYear, YearOf;
    var i := secs / SEC_PER_YEAR;
    YearOfBetween(ts, c + i);
    NewYearStep(c + i);
  }

  lemma NewYearStep(y: int)
    ensures NewYear(y + 1) == NewYear(y) + YearLength(y) * SEC_PER_DAY
  {
    hide JanuaryFirst;
    JanuaryFirstStep(y);
  }

  /** Inside a century, past its leapless start, four-year groups begin with a leap year. */
  lemma GroupOfFour(e: int, k: int, secs: int)
    requires k in {0, 104, 204, 304}
    requires 0 <= secs < if k == 0 then SEC_PER_FIRST_100_YEARS else SEC_PER_100_YEARS - 4 * SEC_PER_YEAR
    ensures var g := 2000 + 400 * e + k + 4 * (secs / SEC_PER_4_YEARS);
            && NewYear(g) == NewYear(2000 + 400 * e + k) + (secs - secs % SEC_PER_4_YEARS)
            && NewYear(g + 1) == NewYear(g) + SEC_PER_LEAP_YEAR
            && NewYear(g + 2) == NewYear(g) + SEC_PER_LEAP_YEAR + SEC_PER_YEAR
            && NewYear(g + 3) == NewYear(g) + SEC_PER_LEAP_YEAR + 2 * SEC_PER_YEAR
            && NewYear(g + 4) == NewYear(g) + SEC_PER_4_YEARS
  {
    hide JanuaryFirst;
    var c := secs / SEC_PER_4_YEARS;
    assert c <= 24 && (k > 0 ==> c <= 23);
    JanuaryForward(e, k);
    GroupYears(e, k, c);
  }

  lemma GroupYears(e: int, k: int, c: int)
    requires k in {0, 104, 204, 304} && 0 <= c <= 24 && (k > 0 ==> c <= 23)
    ensures var g := 2000 + 400 * e + k + 4 * c;
            && JanuaryFirst(g) == JanuaryFirst(2000 + 400 * e + k) + 1461 * c
            && JanuaryFirst(g + 1) == JanuaryFirst(g) + 366
            && JanuaryFirst(g + 2) == JanuaryFirst(g) + 731
            && JanuaryFirst(g + 3) == JanuaryFirst(g) + 1096
            && JanuaryFirst(g + 4) == JanuaryFirst(g) + 1461
  {
    hide JanuaryFirst;
    hide IsLeap;
    var g := 2000 + 400 * e + k + 4 * c;
    GroupBase(e, k, c);
    JanuaryFirstStep(g);
    JanuaryFirstStep(g + 1);
    JanuaryFirstStep(g + 2);
    JanuaryFirstStep(g + 3);
    GroupLeaps(e, k, c);
  }

  lemma GroupBase(e: int, k: int, c: int)
    requires k in {0, 104, 204, 304} && 0 <= c <= 24 && (k > 0 ==> c <= 23)
    ensures JanuaryFirst(2000 + 400 * e + k + 4 * c) == JanuaryFirst(2000 + 400 * e + k) + 1461 * c
  {
    hide JanuaryFirst;
    var j := k + 4 * c;
    JanuaryForward(e, k);
    JanuaryForward(e, j);
    assert (j + 99) / 100 == (k + 99) / 100 + (if k == 0 && c > 0 then 1 else 0);
  }

  lemma GroupLeaps(e: int, k: int, c: int)
    requires k in {0, 104, 204, 304} && 0 <= c <= 24 && (k > 0 ==> c <= 23)
    ensures var g := 2000 + 400 * e + k + 4 * c;
            IsLeap(g) && !IsLeap(g + 1) && !IsLeap(g + 2) && !IsLeap(g + 3)
  {
    var j := k + 4 * c;
    var g := 2000 + 400 * e + j;
    DivModUnique(g, 4, 500 + 100 * e + j / 4, 0);
    DivModUnique(g, 100, 20 + 4 * e + j / 100, j % 100);
    DivModUnique(g, 400, 5 + e, j);
  }

  /** A four-year group that begins with a leap year: the last day of that year is taken for a year start. */
  lemma LeapGroup(ts: int, g: int, secs: int)
    requires !(0 <= ts < BIAS_2100)
    requires NewYear(g) + secs == ts && 0 <= secs < SEC_PER_4_YEARS
    requires NewYear(g + 1) == NewYear(g) + SEC_PER_LEAP_YEAR
    requires NewYear(g + 2) == NewYear(g) + SEC_PER_LEAP_YEAR + SEC_PER_YEAR
    requires NewYear(g + 3) == NewYear(g) + SEC_PER_LEAP_YEAR + 2 * SEC_PER_YEAR
    requires NewYear(g + 4) == NewYear(g) + SEC_PER_4_YEARS
    ensures LeapYearEndOutsideFastPath(ts) <==> SEC_PER_YEAR <= secs < SEC_PER_LEAP_YEAR
    ensures NewYear(YearOf(ts)) ==
      if secs < SEC_PER_LEAP_YEAR then NewYear(g)
      else NewYear(g) + SEC_PER_LEAP_YEAR + ((secs - SEC_PER_LEAP_YEAR) - (secs - SEC_PER_LEAP_YEAR) % SEC_PER_YEAR)
  {
    hide NewYear, YearOf;
    var i := if secs < SEC_PER_LEAP_YEAR then 0 else 1 + (secs - SEC_PER_LEAP_YEAR) / SEC_PER_YEAR;
    assert 0 <= i <= 3;
    YearOfBetween(ts, g + i);
    NewYearStep(g + i);
    OutsideFastYears(ts, g + i);
  }

  lemma OutsideFastYears(ts: int, y: int)
    requires !(0 <= ts < BIAS_2100) && NewYear(y) <= ts < NewYear(y + 1)
    ensures !(1970 <= y < 2100)
  {
    if 1970 <= y < 2100 {
      JanuaryModern(y);
      JanuaryModern(y + 1);
    }
  }

  /** The exception is real: 31 December 2400. */
  lemma LastDayOf2400()
    ensures LeapYearEndOutsideFastPath(13601001600) && YearOf(13601001600) == 2400
  {
    hide DayByDay, JanuaryFirst;
    JanuaryForward(1, 0);
    JanuaryForward(1, 1);
    YearOfBetween(13601001600, 2400);
  }
}
