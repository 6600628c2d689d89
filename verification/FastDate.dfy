/** `detail/fast_date.hpp`: calendar conversion by magic-constant multiplications, proved equal
    to the day-by-day calendar on every day a 64-bit second count can name. */
module FastDate {
  import opened Words
  import opened Calendar

  /** Largest magnitude of a day count produced by `split_unix_day` on an `int64_t`. */
  const MAX_DAYS: int := 106751991167301

  /** Years whose day count fits an `int64_t` with room for every intermediate sum. */
  const YEAR_LIMIT: int := 20_000_000_000_000_000

  const ERAS: int := 4726498270
  const D_SHIFT: int := 146097 * ERAS - 719469
  const Y_SHIFT: int := 400 * ERAS - 1
  const C1: int := 505054698555331
  const C2: int := 50504432782230121
  const C3: int := 8619973866219416
  const YPT_SCALE: int := 782432
  const YPT_BUMP_THRESHOLD: int := 126464
  const SHIFT_JAN_FEB: int := 191360
  const SHIFT_OTHER: int := 977792

  /** `split_unix_day`: truncating division corrected to a floor. */
  function SplitUnixDay(ts: int): (r: (int, int))
    ensures r.0 == ts / 86400 && r.1 == ts % 86400
  {
    FloorForms(ts, 86400);
    var days, secs := TruncDiv(ts, 86400), TruncMod(ts, 86400);
    if secs < 0 then (days - 1, secs + 86400) else (days, secs)
  }

  /** `k_doy_from_march`, indexed by month with March = 0. */
  function DoyFromMarch(m: int): int
    requires 0 <= m < 12
  {
    [0, 31, 61, 92, 122, 153, 184, 214, 245, 275, 306, 337][m]
  }

  /** `fast_days_from_date`: unsigned arithmetic from March year 0 on, signed with a
      truncating era division before it. */
  function DaysFromDate(year: int, month: int, day: int): int
    requires 1 <= month <= 12
  {
    var y := year - (if month <= 2 then 1 else 0);
    var m := if month - 3 < 0 then month - 3 + 12 else month - 3;
    if y >= 0 then DaysUnsigned(y, DoyFromMarch(m), day) else DaysSigned(y, DoyFromMarch(m), day)
  }

  function DaysUnsigned(y: int, start: int, day: int): int {
    var yU := U64(y);
    var era := yU / 400;
    var yoe := U64(yU - U64(era * 400));
    var doy := U64(U64(start) + U64(day - 1));
    var doe := U64(U64(U64(U64(yoe * 365) + yoe / 4) - yoe / 100) + doy);
    I64(U64(U64(era * 146097) + doe)) - 719468
  }

  function DaysSigned(y: int, start: int, day: int): int {
    var era := TruncDiv(y - 399, 400);
    var yoe := y - era * 400;
    var doy := start + (day - 1);
    var doe := yoe * 365 + TruncDiv(yoe, 4) - TruncDiv(yoe, 100) + doy;
    era * 146097 + doe - 719468
  }

  /** A year inside its 400-year era gives the closed day count. */
  lemma EraForm(y: int, era: int, yoe: int)
    requires 0 <= yoe < 400 && y == era * 400 + yoe
    ensures y / 400 == era
    ensures MarchFirst(y) == era * 146097 + yoe * 365 + yoe / 4 - yoe / 100 - 719468
  {
    assert y / 4 == era * 100 + yoe / 4;
    assert y / 100 == era * 4 + yoe / 100;
    assert y / 400 == era;
  }

  /** `fast_days_from_date` is the day number of every valid date;
      no 64-bit operation in it wraps. */
  lemma DaysFromDateCorrect(d: Date)
    requires IsDate(d) && -YEAR_LIMIT <= d.year <= YEAR_LIMIT
    ensures DaysFromDate(d.year, d.month, d.day) == DayNumber(d)
    ensures DayByDay(DaysFromDate(d.year, d.month, d.day)) == d
  {
    hide MarchFirst, DaysFromDate, DayByDay, DoyFromMarch, DaysBeforeMarchMonth;
    DateInTable(d);
    DaysFromDateClosed(d.year, d.month, d.day);
    WalkOfDayNumber(d);
  }

  lemma DateInTable(d: Date)
    requires IsDate(d)
    ensures 1 <= d.day <= 31
    ensures var m := if d.month <= 2 then d.month + 9 else d.month - 3; DoyFromMarch(m) == DaysBeforeMarchMonth(m)
  {
  }

  /** The closed form of the day count, also for day numbers past the end of a month. */
  lemma DaysFromDateClosed(year: int, month: int, day: int)
    requires -YEAR_LIMIT <= year <= YEAR_LIMIT && 1 <= month <= 12 && 1 <= day < 1970
    ensures var y, m := if month <= 2 then year - 1 else year, if month <= 2 then month + 9 else month - 3;
            DaysFromDate(year, month, day) == MarchFirst(y) + DoyFromMarch(m) + day - 1
  {
    hide DoyFromMarch, MarchFirst, DaysUnsigned, DaysSigned;
    var y, m := if month <= 2 then year - 1 else year, if month <= 2 then month + 9 else month - 3;
    MarchTableBound(m);
    if y < 0 {
      SignedForm(y, DoyFromMarch(m), day);
    } else {
      UnsignedForm(y, DoyFromMarch(m), day);
    }
  }

  lemma MarchTableBound(m: int)
    requires 0 <= m < 12
    ensures 0 <= DoyFromMarch(m) <= 337
  {
  }

  lemma SignedForm(y: int, start: nat, day: int)
    requires y < 0
    ensures DaysSigned(y, start, day) == MarchFirst(y) + start + day - 1
  {
    DivModUnique(-(y - 399), 400, -(y / 400), 399 - y % 400);
    EraForm(y, y / 400, y % 400);
  }

  /** The unsigned branch: no step wraps. */
  lemma UnsignedForm(y: nat, start: nat, day: int)
    requires y <= YEAR_LIMIT && start <= 337 && 1 <= day < 1970
    ensures DaysUnsigned(y, start, day) == MarchFirst(y) + start + day - 1
  {
    hide MarchFirst, DaysUnsigned;
    EraForm(y, y / 400, y % 400);
    UnsignedSteps(y, y / 400, y % 400, start, day);
  }

  lemma UnsignedSteps(y: nat, era: nat, yoe: nat, start: nat, day: int)
    requires y <= YEAR_LIMIT && y / 400 == era && y == era * 400 + yoe && yoe < 400 && start <= 337 && 1 <= day < 1970
    ensures DaysUnsigned(y, start, day) == era * 146097 + yoe * 365 + yoe / 4 - yoe / 100 - 719468 + start + day - 1
  {
    hide U64;
    assert U64(y) == y && U64(era * 400) == era * 400 && U64(y - era * 400) == yoe;
    assert U64(yoe * 365) == yoe * 365;
    var leaps := yoe * 365 + yoe / 4 - yoe / 100;
    assert 0 <= leaps < 200_000 && era <= 50_000_000_000_000;
    assert DaysUnsigned(y, start, day) == I64(U64(U64(era * 146097) + (leaps + start + (day - 1)))) - 719468;
  }

  // ----- fast_date_from_days -----

  function Rev(days: int): nat { U64(D_SHIFT - days) }

  function Cen(days: int): nat { MulHiConstexpr(Rev(days), C1) }

  function Jul(days: int): nat { U64(U64(Rev(days) + Cen(days)) - Cen(days) / 4) }

  function NumHi(days: int): nat { MulHiConstexpr(Jul(days), C2) }

  function NumLow(days: int): nat { U64(Jul(days) * C2) }

  function Yrs(days: int): (r: nat)
    ensures r < TWO_64
  {
    U64(U64(Y_SHIFT) - NumHi(days))
  }

  function Ypt(days: int): nat { MulHiConstexpr(YPT_SCALE, NumLow(days)) }

  predicate Bump(days: int) { Ypt(days) < YPT_BUMP_THRESHOLD }

  function PackedMonthDay(days: int): nat {
    U64(U64((Yrs(days) % 4) * 512 + (if Bump(days) then SHIFT_JAN_FEB else SHIFT_OTHER)) - Ypt(days))
  }

  /** `fast_date_from_days_constexpr`. */
  function DateFromDays(days: int): Date {
    Date(I64(U64(Yrs(days) + (if Bump(days) then 1 else 0))),
         PackedMonthDay(days) / 0x1_0000,
         MulHiConstexpr(PackedMonthDay(days) % 0x1_0000, C3) + 1)
  }

  /** `fast_year_from_days_constexpr`. */
  function YearFromDays(days: int): int {
    I64(U64(Yrs(days) + (if Bump(days) then 1 else 0)))
  }

  // ----- the exact quantities the magic constants approximate -----

  /** `C1` is 2^66 / 146097 rounded down: the quotient is exact except at a positive multiple
      of 146097, where it is one short; `cen - cen / 4` is the same either way. */
  lemma CenturyCount(rev: nat)
    requires rev < 800000000000000
    ensures var cen, exact := rev * C1 / TWO_64, 4 * rev / 146097;
            && (cen == exact || (cen == exact - 1 && rev % 146097 == 0 && rev > 0))
            && 0 <= cen - cen / 4 == exact - exact / 4
  {
    CenturyQuotient(rev);
    var exact := 4 * rev / 146097;
    if rev * C1 / TWO_64 != exact {
      var k := rev / 146097;
      DivModUnique(4 * rev, 146097, 4 * k, 0);
      DivModUnique(exact - 1, 4, k - 1, 3);
    }
  }

  lemma CenturyQuotient(rev: nat)
    requires rev < 800000000000000
    ensures var cen, exact := rev * C1 / TWO_64, 4 * rev / 146097;
            cen == exact || (cen == exact - 1 && rev % 146097 == 0 && rev > 0)
  {
    var product, exact, t := rev * C1, 4 * rev / 146097, 4 * rev % 146097;
    assert TWO_64 * (146097 * exact + t) - 13357 * rev == 146097 * product;
    if t == 0 {
      var k := rev - 36524 * exact;
      assert exact == 4 * k && rev == 146097 * k;
    }
  }

  /** `C2` is 2^66 / 1461 rounded up: the high word is the exact quotient and the low word is the
      remainder, scaled, plus a small excess. */
  lemma JulianSplit(jul: nat)
    requires jul < 810000000000000
    ensures var q, r := 4 * jul / 1461, 4 * jul % 1461;
            && MulHi(jul, C2) == q
            && 1461 * U64(jul * C2) == TWO_64 * r + 317 * jul
  {
    var q, r := 4 * jul / 1461, 4 * jul % 1461;
    assert 1461 * (jul * C2) == TWO_64 * (1461 * q + r) + 317 * jul;
    assert 1461 * (jul * C2 - TWO_64 * q) == TWO_64 * r + 317 * jul;
    DivModUnique(jul * C2, TWO_64, q, jul * C2 - TWO_64 * q);
  }

  /** The scaled fraction drifts upward by fewer than 8 units. */
  lemma Drift(jul: nat)
    requires jul < 810000000000000
    ensures var r, ypt := 4 * jul % 1461, MulHi(YPT_SCALE, U64(jul * C2));
            YPT_SCALE * r < 1461 * (ypt + 1) && 1461 * ypt <= YPT_SCALE * r + 8 * 1461
  {
    JulianSplit(jul);
    var low, ypt := U64(jul * C2), MulHi(YPT_SCALE, U64(jul * C2));
    assert YPT_SCALE * (1461 * low) == TWO_64 * (YPT_SCALE * (4 * jul % 1461)) + YPT_SCALE * 317 * jul;
  }

  /** `C3` is 2^64 / 2140 rounded down: exact off the multiples of 2140. */
  lemma DayDivision(x: nat)
    requires x < 0x1_0000 && x % 2140 != 0
    ensures MulHi(x, C3) == x / 2140
  {
    var q, r := x / 2140, x % 2140;
    assert 2140 * (x * C3) == TWO_64 * (2140 * q + r) - 1376 * x;
  }

  /** The remainder counts four-year cycles backwards. */
  lemma CycleResidue(jul: nat)
    ensures var q, r := 4 * jul / 1461, 4 * jul % 1461;
            (Y_SHIFT - q) % 4 == 3 - q % 4 && (r + q) % 4 == 0
    ensures var q, r := 4 * jul / 1461, 4 * jul % 1461;
            (r + 3 - (Y_SHIFT - q) % 4) % 4 == 0
  {
    var q, r := 4 * jul / 1461, 4 * jul % 1461;
    assert 4 * jul == 1461 * q + r;
    DivModUnique(Y_SHIFT - q, 4, 100 * ERAS - 1 - q / 4, 3 - q % 4);
    DivModUnique(r + q, 4, jul - 365 * q, 0);
    DivModUnique(r + 3 - (3 - q % 4), 4, jul - 365 * q - q / 4, 0);
  }

  /** Counting back from 29 February of year 400 * ERAS, the century reached before and after
      inserting the skipped leap days is the same one. */
  lemma CenturyStable(rev: nat)
    ensures var c := 4 * rev / 146097;
            var q := 4 * (rev + c - c / 4) / 1461;
            q / 100 == c && q / 400 == c / 4
  {
    var e, s := rev / 146097, rev % 146097;
    var c := 4 * s / 146097;
    assert 4 * rev / 146097 == 4 * e + c by { DivModUnique(4 * rev, 146097, 4 * e + c, 4 * s % 146097); }
    assert (4 * e + c) / 4 == e;
    var q := 4 * (s + c) / 1461;
    assert 4 * (rev + (4 * e + c) - e) == (400 * e + q) * 1461 + 4 * (s + c) % 1461;
    DivModUnique(4 * (rev + (4 * e + c) - e), 1461, 400 * e + q, 4 * (s + c) % 1461);
    assert 100 * c <= q < 100 * (c + 1);
  }

  /** Reading off the date: March-based year and day of the year from the reversed count. */
  function ReversedYear(rev: nat): int {
    var c := 4 * rev / 146097;
    Y_SHIFT - 4 * (rev + c - c / 4) / 1461
  }

  function ReversedDay(rev: nat): int {
    var c := 4 * rev / 146097;
    var y := ReversedYear(rev);
    365 - (4 * (rev + c - c / 4) % 1461 + 3 - y % 4) / 4
  }

  /** The reversed count names the right day: the day number of day `ReversedDay` of the March year
      `ReversedYear` is the day asked for, and it lies inside that year. */
  lemma ReversedIsForward(rev: nat)
    ensures var y, doy := ReversedYear(rev), ReversedDay(rev);
            && 0 <= doy < YearLength(y + 1)
            && MarchFirst(y) + doy == D_SHIFT - rev
  {
    var c := 4 * rev / 146097;
    var jul := rev + c - c / 4;
    var q, r := 4 * jul / 1461, 4 * jul % 1461;
    var y, doy := ReversedYear(rev), ReversedDay(rev);
    CenturyStable(rev);
    assert q / 100 == c && q / 400 == c / 4;
    CycleResidue(jul);
    assert doy == 365 ==> IsLeap(y + 1) by { if doy == 365 { LeapAtReversedStart(rev); } }
    hide MarchFirst, IsLeap;
    MirrorMarchFirst(ERAS, q);
    DayInCycle(jul, q, r, y % 4, doy);
  }

  /** 1 March of a year, counted back from the end of a 400-year cycle. */
  lemma MirrorMarchFirst(e: int, q: nat)
    ensures MarchFirst(400 * e - 1 - q) == 146097 * e - 365 * q - 366 - q / 4 + q / 100 - q / 400 - 719468
  {
    DivModUnique(400 * e - 1 - q, 4, 100 * e - 1 - q / 4, 3 - q % 4);
    DivModUnique(400 * e - 1 - q, 100, 4 * e - 1 - q / 100, 99 - q % 100);
    DivModUnique(400 * e - 1 - q, 400, e - 1 - q / 400, 399 - q % 400);
  }

  lemma DayInCycle(jul: nat, q: nat, r: nat, a: int, doy: int)
    requires 4 * jul == 1461 * q + r && r < 1461 && a == 3 - q % 4
    requires (r + 3 - a) % 4 == 0 && doy == 365 - (r + 3 - a) / 4
    ensures 0 <= doy <= 365 && jul == 365 * q + q / 4 + 365 - doy
  {
    assert r + 3 - a == 4 * (365 - doy);
  }

  /** Position 0 of a reversed four-year cycle is a real 29 February. */
  lemma LeapAtReversedStart(rev: nat)
    requires ReversedDay(rev) == 365
    ensures IsLeap(ReversedYear(rev) + 1)
  {
    var c := 4 * rev / 146097;
    var jul := rev + c - c / 4;
    var q, r := 4 * jul / 1461, 4 * jul % 1461;
    var y := ReversedYear(rev);
    CenturyStable(rev);
    CycleResidue(jul);
    StartOfCycle(q, r, y % 4);
    NoSkippedDay(jul, q, c, rev);
    hide IsLeap;
    MirrorYear(q);
  }

  lemma StartOfCycle(q: nat, r: nat, a: int)
    requires 0 <= a < 4 && a == 3 - q % 4 && (r + q) % 4 == 0 && 0 <= r + 3 - a < 4
    ensures r == 0 && q % 4 == 0
  {
  }

  /** Leap years, counted back from year 400 * ERAS. */
  lemma MirrorYear(q: nat)
    ensures IsLeap(400 * ERAS - q) <==> q % 4 == 0 && (q % 100 != 0 || q % 400 == 0)
  {
    Mirror(q, 4, 100 * ERAS);
    Mirror(q, 100, 4 * ERAS);
    Mirror(q, 400, ERAS);
  }

  lemma Mirror(q: nat, m: nat, k: int)
    requires m > 0
    ensures (m * k - q) % m == 0 <==> q % m == 0
  {
    var a, b := q / m, q % m;
    if b == 0 {
      assert m * k - q == (k - a) * m;
      DivModUnique(m * k - q, m, k - a, 0);
    } else {
      assert m * k - q == (k - a - 1) * m + (m - b);
      DivModUnique(m * k - q, m, k - a - 1, m - b);
    }
  }

  /** A day that is 29 February of the four-year cycle is never one the century rule removes. */
  lemma NoSkippedDay(jul: nat, q: nat, c: nat, rev: nat)
    requires 4 * jul == 1461 * q && jul == rev + c - c / 4
    requires q / 100 == c && 146097 * c <= 4 * rev
    ensures q % 100 == 0 ==> q % 400 == 0
  {
    if q % 100 == 0 {
      assert q == 100 * c;
      assert rev == 36524 * c + c / 4;
      assert c % 4 == 0;
      DivModUnique(q, 400, c / 4, 0);
    }
  }

  /** March-based month holding day `doy` of the year. */
  function MonthHolding(doy: int): (m: int)
    requires 0 <= doy < 366
    ensures 0 <= m < 12
    ensures DaysBeforeMarchMonth(m) <= doy
    ensures m < 11 ==> doy < DaysBeforeMarchMonth(m + 1)
  {
    if doy < 31 then 0 else if doy < 61 then 1 else if doy < 92 then 2 else if doy < 122 then 3
    else if doy < 153 then 4 else if doy < 184 then 5 else if doy < 214 then 6 else if doy < 245 then 7
    else if doy < 275 then 8 else if doy < 306 then 9 else if doy < 337 then 10 else 11
  }

  /** Every month and day cut point tolerates the drift: from the scaled fraction of day `doy` the
      packed word has the month above bit 16 and the day in units of 2140 below it. */
  lemma CutPoints(doy: int, a: int, ypt: nat)
    requires 0 <= doy < 366 && 0 <= a < 4 && (doy == 365 ==> a == 3)
    requires var r := 4 * (365 - doy) + a - 3;
             && YPT_SCALE * r < 1461 * (ypt + 1)
             && 1461 * ypt <= YPT_SCALE * r + 8 * 1461
    ensures var m := MonthHolding(doy);
            var n := a * 512 + (if ypt < YPT_BUMP_THRESHOLD then SHIFT_JAN_FEB else SHIFT_OTHER) - ypt;
            && (ypt < YPT_BUMP_THRESHOLD <==> m >= 10)
            && n >= 0
            && n / 0x1_0000 == (if m >= 10 then m - 9 else m + 3)
            && n % 0x1_0000 % 2140 != 0
            && n % 0x1_0000 / 2140 == doy - DaysBeforeMarchMonth(m)
  {
    var m := MonthHolding(doy);
    var d := doy - DaysBeforeMarchMonth(m);
    var month := if m >= 10 then m - 9 else m + 3;
    var low := a * 512 + (if m >= 10 then SHIFT_JAN_FEB else SHIFT_OTHER) - ypt - 0x1_0000 * month;
    PackedRange(doy, a, ypt);
    DivModUnique(low + 0x1_0000 * month, 0x1_0000, month, low);
    DivModUnique(low, 2140, d, low - 2140 * d);
  }

  /** The linear estimate behind the cut points, with slack on both sides of every day. */
  lemma PackedRange(doy: int, a: int, ypt: nat)
    requires 0 <= doy < 366 && 0 <= a < 4 && (doy == 365 ==> a == 3)
    requires var r := 4 * (365 - doy) + a - 3;
             && YPT_SCALE * r < 1461 * (ypt + 1)
             && 1461 * ypt <= YPT_SCALE * r + 8 * 1461
    ensures var m := MonthHolding(doy);
            var month := if m >= 10 then m - 9 else m + 3;
            var low := a * 512 + (if m >= 10 then SHIFT_JAN_FEB else SHIFT_OTHER) - ypt - 0x1_0000 * month;
            && (ypt < YPT_BUMP_THRESHOLD <==> m >= 10)
            && 2140 * (doy - DaysBeforeMarchMonth(m)) < low < 2140 * (doy - DaysBeforeMarchMonth(m) + 1)
            && 0 <= low < 0x1_0000
  {
  }

  /** All intermediate words of the fast conversion, on the days a timestamp can name. */
  lemma Intermediates(days: int)
    requires -MAX_DAYS <= days <= MAX_DAYS
    ensures var rev := D_SHIFT - days;
            var c := 4 * rev / 146097;
            var jul := rev + c - c / 4;
            && 0 < rev < 800000000000000
            && jul < 810000000000000
            && Rev(days) == rev
            && Jul(days) == jul
            && NumHi(days) == 4 * jul / 1461
            && Ypt(days) == MulHi(YPT_SCALE, U64(jul * C2))
            && Yrs(days) == U64(ReversedYear(rev))
            && Yrs(days) % 4 == ReversedYear(rev) % 4
  {
    hide MulHiConstexpr, MulHi, Jul, U64, ReversedYear;
    var rev := D_SHIFT - days;
    JulianDay(days);
    var jul := Jul(days);
    JulianSplit(jul);
    MulHiAgree(jul, C2);
    MulHiAgree(YPT_SCALE, NumLow(days));
    ReversedYearBound(rev);
    U64Mod4(ReversedYear(rev));
    WrappedYear(rev, NumHi(days));
  }

  lemma WrappedYear(rev: nat, numHi: nat)
    requires var c := 4 * rev / 146097; numHi == 4 * (rev + c - c / 4) / 1461
    ensures U64(U64(Y_SHIFT) - numHi) == U64(ReversedYear(rev))
  {
  }

  lemma JulianDay(days: int)
    requires -MAX_DAYS <= days <= MAX_DAYS
    ensures var rev := D_SHIFT - days;
            var c := 4 * rev / 146097;
            && 0 < rev < 800000000000000
            && Rev(days) == rev
            && 0 <= rev + c - c / 4 < 810000000000000
            && Jul(days) == rev + c - c / 4
  {
    hide MulHiConstexpr, MulHi, U64;
    var rev := D_SHIFT - days;
    assert Rev(days) == rev;
    CenturyCount(rev);
    MulHiAgree(rev, C1);
  }

  lemma U64Mod4(x: int)
    ensures U64(x) % 4 == x % 4
  {
    var q, r := x / TWO_64, x % TWO_64;
    DivModUnique(x, 4, 0x4000_0000_0000_0000 * q + r / 4, r % 4);
  }

  /** Main theorem: on every day a timestamp can name, the multiplications give the date that
      stepping one day at a time from 1970-01-01 reaches, and the year-only form gives its year. */
  lemma DateFromDaysCorrect(days: int)
    requires -MAX_DAYS <= days <= MAX_DAYS
    ensures DateFromDays(days) == DayByDay(days)
    ensures YearFromDays(days) == DayByDay(days).year
  {
    hide *;
    var rev := D_SHIFT - days;
    FractionOfDay(days);
    var y, doy := ReversedYear(rev), ReversedDay(rev);
    ReversedIsForward(rev);
    PackedFields(days, doy);
    YearField(days, y, doy);
    MarchDateFields(y, doy);
    assert DateFromDays(days) == MarchDate(y, doy);
    assert DayNumber(MarchDate(y, doy)) == days;
    WalkOfDayNumber(MarchDate(y, doy));
  }

  lemma MarchDateFields(y: int, doy: int)
    requires 0 <= doy < YearLength(y + 1)
    ensures var m := MonthHolding(doy);
            MarchDate(y, doy) == Date(if m >= 10 then y + 1 else y, if m >= 10 then m - 9 else m + 3,
                                      doy - DaysBeforeMarchMonth(m) + 1)
  {
  }

  /** The date at day `doy` of the year that begins on 1 March of year `y`. */
  function MarchDate(y: int, doy: int): (d: Date)
    requires 0 <= doy < YearLength(y + 1)
    ensures IsDate(d) && DayNumber(d) == MarchFirst(y) + doy
  {
    var m := MonthHolding(doy);
    Date(if m >= 10 then y + 1 else y, if m >= 10 then m - 9 else m + 3, doy - DaysBeforeMarchMonth(m) + 1)
  }

  /** The year field survives the unsigned wrap of years before 0. */
  lemma YearField(days: int, y: int, doy: int)
    requires 0 <= doy < 366 && -2_000_000_000_000 <= y <= 2_000_000_000_000
    requires Yrs(days) == U64(y) && (Bump(days) <==> MonthHolding(doy) >= 10)
    ensures YearFromDays(days) == DateFromDays(days).year == (if MonthHolding(doy) >= 10 then y + 1 else y)
  {
    hide Yrs, Bump, MonthHolding, MulHiConstexpr, MulHi, PackedMonthDay;
    var b := if Bump(days) then 1 else 0;
    I64OfU64(y + b);
    assert U64(U64(y) + b) == U64(y + b) by { U64Absorb(y, b); }
  }

  lemma U64Absorb(x: int, b: int)
    ensures U64(U64(x) + b) == U64(x + b)
  {
    var q, r := (U64(x) + b) / TWO_64, (U64(x) + b) % TWO_64;
    DivModUnique(x + b, TWO_64, x / TWO_64 + q, r);
  }

  /** What the words carry: the March year, and the fraction of its day `doy`, which the cut points decode. */
  lemma FractionOfDay(days: int)
    requires -MAX_DAYS <= days <= MAX_DAYS
    ensures D_SHIFT - days > 0
    ensures var y, doy := ReversedYear(D_SHIFT - days), ReversedDay(D_SHIFT - days);
            && -2_000_000_000_000 <= y <= 2_000_000_000_000
            && 0 <= doy < 366
            && Yrs(days) == U64(y)
            && Packs(days, doy)
  {
    hide *;
    var rev := D_SHIFT - days;
    var c := 4 * rev / 146097;
    var jul := rev + c - c / 4;
    Intermediates(days);
    var y, doy := ReversedYear(rev), ReversedDay(rev);
    ReversedBounds(rev);
    Drift(jul);
    RemainderOfDay(rev);
    CutPoints(doy, y % 4, Ypt(days));
    PacksIntro(days, doy);
  }

  lemma PacksIntro(days: int, doy: int)
    requires 0 <= doy < 366
    requires var m := MonthHolding(doy);
             var n := Yrs(days) % 4 * 512 + (if Ypt(days) < YPT_BUMP_THRESHOLD then SHIFT_JAN_FEB else SHIFT_OTHER) - Ypt(days);
             && (Ypt(days) < YPT_BUMP_THRESHOLD <==> m >= 10)
             && n >= 0
             && n / 0x1_0000 == (if m >= 10 then m - 9 else m + 3)
             && n % 0x1_0000 % 2140 != 0
             && n % 0x1_0000 / 2140 == doy - DaysBeforeMarchMonth(m)
    ensures Packs(days, doy)
  {
    hide Yrs, Ypt, MonthHolding;
  }

  lemma ReversedBounds(rev: nat)
    requires rev < 800000000000000
    ensures var y, doy := ReversedYear(rev), ReversedDay(rev);
            && -2_000_000_000_000 <= y <= 2_000_000_000_000
            && 0 <= doy < 366
            && (doy == 365 ==> y % 4 == 3)
  {
    hide *;
    ReversedYearBound(rev);
    ReversedIsForward(rev);
    if ReversedDay(rev) == 365 {
      LeapAtReversedStart(rev);
      LeapResidue(ReversedYear(rev));
    }
  }

  lemma LeapResidue(y: int)
    requires IsLeap(y + 1)
    ensures y % 4 == 3
  {
  }

  lemma ReversedYearBound(rev: nat)
    requires rev < 800000000000000
    ensures -2_000_000_000_000 <= ReversedYear(rev) <= 2_000_000_000_000
  {
  }

  /** The packed word holds the month and day of day `doy` of the March year without wrapping. */
  ghost predicate Packs(days: int, doy: int)
    requires 0 <= doy < 366
  {
    var m := MonthHolding(doy);
    var n := Yrs(days) % 4 * 512 + (if Bump(days) then SHIFT_JAN_FEB else SHIFT_OTHER) - Ypt(days);
    && (Bump(days) <==> m >= 10)
    && n >= 0
    && n / 0x1_0000 == (if m >= 10 then m - 9 else m + 3)
    && n % 0x1_0000 % 2140 != 0
    && n % 0x1_0000 / 2140 == doy - DaysBeforeMarchMonth(m)
  }

  lemma RemainderOfDay(rev: nat)
    ensures var c := 4 * rev / 146097;
            4 * (rev + c - c / 4) % 1461 == 4 * (365 - ReversedDay(rev)) + ReversedYear(rev) % 4 - 3
  {
    var c := 4 * rev / 146097;
    var jul := rev + c - c / 4;
    var q, r := 4 * jul / 1461, 4 * jul % 1461;
    CycleResidue(jul);
  }

  /** The three fields, once the packed word is known not to wrap. */
  lemma PackedFields(days: int, doy: int)
    requires -MAX_DAYS <= days <= MAX_DAYS
    requires 0 <= doy < 366 && Packs(days, doy)
    ensures Bump(days) <==> MonthHolding(doy) >= 10
    ensures var m := MonthHolding(doy);
            && DateFromDays(days).month == (if m >= 10 then m - 9 else m + 3)
            && DateFromDays(days).day == doy - DaysBeforeMarchMonth(m) + 1
  {
    hide MulHiConstexpr, MulHi, Ypt, Yrs, MonthHolding;
    var n := PackedMonthDay(days);
    MulHiAgree(n % 0x1_0000, C3);
    DayDivision(n % 0x1_0000);
  }

  /** Days and dates correspond one to one: each conversion undoes the other. */
  lemma DaysAndDatesBiject(days: int, d: Date)
    requires -MAX_DAYS <= days <= MAX_DAYS
    requires IsDate(d) && -YEAR_LIMIT <= d.year <= YEAR_LIMIT
    ensures var e := DateFromDays(days); IsDate(e) && DaysFromDate(e.year, e.month, e.day) == days
    ensures var n := DaysFromDate(d.year, d.month, d.day); -MAX_DAYS <= n <= MAX_DAYS ==> DateFromDays(n) == d
  {
    DateFromDaysCorrect(days);
    YearRange(days);
    DaysFromDateCorrect(DayByDay(days));
    DayNumberOfWalk(days);
    DaysFromDateCorrect(d);
    var n := DaysFromDate(d.year, d.month, d.day);
    if -MAX_DAYS <= n <= MAX_DAYS {
      DateFromDaysCorrect(n);
    }
  }

  /** Every day a timestamp can name lies in a year of magnitude at most 292277026600. */
  lemma YearRange(days: int)
    requires -MAX_DAYS <= days <= MAX_DAYS
    ensures -292277022660 <= DayByDay(days).year <= 292277026600
  {
    hide DayByDay, DayNumber, MarchYear, MarchFirst, MarchDayOfYear;
    var d := DayByDay(days);
    DayNumberOfWalk(days);
    MarchYearSplit(d);
    MarchYearBounds(MarchYear(d));
  }

  lemma MarchYearSplit(d: Date)
    requires IsDate(d)
    ensures MarchFirst(MarchYear(d)) <= DayNumber(d) <= MarchFirst(MarchYear(d)) + 365
    ensures MarchYear(d) <= d.year <= MarchYear(d) + 1
  {
    hide MarchFirst;
  }

  lemma MarchYearBounds(y: int)
    ensures 146097 * y <= 400 * (MarchFirst(y) + 719468) + 400 * 2
    ensures 400 * (MarchFirst(y) + 719468) <= 146097 * y + 400 * 2
  {
  }
}
