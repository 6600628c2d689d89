/** The run-time forms of the fast date code, which multiply in 128 bits. */
module WideFastDate {
  import opened Words
  import opened Calendar
  import opened FastDate

  function WideCen(days: int): nat { MulHi(Rev(days), C1) }

  function WideJul(days: int): nat { U64(U64(Rev(days) + WideCen(days)) - WideCen(days) / 4) }

  function WideYrs(days: int): (r: nat)
    ensures r < TWO_64
  {
    U64(U64(Y_SHIFT) - MulHi(WideJul(days), C2))
  }

  function WideYpt(days: int): nat { MulHi(YPT_SCALE, U64(WideJul(days) * C2)) }

  predicate WideBump(days: int) { WideYpt(days) < YPT_BUMP_THRESHOLD }

  function WidePacked(days: int): nat {
    U64(U64((WideYrs(days) % 4) * 512 + (if WideBump(days) then SHIFT_JAN_FEB else SHIFT_OTHER)) - WideYpt(days))
  }

  /** `fast_date_from_days`. */
  function DateFromDaysWide(days: int): Date {
    Date(I64(U64(WideYrs(days) + (if WideBump(days) then 1 else 0))),
         WidePacked(days) / 0x1_0000,
         MulHi(WidePacked(days) % 0x1_0000, C3) + 1)
  }

  /** `fast_year_from_days`. */
  function YearFromDaysWide(days: int): int {
    I64(U64(WideYrs(days) + (if WideBump(days) then 1 else 0)))
  }

  lemma SameHighWord(a: nat, b: nat)
    requires a < TWO_64 && b < TWO_64
    ensures MulHi(a, b) == MulHiConstexpr(a, b)
  {
    MulHiAgree(a, b);
  }

  lemma SameJulian(days: int)
    ensures WideJul(days) == Jul(days)
  {
    hide MulHi, MulHiConstexpr;
    SameHighWord(Rev(days), C1);
  }

  lemma SameYear(days: int)
    ensures WideYrs(days) == Yrs(days) && WideYpt(days) == Ypt(days)
  {
    hide MulHi, MulHiConstexpr, WideJul;
    SameJulian(days);
    SameHighWord(Jul(days), C2);
    SameHighWord(YPT_SCALE, NumLow(days));
  }

  /** Both forms return the same date and year for every day count whatsoever. */
  lemma FormsAgree(days: int)
    ensures DateFromDaysWide(days) == DateFromDays(days) && YearFromDaysWide(days) == YearFromDays(days)
  {
    hide MulHi, MulHiConstexpr, WideYrs, Yrs, WideYpt, Ypt, U64, I64;
    SameYear(days);
    SameHighWord(PackedMonthDay(days) % 0x1_0000, C3);
  }

  /** So the run-time forms, too, are the day-by-day calendar. */
  lemma DateFromDaysWideCorrect(days: int)
    requires -MAX_DAYS <= days <= MAX_DAYS
    ensures DateFromDaysWide(days) == DayByDay(days) && YearFromDaysWide(days) == DayByDay(days).year
  {
    hide DateFromDaysWide, DateFromDays, YearFromDaysWide, YearFromDays, DayByDay;
    FormsAgree(days);
    DateFromDaysCorrect(days);
  }
}
