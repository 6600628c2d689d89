/** Week dates survive their text, in every form that `format_iso_week_date` prints. */
module IsoWeekText {
  import opened Timestamps
  import opened IsoWeek
  import opened Text
  import opened Formats
  import opened Iso8601

  /** `format_iso_week_date` of a valid week date. */
  function WeekText(iso: IsoWeekDate, extended: bool, includeWeekday: bool): string
    requires 0 <= iso.week < 100 && 0 <= iso.weekday <= 9
  {
    Decimal(iso.year) + (if extended then "-W" else "W") + Two(iso.week)
    + if !includeWeekday then "" else if extended then "-" + [DigitChar(iso.weekday)] else [DigitChar(iso.weekday)]
  }

  /** The longest text of a valid week date fits the 32-byte buffer. */
  lemma WeekTextFits(iso: IsoWeekDate, extended: bool, includeWeekday: bool)
    requires MIN_YEAR <= iso.year <= MAX_YEAR && 0 <= iso.week < 100 && 0 <= iso.weekday <= 9
    ensures |WeekText(iso, extended, includeWeekday)| <= 24
  {
    SeventeenDigits(if iso.year < 0 then -iso.year else iso.year);
    TwoDigitsExplicit(iso.week);
    hide Digits, Padded;
  }

  /** The year of a week date is read up to the dash or the `W`. */
  lemma YearOfWeekRead(year: int, tail: string)
    requires tail != "" && !IsDigit(tail[0])
    ensures ParseIsoWeekDate(Decimal(year) + tail) == ParseWeekOfYear(year, tail)
  {
    hide Digits, ValueOf, ParseWeekOfYear, ParseIsoWeekDate;
    var n := if year < 0 then -year else year;
    ValueOfDigits(n);
    var s := Decimal(year) + tail;
    if year < 0 { assert s[1..] == Digits(n) + tail; }
    SignedYearRead(s, Digits(n), tail);
  }

  lemma SignedYearRead(s: string, d: string, tail: string)
    requires d != "" && AllDigits(d) && tail != "" && !IsDigit(tail[0])
    requires s == d + tail || (s != "" && s[0] == '-' && s[1..] == d + tail)
    ensures ParseIsoWeekDate(s) == ParseWeekOfYear(if s[0] == '-' then -ValueOf(d) else ValueOf(d), tail)
  {
    hide ValueOf, ParseWeekOfYear, DigitRun;
    var t := d + tail;
    assert t[0] == d[0] && t[..|d|] == d && t[|d|..] == tail;
    RunOfDigits(d, tail, |t|);
  }

  function Tail(iso: IsoWeekDate, extended: bool, includeWeekday: bool): string
    requires 0 <= iso.week < 100 && 0 <= iso.weekday <= 9
  {
    (if extended then "-W" else "W") + (Two(iso.week)
    + if !includeWeekday then "" else if extended then "-" + [DigitChar(iso.weekday)] else [DigitChar(iso.weekday)])
  }

  lemma WeekOfYearRead(iso: IsoWeekDate, extended: bool, includeWeekday: bool)
    requires IsValidIsoWeekDate(iso) && iso.week < 100
    ensures ParseWeekOfYear(iso.year, Tail(iso, extended, includeWeekday))
         == Some(if includeWeekday then iso else iso.(weekday := 1))
  {
    hide IsoWeeksInYear, Padded, ParseExact2;
    var day := if !includeWeekday then "" else if extended then "-" + [DigitChar(iso.weekday)] else [DigitChar(iso.weekday)];
    var s := Tail(iso, extended, includeWeekday);
    Exact2ReadsTwoDigits(iso.week, day);
    var w := if extended then s[1..] else s;
    assert w[0] == 'W' && w[1..] == Two(iso.week) + day;
    assert extended && includeWeekday ==> day[1..] == [DigitChar(iso.weekday)];
  }

  /** Whatever the form, the text of a valid week date is read back; without a weekday it means the Monday. */
  lemma WeekTextRead(iso: IsoWeekDate, extended: bool, includeWeekday: bool)
    requires IsValidIsoWeekDate(iso) && iso.week < 100
    ensures ParseIsoWeekDate(WeekText(iso, extended, includeWeekday))
         == Some(if includeWeekday then iso else iso.(weekday := 1))
  {
    hide Decimal, Padded, ParseIsoWeekDate, ParseWeekOfYear, IsoWeeksInYear;
    assert WeekText(iso, extended, includeWeekday) == Decimal(iso.year) + Tail(iso, extended, includeWeekday);
    YearOfWeekRead(iso.year, Tail(iso, extended, includeWeekday));
    WeekOfYearRead(iso, extended, includeWeekday);
  }

  /** The four forms, on the first Wednesday of 2024. */
  lemma FirstWednesday2024()
    ensures var iso := IsoWeekDate(2024, 1, 3);
      && WeekText(iso, true, true) == "2024-W01-3" && WeekText(iso, false, true) == "2024W013"
      && WeekText(iso, true, false) == "2024-W01" && WeekText(iso, false, false) == "2024W01"
  {
    TwoDigitsExplicit(1);
    assert Decimal(2024) == "2024" by {
      assert Digits(20) == "20" && Digits(202) == "202";
    }
    hide Decimal, Padded;
    assert Two(1) == "01" && DigitChar(3) == '3';
    hide Two;
  }
}
