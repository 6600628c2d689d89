/** The language of `parse_iso8601`: exactly which texts it accepts, and what each of them means. */
module Iso8601Language {
  import opened Words
  import opened Calendar
  import opened Timestamps
  import opened IsoWeek
  import opened Text
  import opened Formats
  import opened Iso8601
  import opened Iso8601RoundTrip

  // ----- the grammar -----

  predicate IsBlank(s: string) {
    forall i :: 0 <= i < |s| ==> IsSpace(s[i])
  }

  /** Four digits of the year and two each of month and day, with any of the three separators in either place. */
  function CalendarText(y: nat, a: char, mon: nat, b: char, day: nat): string {
    Padded(y, 4) + ([a] + (Two(mon) + ([b] + Two(day))))
  }

  predicate IsSeparator(c: char) {
    c == '-' || c == '/' || c == '.'
  }

  function WeekDateText(sign: string, digits: string, dash: string, w: char, week: nat, day: string): string {
    sign + (digits + (dash + ([w] + (Two(week) + day))))
  }

  /** No weekday means Monday; a dash before it is optional. */
  predicate IsWeekdayText(s: string, weekday: int) {
    (s == "" && weekday == 1)
    || (|s| == 1 && IsDigit(s[0]) && weekday == DigitValue(s[0]))
    || (|s| == 2 && s[0] == '-' && IsDigit(s[1]) && weekday == DigitValue(s[1]))
  }

  predicate IsWeekPieces(sign: string, digits: string, dash: string, w: char, week: nat, day: string, iso: IsoWeekDate) {
    && (sign == "" || sign == "+" || sign == "-") && digits != "" && AllDigits(digits)
    && (dash == "" || dash == "-") && (w == 'W' || w == 'w') && week < 100
    && iso.year == (if sign == "-" then -ValueOf(digits) else ValueOf(digits)) && iso.week == week && IsWeekdayText(day, iso.weekday)
  }

  ghost predicate IsWeekDateText(s: string, iso: IsoWeekDate) {
    IsValidIsoWeekDate(iso)
    && exists sign, digits, dash, w, week: nat, day :: IsWeekPieces(sign, digits, dash, w, week, day, iso)
                                                    && s == WeekDateText(sign, digits, dash, w, week, day)
  }

  ghost predicate IsDateText(s: string, d: Date) {
    (exists y: nat, a, mon: nat, b, day: nat ::
       s == CalendarText(y, a, mon, b, day) && y <= 9999 && mon < 100 && day < 100 && IsSeparator(a) && IsSeparator(b)
       && d == Date(y, mon, day))
    || exists iso :: IsWeekDateText(s, iso) && IsoWeekDateToDate(iso) == Result.Ok(d)
  }

  /** One to three digits, counted as if filled up with zeros to three. */
  predicate IsFraction(f: string, ms: int) {
    1 <= |f| <= 3 && AllDigits(f) && AllDigits(f + Zeros(3 - |f|)) && ms == ValueOf(f + Zeros(3 - |f|))
  }

  function MinuteText(hour: nat, min: nat): string {
    Two(hour) + (":" + Two(min))
  }

  predicate TwoDigitClock(c: Clock) {
    0 <= c.hour < 100 && 0 <= c.min < 100 && 0 <= c.sec < 100
  }

  ghost predicate IsClockText(s: string, c: Clock) {
    TwoDigitClock(c)
    && ((s == MinuteText(c.hour, c.min) && c.sec == 0 && c.ms == 0)
        || (s == MinuteText(c.hour, c.min) + (":" + Two(c.sec)) && c.ms == 0)
        || exists f :: IsFraction(f, c.ms) && s == MinuteText(c.hour, c.min) + (":" + (Two(c.sec) + ("." + f))))
  }

  function SignedZone(sign: char, hour: nat, min: nat): string {
    [sign] + (Two(hour) + (":" + Two(min)))
  }

  ghost predicate IsZoneText(s: string, tz: TimeZone) {
    ((s == "" || s == "Z" || s == "z") && tz == UTC)
    || (IsValidTimeZone(tz) && s == SignedZone(if tz.isPositive then '+' else '-', tz.hour, tz.min))
  }

  /** A text cut into its parts; a date alone has empty ones in the middle. */
  datatype Pieces = Pieces(lead: string, date: string, sep: string, clock: string, gap: string, zone: string, trail: string)

  /** Everything after the date. */
  function TimeOf(p: Pieces): string {
    p.sep + (p.clock + (p.gap + (p.zone + p.trail)))
  }

  function TextOf(p: Pieces): string {
    p.lead + (p.date + TimeOf(p))
  }

  /** What a text means: a date alone is midnight UTC. */
  ghost predicate Means(p: Pieces, dt: DateTime, tz: TimeZone) {
    && IsBlank(p.lead) && IsBlank(p.gap) && IsBlank(p.trail) && IsDateText(p.date, DateOf(dt)) && IsValidDateTime(dt)
    && if p.clock == "" then
         p.sep == "" && p.gap == "" && p.zone == "" && dt.hour == dt.min == dt.sec == dt.ms == 0 && tz == UTC
       else
         (p.sep == "T" || p.sep == "t" || (p.sep != "" && IsBlank(p.sep)))
         && IsClockText(p.clock, Clock(dt.hour, dt.min, dt.sec, dt.ms)) && IsZoneText(p.zone, tz)
  }

  // ----- blanks and digits -----

  lemma {:induction false} SkipBlank(b: string, s: string)
    requires IsBlank(b) && (s == "" || !IsSpace(s[0]))
    ensures SkipSpaces(b + s) == s
  {
    if b == "" {
      assert b + s == s;
    } else {
      assert (b + s)[1..] == b[1..] + s;
      SkipBlank(b[1..], s);
    }
  }

  lemma {:induction false} SkippedBlank(s: string) returns (b: string)
    ensures s == b + SkipSpaces(s) && IsBlank(b)
    ensures SkipSpaces(s) == "" || !IsSpace(SkipSpaces(s)[0])
  {
    if s != "" && IsSpace(s[0]) {
      b := SkippedBlank(s[1..]);
      b := [s[0]] + b;
    } else {
      b := "";
    }
  }

  lemma Exact2Was(s: string)
    requires ParseExact2(s).Got?
    ensures var (n, rest) := (ParseExact2(s).value, ParseExact2(s).rest);
      0 <= n < 100 && s == Two(n) + rest
  {
    var n := ParseExact2(s).value;
    TwoDigitsExplicit(n);
    assert DigitChar(n / 10) == s[0] && DigitChar(n % 10) == s[1];
  }

  function FourOf(a: nat, b: nat, c: nat, d: nat): string
    requires a <= 9 && b <= 9 && c <= 9 && d <= 9
  {
    [DigitChar(a), DigitChar(b), DigitChar(c), DigitChar(d)]
  }

  /** One digit more, one place more. */
  lemma PaddedMore(n: nat, d: nat, width: nat)
    requires d <= 9 && width >= 1
    ensures Padded(10 * n + d, width + 1) == Padded(n, width) + [DigitChar(d)]
  {
    if n > 0 {
      assert Digits(10 * n + d) == Digits(n) + [DigitChar(d)];
      hide Digits;
    } else {
      assert Digits(d) == [DigitChar(d)] && Digits(0) == "0" && Zeros(width) == Zeros(width - 1) + "0";
      hide Digits, Zeros;
      assert width == 1 ==> Zeros(width - 1) + "0" == "0";
    }
  }

  lemma PaddedFour(a: nat, b: nat, c: nat, d: nat)
    requires a <= 9 && b <= 9 && c <= 9 && d <= 9
    ensures Padded(1000 * a + 100 * b + 10 * c + d, 4) == FourOf(a, b, c, d)
  {
    assert Padded(a, 1) == [DigitChar(a)];
    hide Padded;
    PaddedMore(a, b, 1);
    PaddedMore(10 * a + b, c, 2);
    PaddedMore(100 * a + 10 * b + c, d, 3);
    FourChars(DigitChar(a), DigitChar(b), DigitChar(c), DigitChar(d));
  }

  lemma FourChars(p: char, q: char, r: char, s: char)
    ensures [p] + [q] + [r] + [s] == [p, q, r, s]
  {
  }

  lemma FourSplit(y: nat) returns (a: nat, b: nat, c: nat, d: nat)
    requires y <= 9999
    ensures a <= 9 && b <= 9 && c <= 9 && d <= 9 && y == 1000 * a + 100 * b + 10 * c + d
  {
    var (r, q) := (y % 1000, y % 1000 % 100);
    a, b, c, d := y / 1000, r / 100, q / 10, q % 10;
  }

  lemma FourRead(y: nat, rest: string)
    requires y <= 9999
    ensures Parse4Digits(Padded(y, 4) + rest) == Got(y, rest)
  {
    hide Padded, Parse4Digits;
    var a, b, c, d := FourSplit(y);
    PaddedFour(a, b, c, d);
    FourParsed(a, b, c, d, rest);
  }

  lemma FourParsed(a: nat, b: nat, c: nat, d: nat, rest: string)
    requires a <= 9 && b <= 9 && c <= 9 && d <= 9
    ensures Parse4Digits(FourOf(a, b, c, d) + rest) == Got(1000 * a + 100 * b + 10 * c + d, rest)
  {
    assert (FourOf(a, b, c, d) + rest)[4..] == rest;
  }

  lemma FourWas(s: string)
    requires Parse4Digits(s).Got?
    ensures var (y, rest) := (Parse4Digits(s).value, Parse4Digits(s).rest);
      0 <= y <= 9999 && s == Padded(y, 4) + rest
  {
    var (a, b, c, d) := (DigitValue(s[0]), DigitValue(s[1]), DigitValue(s[2]), DigitValue(s[3]));
    PaddedFour(a, b, c, d);
    SameDigit(s[0], a);
    SameDigit(s[1], b);
    SameDigit(s[2], c);
    SameDigit(s[3], d);
    hide Padded;
    assert s == FourOf(a, b, c, d) + s[4..];
  }

  lemma SameDigit(c: char, d: int)
    requires IsDigit(c) && d == DigitValue(c)
    ensures DigitChar(d) == c
  {
  }

  // ----- clocks -----

  /** What may follow a clock: no digit, colon or point. */
  predicate EndsClock(rest: string) {
    rest == "" || (!IsDigit(rest[0]) && rest[0] != ':' && rest[0] != '.')
  }

  lemma FractionIs(f: string, ms: int, rest: string)
    requires IsFraction(f, ms) && !StartsWithDigit(rest)
    ensures ParseFraction(f + rest) == Got(ms, rest)
  {
    RunOfDigits(f, rest, |f + rest|);
    assert (f + rest)[..|f|] == f && (f + rest)[|f|..] == rest;
    FilledUp(f);
    hide ValueOf, DigitRun;
  }

  /** Each zero that fills up multiplies by ten. */
  lemma FilledUp(f: string)
    requires 1 <= |f| <= 3 && AllDigits(f)
    ensures AllDigits(f + Zeros(3 - |f|))
    ensures ValueOf(f + Zeros(3 - |f|)) == ValueOf(f) * (if |f| == 1 then 100 else if |f| == 2 then 10 else 1)
  {
    assert Zeros(0) == "" && Zeros(1) == "0" && Zeros(2) == "00";
    hide ValueOf, Zeros;
    MoreZeros(f);
    hide AllDigits;
    OneZero(f);
    OneZero(f + "0");
  }

  lemma MoreZeros(f: string)
    ensures f + "" == f && f + "00" == f + "0" + "0"
  {
  }

  lemma OneZero(f: string)
    requires AllDigits(f)
    ensures AllDigits(f + "0") && ValueOf(f + "0") == ValueOf(f) * 10
  {
    assert (f + "0")[..|f|] == f;
  }

  lemma FractionWas(s: string) returns (f: string)
    requires ParseFraction(s).Got?
    ensures IsFraction(f, ParseFraction(s).value) && s == f + ParseFraction(s).rest
  {
    f := s[..DigitsOf(s)];
    FilledUp(f);
    hide ValueOf, DigitRun;
  }

  lemma MinuteRead(hour: nat, min: nat, rest: string)
    requires hour < 100 && min < 100
    ensures ParseClock(MinuteText(hour, min) + rest)
         == if StartsWith(rest, ':') then
              (match ParseExact2(rest[1..])
               case Fail => Fail
               case Got(sec, s3) => ParseMillis(Clock(hour, min, sec, 0), s3))
            else if StartsWith(rest, '.') then Fail
            else Got(Clock(hour, min, 0, 0), rest)
  {
    hide ParseExact2, Padded, ParseMillis;
    var s1 := Two(min) + rest;
    Exact2ReadsTwoDigits(hour, ":" + s1);
    Exact2ReadsTwoDigits(min, rest);
    assert MinuteText(hour, min) + rest == Two(hour) + (":" + s1) && (":" + s1)[1..] == s1;
  }

  lemma ClockIs(s: string, c: Clock, rest: string)
    requires IsClockText(s, c) && EndsClock(rest)
    ensures ParseClock(s + rest) == Got(c, rest)
  {
    hide ParseExact2, Padded, ParseFraction, ParseClock, MinuteText;
    if s == MinuteText(c.hour, c.min) && c.sec == 0 && c.ms == 0 {
      MinuteRead(c.hour, c.min, rest);
    } else if s == MinuteText(c.hour, c.min) + (":" + Two(c.sec)) && c.ms == 0 {
      var more := ":" + (Two(c.sec) + rest);
      assert s + rest == MinuteText(c.hour, c.min) + more && more[1..] == Two(c.sec) + rest;
      MinuteRead(c.hour, c.min, more);
      Exact2ReadsTwoDigits(c.sec, rest);
    } else {
      var f :| IsFraction(f, c.ms) && s == MinuteText(c.hour, c.min) + (":" + (Two(c.sec) + ("." + f)));
      var tail := "." + (f + rest);
      var more := ":" + (Two(c.sec) + tail);
      assert s + rest == MinuteText(c.hour, c.min) + more && more[1..] == Two(c.sec) + tail && tail[1..] == f + rest;
      MinuteRead(c.hour, c.min, more);
      Exact2ReadsTwoDigits(c.sec, tail);
      FractionIs(f, c.ms, rest);
    }
  }

  /** The hours and minutes a clock was read from. */
  lemma MinuteWas(s: string) returns (hour: nat, min: nat, rest: string)
    requires ParseClock(s).Got?
    ensures hour < 100 && min < 100 && s == MinuteText(hour, min) + rest
  {
    ClockNeeds(s);
    hide Padded, ParseExact2, ParseClock;
    Exact2Was(s);
    var s1 := ParseExact2(s).rest;
    Exact2Was(s1[1..]);
    hour, min, rest := ParseExact2(s).value, ParseExact2(s1[1..]).value, ParseExact2(s1[1..]).rest;
    assert s1 == ":" + s1[1..];
  }

  lemma ClockNeeds(s: string)
    requires ParseClock(s).Got?
    ensures ParseExact2(s).Got? && StartsWith(ParseExact2(s).rest, ':') && ParseExact2(ParseExact2(s).rest[1..]).Got?
  {
    hide ParseExact2, ParseMillis;
  }

  lemma ClockWas(s: string) returns (t: string)
    requires ParseClock(s).Got?
    ensures IsClockText(t, ParseClock(s).value) && s == t + ParseClock(s).rest
  {
    var hour, min, s2 := MinuteWas(s);
    MinuteRead(hour, min, s2);
    t := MinuteText(hour, min);
    hide ParseExact2, Padded, ParseFraction, ParseClock, MinuteText, IsFraction;
    if StartsWith(s2, ':') {
      Exact2Was(s2[1..]);
      var (sec, s3) := (ParseExact2(s2[1..]).value, ParseExact2(s2[1..]).rest);
      assert s2 == ":" + s2[1..];
      var u := SecondsWas(hour, min, sec, s3);
      assert s == MinuteText(hour, min) + (":" + (Two(sec) + s3));
      t := u;
    }
  }

  lemma SecondsWas(hour: nat, min: nat, sec: nat, s: string) returns (t: string)
    requires hour < 100 && min < 100 && sec < 100 && ParseMillis(Clock(hour, min, sec, 0), s).Got?
    ensures var p := ParseMillis(Clock(hour, min, sec, 0), s);
      IsClockText(t, p.value) && MinuteText(hour, min) + (":" + (Two(sec) + s)) == t + p.rest
  {
    hide Padded, ParseFraction, MinuteText, IsFraction;
    t := MinuteText(hour, min) + (":" + Two(sec));
    if StartsWith(s, '.') {
      var f := FractionWas(s[1..]);
      assert s == "." + s[1..];
      t := MinuteText(hour, min) + (":" + (Two(sec) + ("." + f)));
    }
  }

  // ----- zones -----

  lemma ZoneDigits(sign: char, hour: nat, min: nat)
    requires hour < 100 && min < 100
    ensures SignedZone(sign, hour, min)
         == [sign, DigitChar(hour / 10), DigitChar(hour % 10), ':', DigitChar(min / 10), DigitChar(min % 10)]
  {
    TwoDigitsExplicit(hour);
    TwoDigitsExplicit(min);
    hide Padded;
  }

  lemma ZoneIs(s: string, tz: TimeZone, rest: string)
    requires IsZoneText(s, tz) && (s == "" ==> rest == "")
    ensures ParseZoneSuffix(s + rest) == Got(tz, rest)
  {
    if s == "Z" || s == "z" {
      assert (s + rest)[1..] == rest;
    } else if s != "" {
      ZoneDigits(if tz.isPositive then '+' else '-', tz.hour, tz.min);
      hide SignedZone;
      assert (s + rest)[..6] == s && (s + rest)[6..] == rest && (s + rest)[0] == s[0];
    }
  }

  lemma ZoneWas(s: string) returns (t: string)
    requires ParseZoneSuffix(s).Got? && IsBlank(ParseZoneSuffix(s).rest) && (s == "" || !IsSpace(s[0]))
    ensures IsZoneText(t, ParseZoneSuffix(s).value) && s == t + ParseZoneSuffix(s).rest
  {
    if s == "" {
      t := "";
    } else if s[0] == 'Z' || s[0] == 'z' {
      t := [s[0]];
    } else {
      assert s[0] == '+' || s[0] == '-';
      t := s[..6];
      var tz := ParseZoneSuffix(s).value;
      ZoneDigits(s[0], tz.hour, tz.min);
      hide SignedZone;
      SameDigit(t[1], tz.hour / 10);
      SameDigit(t[2], tz.hour % 10);
      SameDigit(t[4], tz.min / 10);
      SameDigit(t[5], tz.min % 10);
    }
  }

  // ----- dates -----

  /** A date text ends where its time begins. */
  predicate StartsTime(s: string) {
    s == "" || s[0] == 'T' || s[0] == 't' || IsSpace(s[0])
  }

  predicate IsDateChar(c: char) {
    c != 'T' && c != 't' && !IsSpace(c)
  }

  lemma {:induction false} DateEndAt(date: string, time: string)
    requires StartsTime(time) && forall i :: 0 <= i < |date| ==> IsDateChar(date[i])
    ensures DateEnd(date + time) == |date|
  {
    if date == "" {
      assert date + time == time;
    } else {
      assert (date + time)[1..] == date[1..] + time;
      DateEndAt(date[1..], time);
    }
  }

  lemma CalendarIs(y: nat, a: char, mon: nat, b: char, day: nat, time: string)
    requires y <= 9999 && mon < 100 && day < 100 && IsSeparator(a) && IsSeparator(b)
    ensures ParseCalendarDate(CalendarText(y, a, mon, b, day) + time) == Got(Date(y, mon, day), time)
  {
    var s3 := [b] + (Two(day) + time);
    var s2 := Two(mon) + s3;
    FourRead(y, [a] + s2);
    Exact2ReadsTwoDigits(mon, s3);
    Exact2ReadsTwoDigits(day, time);
    hide Parse4Digits, ParseExact2, Padded;
    CalendarInOrder(y, a, mon, b, day, time);
    assert ([a] + s2)[1..] == s2 && s3[1..] == Two(day) + time;
    hide CalendarText;
  }

  lemma CalendarInOrder(y: nat, a: char, mon: nat, b: char, day: nat, time: string)
    ensures CalendarText(y, a, mon, b, day) + time == Padded(y, 4) + ([a] + (Two(mon) + ([b] + (Two(day) + time))))
  {
    hide Padded;
  }

  lemma CalendarChars(y: nat, a: char, mon: nat, b: char, day: nat)
    requires y <= 9999 && mon < 100 && day < 100 && IsSeparator(a) && IsSeparator(b)
    ensures var s := CalendarText(y, a, mon, b, day);
      |s| == 10 && AllDigits(s[..4]) && s[4] == a && IsDigit(s[5]) && forall i :: 0 <= i < |s| ==> IsDateChar(s[i])
  {
    FourLong(y);
    TwoDigitsExplicit(mon);
    TwoDigitsExplicit(day);
    var s := CalendarText(y, a, mon, b, day);
    var year := Padded(y, 4);
    hide Padded;
    assert s[..4] == year && forall i :: 0 <= i < 4 ==> s[i] == year[i];
    assert s[4..] == [a, DigitChar(mon / 10), DigitChar(mon % 10), b, DigitChar(day / 10), DigitChar(day % 10)];
    assert forall i :: 4 <= i < 10 ==> s[i] == s[4..][i - 4];
  }

  lemma FourLong(y: nat)
    requires y <= 9999
    ensures |Padded(y, 4)| == 4
  {
    hide Padded;
    var a, b, c, d := FourSplit(y);
    PaddedFour(a, b, c, d);
  }

  /** Four digits and a separator are no week date. */
  lemma CalendarIsNoWeek(s: string)
    requires |s| == 10 && AllDigits(s[..4]) && IsSeparator(s[4]) && IsDigit(s[5])
    ensures ParseIsoWeekDate(s) == None
  {
    hide ValueOf, DigitRun, ParseIsoWeekDate, ParseExact2, ParseWeekday, IsValidIsoWeekDate;
    var (digits, tail) := (s[..4], s[4..]);
    assert s == "" + (digits + tail);
    YearIs(s, "", digits, tail);
    assert tail[0] == s[4] && tail[1] == s[5];
  }

  lemma WeekChars(sign: string, digits: string, dash: string, w: char, week: nat, day: string, iso: IsoWeekDate)
    requires IsWeekPieces(sign, digits, dash, w, week, day, iso)
    ensures var s := WeekDateText(sign, digits, dash, w, week, day);
      forall i :: 0 <= i < |s| ==> IsDateChar(s[i])
  {
    TwoDigitsExplicit(week);
    hide Padded, ValueOf;
    var tail := dash + ([w] + (Two(week) + day));
    assert forall i :: 0 <= i < |tail| ==> IsDateChar(tail[i]);
    assert forall i :: 0 <= i < |digits + tail| ==> IsDateChar((digits + tail)[i]);
  }

  lemma WeekdayIs(s: string, weekday: int, dashed: bool)
    ensures ParseWeekday(s, dashed) == Some(weekday) <==> IsWeekdayText(s, weekday)
  {
  }

  lemma WeekIs(sign: string, digits: string, dash: string, w: char, week: nat, day: string, iso: IsoWeekDate)
    requires IsWeekPieces(sign, digits, dash, w, week, day, iso) && IsValidIsoWeekDate(iso)
    ensures ParseIsoWeekDate(WeekDateText(sign, digits, dash, w, week, day)) == Some(iso)
  {
    var after := [w] + (Two(week) + day);
    var tail := dash + after;
    var s := WeekDateText(sign, digits, dash, w, week, day);
    hide IsValidIsoWeekDate, ParseIsoWeekDate, ParseExact2, Padded, ValueOf, ParseWeekday;
    YearIs(s, sign, digits, tail);
    hide WeekDateText;
    WeekdayIs(day, iso.weekday, dash == "-");
    Exact2ReadsTwoDigits(week, day);
    assert (if tail[0] == '-' then tail[1..] else tail) == after && after[1..] == Two(week) + day;
    WeekAfterYear(iso.year, tail, after, iso, day);
  }

  lemma WeekAfterYear(year: int, tail: string, after: string, iso: IsoWeekDate, day: string)
    requires tail != "" && after != "" && after == (if tail[0] == '-' then tail[1..] else tail) && (after[0] == 'W' || after[0] == 'w')
    requires ParseExact2(after[1..]) == Got(iso.week, day) && ParseWeekday(day, tail[0] == '-') == Some(iso.weekday)
    requires iso.year == year && IsValidIsoWeekDate(iso)
    ensures ParseWeekOfYear(year, tail) == Some(iso)
  {
    ValidWeek(iso);
    hide IsValidIsoWeekDate, ParseExact2, ParseWeekday;
  }

  lemma ValidWeek(iso: IsoWeekDate)
    requires IsValidIsoWeekDate(iso)
    ensures iso.week >= 1
  {
    hide IsoWeeksInYear;
  }

  lemma YearIs(s: string, sign: string, digits: string, tail: string)
    requires s == sign + (digits + tail) && (sign == "" || sign == "+" || sign == "-")
    requires digits != "" && AllDigits(digits) && tail != "" && !IsDigit(tail[0])
    ensures ParseIsoWeekDate(s) == ParseWeekOfYear(if sign == "-" then -ValueOf(digits) else ValueOf(digits), tail)
  {
    hide ValueOf, ParseWeekOfYear, DigitRun;
    var t := digits + tail;
    assert IsDigit(digits[0]) && t[0] == digits[0];
    if sign == "" { assert s == t; } else { assert s[0] == sign[0] && s[1..] == t; }
    RunOfDigits(digits, tail, |t|);
    assert t[..|digits|] == digits && t[|digits|..] == tail;
  }

  /** What the week of a week date was read from. */
  lemma WeekOfYearWas(year: int, tail: string) returns (dash: string, w: char, week: nat, day: string)
    requires tail != "" && ParseWeekOfYear(year, tail).Some?
    ensures var iso := ParseWeekOfYear(year, tail).value;
      && IsValidIsoWeekDate(iso) && iso.year == year && iso.week == week && IsWeekdayText(day, iso.weekday)
      && (dash == "" || dash == "-") && (w == 'W' || w == 'w') && week < 100 && tail == dash + ([w] + (Two(week) + day))
  {
    hide IsValidIsoWeekDate, ParseExact2, Padded, ParseWeekday, IsWeekdayText;
    var iso := ParseWeekOfYear(year, tail).value;
    dash := if tail[0] == '-' then "-" else "";
    var after := if tail[0] == '-' then tail[1..] else tail;
    w := after[0];
    Exact2Was(after[1..]);
    week, day := ParseExact2(after[1..]).value, ParseExact2(after[1..]).rest;
    WeekdayIs(day, iso.weekday, tail[0] == '-');
    hide ParseWeekOfYear;
    assert tail == dash + after && after == [w] + after[1..];
  }

  lemma YearWas(s: string) returns (sign: string, digits: string, tail: string)
    requires ParseIsoWeekDate(s).Some?
    ensures (sign == "" || sign == "+" || sign == "-") && digits != "" && AllDigits(digits) && tail != "" && s == sign + (digits + tail)
    ensures ParseIsoWeekDate(s) == ParseWeekOfYear(if sign == "-" then -ValueOf(digits) else ValueOf(digits), tail)
  {
    hide ValueOf, DigitRun, ParseWeekOfYear;
    sign := if s != "" && (s[0] == '+' || s[0] == '-') then [s[0]] else "";
    var t := if sign != "" then s[1..] else s;
    var k := DigitsOf(t);
    digits, tail := t[..k], t[k..];
    hide DigitsOf;
    Cut(t, k);
    assert s == sign + t;
  }

  lemma Cut(t: string, k: nat)
    requires k <= |t|
    ensures t == t[..k] + t[k..]
  {
  }

  lemma WeekWas(s: string)
    requires ParseIsoWeekDate(s).Some?
    ensures IsWeekDateText(s, ParseIsoWeekDate(s).value)
  {
    hide IsValidIsoWeekDate, ValueOf, ParseIsoWeekDate, ParseWeekOfYear, Padded, IsWeekdayText;
    var iso := ParseIsoWeekDate(s).value;
    var sign, digits, tail := YearWas(s);
    var dash, w, week, day := WeekOfYearWas(if sign == "-" then -ValueOf(digits) else ValueOf(digits), tail);
    assert IsWeekPieces(sign, digits, dash, w, week, day, iso);
    assert s == WeekDateText(sign, digits, dash, w, week, day);
  }

  lemma DateIs(date: string, d: Date, time: string)
    requires IsDateText(date, d) && StartsTime(time)
    ensures ParseDate(date + time) == Got(d, time) && date != "" && !IsSpace(date[0])
  {
    hide ParseCalendarDate, ParseIsoWeekDate, IsoWeekDateToDate, CalendarText, WeekDateText;
    if y: nat, a, mon: nat, b, day: nat :| date == CalendarText(y, a, mon, b, day) && y <= 9999 && mon < 100 && day < 100
                                          && IsSeparator(a) && IsSeparator(b) && d == Date(y, mon, day) {
      CalendarChars(y, a, mon, b, day);
      DateEndAt(date, time);
      assert (date + time)[..|date|] == date;
      CalendarIsNoWeek(date);
      CalendarIs(y, a, mon, b, day, time);
    } else {
      var iso :| IsWeekDateText(date, iso) && IsoWeekDateToDate(iso) == Result.Ok(d);
      var sign, digits, dash, w, week: nat, day :| IsWeekPieces(sign, digits, dash, w, week, day, iso)
                                                   && date == WeekDateText(sign, digits, dash, w, week, day);
      WeekChars(sign, digits, dash, w, week, day, iso);
      WeekNotEmpty(sign, digits, dash, w, week, day);
      DateEndAt(date, time);
      assert (date + time)[..|date|] == date && (date + time)[|date|..] == time;
      WeekIs(sign, digits, dash, w, week, day, iso);
    }
  }

  lemma WeekNotEmpty(sign: string, digits: string, dash: string, w: char, week: nat, day: string)
    ensures WeekDateText(sign, digits, dash, w, week, day) != ""
  {
  }

  lemma DateWas(s: string) returns (date: string)
    requires ParseDate(s).Got?
    ensures IsDateText(date, ParseDate(s).value) && s == date + ParseDate(s).rest
  {
    hide IsoWeekDateToDate, CalendarText, IsWeekDateText, ParseIsoWeekDate, ParseCalendarDate, DateEnd;
    var u := s[..DateEnd(s)];
    if ParseIsoWeekDate(u).Some? {
      WeekWas(u);
      date := u;
      assert s == u + s[DateEnd(s)..];
    } else {
      date := CalendarWas(s);
    }
  }

  lemma CalendarWas(s: string) returns (date: string)
    requires ParseCalendarDate(s).Got?
    ensures IsDateText(date, ParseCalendarDate(s).value) && s == date + ParseCalendarDate(s).rest
  {
    hide Parse4Digits, ParseExact2, Padded;
    FourWas(s);
    var (y, s1) := (Parse4Digits(s).value, Parse4Digits(s).rest);
    Exact2Was(s1[1..]);
    var (mon, s2) := (ParseExact2(s1[1..]).value, ParseExact2(s1[1..]).rest);
    Exact2Was(s2[1..]);
    var day := ParseExact2(s2[1..]).value;
    assert s1 == [s1[0]] + s1[1..] && s2 == [s2[0]] + s2[1..];
    date := CalendarText(y, s1[0], mon, s2[0], day);
  }

  // ----- whole texts -----

  lemma ZoneStart(zone: string, tz: TimeZone)
    requires IsZoneText(zone, tz) && zone != ""
    ensures !IsSpace(zone[0]) && zone[0] != 'T' && EndsClock(zone)
  {
    if zone != "Z" && zone != "z" { ZoneDigits(if tz.isPositive then '+' else '-', tz.hour, tz.min); }
    hide SignedZone;
  }

  lemma {:induction false} AllBlank(s: string)
    requires IsBlank(s)
    ensures SkipSpaces(s) == ""
  {
    SkipBlank(s, "");
    assert s + "" == s;
  }

  /** Blanks, a zone and blanks again. */
  lemma ZonePartIs(gap: string, zone: string, trail: string, tz: TimeZone)
    requires IsBlank(gap) && IsZoneText(zone, tz) && IsBlank(trail)
    ensures EndsClock(gap + (zone + trail))
    ensures var p := ParseZoneSuffix(SkipSpaces(gap + (zone + trail)));
      p.Got? && p.value == tz && SkipSpaces(p.rest) == ""
  {
    hide IsZoneText, ParseZoneSuffix;
    if zone == "" {
      assert zone + trail == trail;
      assert IsBlank(gap + trail);
      AllBlank(gap + trail);
      ZoneIs("", tz, "");
      assert "" + "" == "";
      assert SkipSpaces("") == "";
    } else {
      ZoneStart(zone, tz);
      assert (zone + trail)[0] == zone[0];
      SkipBlank(gap, zone + trail);
      ZoneIs(zone, tz, trail);
      AllBlank(trail);
      assert gap != "" ==> (gap + (zone + trail))[0] == gap[0];
      assert gap == "" ==> gap + (zone + trail) == zone + trail;
    }
  }

  lemma ClockStart(s: string, c: Clock)
    requires IsClockText(s, c)
    ensures s != "" && IsDigit(s[0])
  {
    TwoDigitsExplicit(c.hour);
    hide Padded, IsFraction;
    var m := MinuteText(c.hour, c.min);
    assert m[0] == DigitChar(c.hour / 10);
  }

  lemma SeparatorIs(sep: string, clock: string)
    requires sep == "T" || sep == "t" || (sep != "" && IsBlank(sep))
    requires clock != "" && IsDigit(clock[0])
    ensures ParseSeparator(sep + clock) == Got((), clock)
  {
    if sep == "T" || sep == "t" {
      assert (sep + clock)[1..] == clock;
    } else {
      assert IsSpace((sep + clock)[0]);
      SkipBlank(sep, clock);
    }
  }

  lemma TimePartIs(p: Pieces, dt: DateTime, tz: TimeZone)
    requires Means(p, dt, tz) && p.clock != ""
    ensures ParseTimePart(DateOf(dt), TimeOf(p)) == Some((dt, tz))
    ensures StartsTime(TimeOf(p)) && SkipSpaces(TimeOf(p)) != ""
  {
    hide IsDateText, IsClockText, IsZoneText, IsValidDateTime, ParseClock, ParseZoneSuffix, ParseSeparator;
    var c := Clock(dt.hour, dt.min, dt.sec, dt.ms);
    var zonePart := p.gap + (p.zone + p.trail);
    ClockStart(p.clock, c);
    assert (p.clock + zonePart)[0] == p.clock[0];
    SeparatorIs(p.sep, p.clock + zonePart);
    ZonePartIs(p.gap, p.zone, p.trail, tz);
    ClockIs(p.clock, c, zonePart);
    TimeStarts(p.sep, p.clock + zonePart);
  }

  lemma TimeStarts(sep: string, clock: string)
    requires sep == "T" || sep == "t" || (sep != "" && IsBlank(sep))
    requires clock != "" && IsDigit(clock[0])
    ensures StartsTime(sep + clock) && SkipSpaces(sep + clock) != ""
  {
    assert (sep + clock)[0] == sep[0];
    if IsBlank(sep) { SkipBlank(sep, clock); }
  }

  /** Every text made of such pieces is accepted, with that meaning. */
  lemma Accepted(p: Pieces, dt: DateTime, tz: TimeZone)
    requires Means(p, dt, tz)
    ensures ParseIso8601(TextOf(p)) == Some((dt, tz))
  {
    hide IsDateText, IsClockText, IsZoneText, IsValidDate, IsValidTime, ParseDate, ParseTimePart;
    assert IsValidDate(dt.year, dt.mon, dt.day);
    if p.clock == "" {
      AllBlank(p.trail);
      assert TimeOf(p) == p.trail;
      ZeroMillis(dt);
    } else {
      TimePartIs(p, dt, tz);
    }
    DateIs(p.date, DateOf(dt), TimeOf(p));
    assert (p.date + TimeOf(p))[0] == p.date[0];
    SkipBlank(p.lead, p.date + TimeOf(p));
  }

  lemma ZeroMillis(dt: DateTime)
    requires dt.hour == dt.min == dt.sec == dt.ms == 0
    ensures dt == DateTime(dt.year, dt.mon, dt.day, 0, 0, 0, 0)
  {
  }

  lemma {:induction false} BlankWas(s: string)
    requires SkipSpaces(s) == ""
    ensures IsBlank(s)
  {
    var b := SkippedBlank(s);
    assert b + "" == b;
  }

  lemma SeparatorWas(s: string) returns (sep: string)
    requires ParseSeparator(s).Got?
    ensures sep == "T" || sep == "t" || (sep != "" && IsBlank(sep))
    ensures s == sep + ParseSeparator(s).rest
  {
    if s[0] == 'T' || s[0] == 't' {
      sep := [s[0]];
    } else {
      sep := SkippedBlank(s);
      assert sep != "";
    }
  }

  lemma TimePartWas(d: Date, s: string) returns (sep: string, clock: string, gap: string, zone: string, trail: string)
    requires ParseTimePart(d, s).Some?
    ensures var (dt, tz) := ParseTimePart(d, s).value;
      && DateOf(dt) == d && IsValidDateTime(dt) && (sep == "T" || sep == "t" || (sep != "" && IsBlank(sep)))
      && clock != "" && IsClockText(clock, Clock(dt.hour, dt.min, dt.sec, dt.ms)) && IsZoneText(zone, tz)
      && IsBlank(gap) && IsBlank(trail) && s == sep + (clock + (gap + (zone + trail)))
  {
    hide IsClockText, IsZoneText, IsValidDateTime, ParseClock, ParseZoneSuffix, ParseSeparator;
    sep := SeparatorWas(s);
    var s1 := ParseSeparator(s).rest;
    clock := ClockWas(s1);
    ClockStart(clock, ParseClock(s1).value);
    var s2 := ParseClock(s1).rest;
    gap := SkippedBlank(s2);
    trail := ParseZoneSuffix(SkipSpaces(s2)).rest;
    BlankWas(trail);
    zone := ZoneWas(SkipSpaces(s2));
  }

  /** And nothing else is accepted. */
  lemma OnlyAccepted(s: string) returns (p: Pieces)
    requires ParseIso8601(s).Some?
    ensures s == TextOf(p) && Means(p, ParseIso8601(s).value.0, ParseIso8601(s).value.1)
  {
    hide IsDateText, IsClockText, IsZoneText, IsValidDateTime, ParseDate, ParseTimePart;
    var lead := SkippedBlank(s);
    var s1 := SkipSpaces(s);
    var date := DateWas(s1);
    var (d, rest) := (ParseDate(s1).value, ParseDate(s1).rest);
    if SkipSpaces(rest) == "" {
      BlankWas(rest);
      p := Pieces(lead, date, "", "", "", "", rest);
      assert TimeOf(p) == rest;
    } else {
      var sep, clock, gap, zone, trail := TimePartWas(d, rest);
      p := Pieces(lead, date, sep, clock, gap, zone, trail);
    }
  }

  /** The accepted texts and their meanings, exactly. */
  lemma ParseIso8601Exactly(s: string, dt: DateTime, tz: TimeZone)
    ensures ParseIso8601(s) == Some((dt, tz)) <==> exists p :: s == TextOf(p) && Means(p, dt, tz)
  {
    hide Means, ParseIso8601, TextOf;
    if ParseIso8601(s) == Some((dt, tz)) {
      var p := OnlyAccepted(s);
    } else if p :| s == TextOf(p) && Means(p, dt, tz) {
      Accepted(p, dt, tz);
    }
  }

  // ----- what it comes to -----

  /** Zeros at the end of a fraction make no difference. */
  lemma TrailingZeros(d: string, rest: string)
    requires 1 <= |d| <= 3 && AllDigits(d) && !StartsWithDigit(rest)
    ensures ParseFraction(d + rest) == ParseFraction(d + Zeros(3 - |d|) + rest)
  {
    var full := d + Zeros(3 - |d|);
    FilledUp(d);
    var ms := ValueOf(full);
    assert Zeros(0) == "" && full + "" == full;
    hide ValueOf, ParseFraction, Zeros;
    FractionIs(d, ms, rest);
    FractionIs(full, ms, rest);
  }

  /** Any accepted text of a moment is read like the one that is printed for it. */
  lemma LikePrinted(p: Pieces, dt: DateTime, offset: int)
    requires -86400 < offset < 86400 && 1000 <= dt.year <= 9999 && Means(p, dt, ToTimeZone(offset))
    ensures IsClock(dt) && ParseIso8601(TextOf(p)) == ParseIso8601(IsoText(dt, offset))
  {
    hide IsDateText, IsClockText, IsZoneText, ToTimeZone, ParseIso8601, TextOf, IsoText;
    Accepted(p, dt, ToTimeZone(offset));
    IsValidDateExactly(dt.year, dt.mon, dt.day);
    PrintedIsRead(dt, offset);
  }

  /** A signed zone is so many hours and minutes ahead of UTC, or behind it. */
  lemma SignedZoneMeans(hour: nat, min: nat, rest: string)
    requires hour <= 23 && min <= 59
    ensures var (ahead, behind) := (ParseZoneSuffix(SignedZone('+', hour, min) + rest), ParseZoneSuffix(SignedZone('-', hour, min) + rest));
      && ahead.Got? && ahead.rest == rest && OffsetOf(ahead.value) == 3600 * hour + 60 * min
      && behind.Got? && behind.rest == rest && OffsetOf(behind.value) == -(3600 * hour + 60 * min)
  {
    ZoneDigits('+', hour, min);
    ZoneDigits('-', hour, min);
    ZoneIs(SignedZone('+', hour, min), TimeZone(hour, min, true), rest);
    ZoneIs(SignedZone('-', hour, min), TimeZone(hour, min, false), rest);
    hide SignedZone, ParseZoneSuffix;
  }

  /** The days and the clock of a local date-time in milliseconds. */
  function CalendarMs(dt: DateTime): int
    requires IsDate(DateOf(dt))
  {
    (DayNumber(DateOf(dt)) * SEC_PER_DAY + 3600 * dt.hour + 60 * dt.min + dt.sec) * MS_PER_SEC + dt.ms
  }

  /** `dt_to_timestamp_ms` counts them exactly, with any number of milliseconds, or reports an error where the count does
      not fit or is one of the lowest. */
  lemma CalendarMsCounted(dt: DateTime)
    requires IsDate(DateOf(dt)) && MIN_YEAR <= dt.year <= MAX_YEAR && IsValidTime(dt.hour, dt.min, dt.sec, 0)
    ensures ToTimestampMs(dt) == Some(if LEAST_MS <= CalendarMs(dt) < TWO_63 then CalendarMs(dt) else ERROR_TIMESTAMP)
  {
    hide DayNumber, ToTimestampUnchecked, IsValidDate;
    IsValidDateExactly(dt.year, dt.mon, dt.day);
    ToTimestampCorrect(dt);
    var sec := ToTimestampUnchecked(dt) + dt.ms / MS_PER_SEC;
    var ms := dt.ms % MS_PER_SEC;
    assert CalendarMs(dt) == sec * MS_PER_SEC + ms;
    OverflowTest(sec, ms);
  }

  lemma OverflowTest(sec: int, ms: int)
    requires 0 <= ms < MS_PER_SEC
    ensures (sec > 0 && sec > TruncDiv(TWO_63 - 1 - ms, MS_PER_SEC)) || (sec < 0 && sec < TruncDiv(-TWO_63, MS_PER_SEC))
        <==> !(LEAST_MS <= sec * MS_PER_SEC + ms < TWO_63)
  {
  }

  /** The instant of a calendar date's text: its local time less the offset. */
  lemma InstantOfText(p: Pieces, dt: DateTime, tz: TimeZone)
    requires Means(p, dt, tz) && IsDate(DateOf(dt)) && IsValidTzOffset(OffsetOf(tz)) && LEAST_MS <= CalendarMs(dt) < TWO_63
    ensures TryParse(TextOf(p)) == Some(Moment(CalendarMs(dt) - OffsetOf(tz) * MS_PER_SEC, OffsetOf(tz)))
  {
    hide IsDateText, IsClockText, IsZoneText, ParseIso8601, TextOf, ToTimestampMs, IsValidTzOffset, CalendarMs, IsDate,
      IsValidDateTime, OffsetOf;
    Accepted(p, dt, tz);
    ValidWhenMeant(p, dt, tz);
    CalendarMsCounted(dt);
  }

  lemma ValidWhenMeant(p: Pieces, dt: DateTime, tz: TimeZone)
    requires Means(p, dt, tz) && IsDate(DateOf(dt))
    ensures MIN_YEAR <= dt.year <= MAX_YEAR && IsValidTime(dt.hour, dt.min, dt.sec, 0)
  {
    hide IsDateText, IsClockText, IsZoneText, IsValidDate;
    IsValidDateExactly(dt.year, dt.mon, dt.day);
  }

  /** The supported offsets are the whole minutes from UTC-12:00 to UTC+14:00. */
  lemma SupportedOffsets(offset: int)
    ensures IsValidTzOffset(offset) <==> offset % 60 == 0 && -12 * 60 <= offset / 60 <= 14 * 60
  {
    FloorForms(offset, 60);
  }

  /** A moment is printed whole exactly if its year has at most six characters; of a longer text the buffer keeps 31. */
  lemma LongTextsAreCut(dt: DateTime, offset: int)
    requires IsClock(dt) && -86400 < offset < 86400
    ensures |IsoText(dt, offset)| == |Decimal(dt.year)| + 25
    ensures |Decimal(dt.year)| <= 6 ==> Buffered(IsoText(dt, offset)) == IsoText(dt, offset)
    ensures |Decimal(dt.year)| > 6 ==> Buffered(IsoText(dt, offset)) + IsoText(dt, offset)[31..] == IsoText(dt, offset)
  {
    OffsetRead(offset);
    ThreeDigits(dt.ms);
    TwoDigitsExplicit(dt.mon);
    TwoDigitsExplicit(dt.day);
    TwoDigitsExplicit(dt.hour);
    TwoDigitsExplicit(dt.min);
    TwoDigitsExplicit(dt.sec);
    hide Decimal, Padded, OffsetText;
  }
}
