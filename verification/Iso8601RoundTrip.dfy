/** `DateTime` values survive ISO 8601 text exactly from local year 1000 to 9999, with a supported offset. */
module Iso8601RoundTrip {
  import opened Words
  import opened Calendar
  import opened FastDate
  import opened Timestamps
  import opened Text
  import opened Formats
  import opened FormatTheorem
  import opened Iso8601

  // ----- digits -----

  lemma {:induction false} DigitsAtLeast(n: nat, k: nat)
    requires n >= Pow10(k)
    ensures |Digits(n)| > k
  {
    if k > 0 { DigitsAtLeast(n / 10, k - 1); }
  }

  lemma FourDigits(n: nat)
    requires 1000 <= n <= 9999
    ensures Digits(n) == [DigitChar(n / 1000), DigitChar(n / 100 % 10), DigitChar(n / 10 % 10), DigitChar(n % 10)]
  {
    var (a, b) := (n / 10, n / 100);
    assert a / 10 == b && b / 10 == n / 1000;
    assert Digits(n / 1000) == [DigitChar(n / 1000)];
    assert Digits(b) == Digits(n / 1000) + [DigitChar(b % 10)];
    assert Digits(a) == Digits(b) + [DigitChar(a % 10)];
  }

  lemma YearRead(y: int, rest: string)
    requires 1000 <= y <= 9999
    ensures Parse4Digits(Decimal(y) + rest) == Got(y, rest) && |Decimal(y)| == 4
  {
    FourDigits(y);
    var s := Decimal(y) + rest;
    assert s[0] == DigitChar(y / 1000) && s[1] == DigitChar(y / 100 % 10) && s[2] == DigitChar(y / 10 % 10) && s[3] == DigitChar(y % 10);
    assert s[4..] == rest;
  }

  lemma ThreeDigits(n: nat)
    requires n < 1000
    ensures |Padded(n, 3)| == 3
  {
    assert Pow10(3) == 1000;
    DigitsLength(n, 3);
  }

  /** Three digits of milliseconds, then a sign. */
  lemma FractionRead(ms: nat, rest: string)
    requires ms < 1000 && rest != "" && !IsDigit(rest[0])
    ensures ParseFraction(Padded(ms, 3) + rest) == Got(ms, rest)
  {
    ThreeDigits(ms);
    ValueOfPadded(ms, 3);
    var d := Padded(ms, 3);
    RunOfDigits(d, rest, |d + rest|);
    hide Padded, ValueOf;
    assert (d + rest)[..3] == d && (d + rest)[3..] == rest;
  }

  // ----- the date part -----

  lemma {:induction false} DateEndIs(s: string, k: nat)
    requires k < |s| && s[k] == 'T' && forall i :: 0 <= i < k ==> s[i] != 'T' && s[i] != 't' && !IsSpace(s[i])
    ensures DateEnd(s) == k
  {
    if k > 0 { DateEndIs(s[1..], k - 1); }
  }

  lemma {:induction false} DateEndBeyond(s: string, k: nat)
    requires k <= |s| && forall i :: 0 <= i < k ==> s[i] != 'T' && s[i] != 't' && !IsSpace(s[i])
    ensures DateEnd(s) >= k
  {
    if k > 0 { DateEndBeyond(s[1..], k - 1); }
  }

  /** Digits, a dash and another digit are no week date. */
  lemma NoWeekDate(s: string, t: string, k: nat)
    requires t == if s != "" && (s[0] == '+' || s[0] == '-') then s[1..] else s
    requires 0 < k && k + 1 < |t| && AllDigits(t[..k]) && t[k] == '-' && IsDigit(t[k + 1])
    ensures ParseIsoWeekDate(s) == None
  {
    RunOfDigits(t[..k], t[k..], |t|);
    assert t == t[..k] + t[k..];
    assert DigitsOf(t) == k;
  }

  /** An optional minus sign, `k` digits, a dash and two more digits. */
  predicate HasDateShape(s: string, o: nat, k: nat) {
    && o <= 1 && (o == 1 ==> s != "" && s[0] == '-')
    && 0 < k && o + k + 2 < |s|
    && (forall i :: o <= i < o + k ==> IsDigit(s[i]))
    && s[o + k] == '-' && IsDigit(s[o + k + 1]) && IsDigit(s[o + k + 2])
  }

  /** Such a text is read as a calendar date, not as a week date. */
  lemma ShapedDate(s: string, o: nat, k: nat)
    requires HasDateShape(s, o, k)
    ensures s != "" && SkipSpaces(s) == s && ParseDate(s) == ParseCalendarDate(s)
  {
    var n := o + k + 3;
    assert forall i :: 0 <= i < n ==> s[i] != 'T' && s[i] != 't' && !IsSpace(s[i]);
    DateEndBeyond(s, n);
    ShapedPrefix(s[..DateEnd(s)], o, k);
  }

  lemma ShapedPrefix(u: string, o: nat, k: nat)
    requires HasDateShape(u, o, k)
    ensures ParseIsoWeekDate(u) == None
  {
    var t := if o == 1 then u[1..] else u;
    assert o == 0 ==> IsDigit(u[0]);
    assert forall i :: 0 <= i < k ==> t[i] == u[o + i];
    NoWeekDate(u, t, k);
  }

  lemma PrintedDate(y: int, mon: nat, more: string)
    requires mon < 100
    ensures HasDateShape(Decimal(y) + "-" + Two(mon) + more, if y < 0 then 1 else 0, |Digits(if y < 0 then -y else y)|)
  {
    TwoDigitsExplicit(mon);
    var d := Digits(if y < 0 then -y else y);
    hide Digits, Padded;
    var sign := if y < 0 then "-" else "";
    assert Decimal(y) == sign + d;
    Shaped(sign, d, DigitChar(mon / 10), DigitChar(mon % 10), more);
  }

  lemma Shaped(sign: string, d: string, a: char, b: char, more: string)
    requires (sign == "" || sign == "-") && d != "" && AllDigits(d) && IsDigit(a) && IsDigit(b)
    ensures HasDateShape(sign + d + "-" + [a, b] + more, |sign|, |d|)
  {
    var s := sign + d + "-" + [a, b] + more;
    assert forall i :: 0 <= i < |d| ==> s[|sign| + i] == d[i];
    assert s[|sign| + |d|] == '-' && s[|sign| + |d| + 1] == a && s[|sign| + |d| + 2] == b;
  }

  lemma CalendarDateRead(y: int, mon: nat, day: nat, rest: string)
    requires 1000 <= y <= 9999 && mon < 100 && day < 100
    ensures ParseCalendarDate(Decimal(y) + ("-" + (Two(mon) + ("-" + (Two(day) + rest))))) == Got(Date(y, mon, day), rest)
  {
    var s3 := "-" + (Two(day) + rest);
    var s2 := Two(mon) + s3;
    YearRead(y, "-" + s2);
    Exact2ReadsTwoDigits(mon, s3);
    Exact2ReadsTwoDigits(day, rest);
    hide Parse4Digits, ParseExact2, Decimal, Padded;
    assert ("-" + s2)[1..] == s2 && s3[1..] == Two(day) + rest;
  }

  /** A negative year, or one without exactly four digits, is refused. */
  lemma OtherYearsRefused(s: string, o: nat, k: nat)
    requires HasDateShape(s, o, k) && (o == 1 || k != 4)
    ensures ParseIso8601(s) == None
  {
    ShapedDate(s, o, k);
    hide ParseDate, IsValidDate;
    if o == 0 && k > 4 {
      assert IsDigit(s[4..][0]);
    } else {
      assert Parse4Digits(s) == Fail;
    }
  }

  // ----- the time part -----

  lemma MillisRead(c: Clock, ms: nat, rest: string)
    requires ms < 1000 && rest != "" && !IsDigit(rest[0])
    ensures ParseMillis(c, "." + (Padded(ms, 3) + rest)) == Got(c.(ms := ms), rest)
  {
    FractionRead(ms, rest);
    hide ParseFraction, Padded;
    assert ("." + (Padded(ms, 3) + rest))[1..] == Padded(ms, 3) + rest;
  }

  lemma ClockParts(s: string, hour: int, s1: string, min: int, s2: string, sec: int, s3: string)
    requires ParseExact2(s) == Got(hour, ":" + s1) && ParseExact2(s1) == Got(min, ":" + s2) && ParseExact2(s2) == Got(sec, s3)
    ensures ParseClock(s) == ParseMillis(Clock(hour, min, sec, 0), s3)
  {
    hide ParseExact2, ParseMillis;
    assert (":" + s1)[1..] == s1 && (":" + s2)[1..] == s2;
  }

  lemma ClockRead(dt: DateTime, rest: string)
    requires IsValidTime(dt.hour, dt.min, dt.sec, dt.ms) && rest != "" && !IsDigit(rest[0])
    ensures ParseClock(Two(dt.hour) + (":" + (Two(dt.min) + (":" + (Two(dt.sec) + ("." + (Padded(dt.ms, 3) + rest)))))))
         == Got(Clock(dt.hour, dt.min, dt.sec, dt.ms), rest)
  {
    hide ParseExact2, ParseMillis, Padded, ParseClock;
    var s4 := "." + (Padded(dt.ms, 3) + rest);
    var s3 := Two(dt.sec) + s4;
    var s2 := Two(dt.min) + (":" + s3);
    Exact2ReadsTwoDigits(dt.hour, ":" + s2);
    Exact2ReadsTwoDigits(dt.min, ":" + s3);
    Exact2ReadsTwoDigits(dt.sec, s4);
    MillisRead(Clock(dt.hour, dt.min, dt.sec, 0), dt.ms, rest);
    ClockParts(Two(dt.hour) + (":" + s2), dt.hour, s2, dt.min, s3, dt.sec, s4);
  }

  lemma OffsetRead(offset: int)
    requires -86400 < offset < 86400
    ensures var s := OffsetText(offset);
      |s| == 6 && (s[0] == '+' || s[0] == '-') && SkipSpaces(s) == s
      && ParseZoneSuffix(s) == Got(ToTimeZone(offset), "")
  {
    var tz := ToTimeZone(offset);
    TimeZoneKeepsMinutes(offset);
    TwoDigitsExplicit(tz.hour);
    TwoDigitsExplicit(tz.min);
    var s := OffsetText(offset);
    hide Padded, ToTimeZone;
    assert s == [if tz.isPositive then '+' else '-', DigitChar(tz.hour / 10), DigitChar(tz.hour % 10), ':',
                 DigitChar(tz.min / 10), DigitChar(tz.min % 10)];
    assert s[..6] == s && s[6..] == "";
  }

  /** The whole text, grouped the way it is read. */
  lemma TextInOrder(dt: DateTime, offset: int)
    requires IsClock(dt)
    ensures IsoText(dt, offset)
         == Decimal(dt.year) + ("-" + (Two(dt.mon) + ("-" + (Two(dt.day) + ("T" + (Two(dt.hour) + (":" + (Two(dt.min) + (":"
            + (Two(dt.sec) + ("." + (Padded(dt.ms, 3) + OffsetText(offset)))))))))))))
    ensures IsoText(dt, offset) == Decimal(dt.year) + "-" + Two(dt.mon) + ("-" + Two(dt.day) + "T" + ClockText(dt) + OffsetText(offset))
  {
    hide Decimal, Padded, OffsetText;
  }

  lemma TimePartRead(d: Date, dt: DateTime, offset: int)
    requires IsValidTime(dt.hour, dt.min, dt.sec, dt.ms) && -86400 < offset < 86400
    requires d == DateOf(dt)
    ensures var s := "T" + (Two(dt.hour) + (":" + (Two(dt.min) + (":" + (Two(dt.sec) + ("." + (Padded(dt.ms, 3) + OffsetText(offset))))))));
      s != "" && SkipSpaces(s) == s && ParseTimePart(d, s) == Checked(dt, ToTimeZone(offset))
  {
    hide Padded, ParseClock, ParseZoneSuffix, Checked, OffsetText, ToTimeZone;
    OffsetRead(offset);
    ClockRead(dt, OffsetText(offset));
    var clock := Two(dt.hour) + (":" + (Two(dt.min) + (":" + (Two(dt.sec) + ("." + (Padded(dt.ms, 3) + OffsetText(offset)))))));
    assert ("T" + clock)[1..] == clock;
    assert SkipSpaces("") == "";
  }

  lemma PrintedIsRead(dt: DateTime, offset: int)
    requires IsClock(dt) && IsValidDateTime(dt) && 1000 <= dt.year <= 9999 && -86400 < offset < 86400
    ensures ParseIso8601(IsoText(dt, offset)) == Some((dt, ToTimeZone(offset)))
  {
    hide Padded, Decimal, OffsetText, ParseDate, ParseCalendarDate, ParseTimePart, HasDateShape, ToTimeZone, IsValidDate, Digits, IsoText;
    TextInOrder(dt, offset);
    PrintedDate(dt.year, dt.mon, "-" + Two(dt.day) + "T" + ClockText(dt) + OffsetText(offset));
    ShapedDate(IsoText(dt, offset), 0, |Digits(dt.year)|);
    var time := "T" + (Two(dt.hour) + (":" + (Two(dt.min) + (":" + (Two(dt.sec) + ("." + (Padded(dt.ms, 3) + OffsetText(offset))))))));
    CalendarDateRead(dt.year, dt.mon, dt.day, time);
    TimePartRead(DateOf(dt), dt, offset);
  }

  // ----- from moments to moments -----

  lemma LocalClock(m: Moment)
    requires IsTimestamp(LocalMs(m))
    ensures var dt := ToDateTimeMs(LocalMs(m));
      IsClock(dt) && -YEAR_LIMIT <= dt.year <= YEAR_LIMIT && (dt.year <= MAX_YEAR ==> IsValidDateTime(dt))
  {
    hide ToDateTime, IsValidDate;
    TimestampFields(FloorDiv(LocalMs(m), MS_PER_SEC));
  }

  lemma MsIgnored(dt: DateTime, ms: int)
    requires 1 <= dt.mon <= 12 && dt.day <= 31
    ensures ToTimestampUnchecked(dt.(ms := ms)) == ToTimestampUnchecked(dt)
  {
    hide DaysFromDate;
  }

  /** The least millisecond count whose seconds, rounded down, still pass the overflow test. */
  const LEAST_MS: int := -9223372036854775000

  /** Counts of milliseconds stay far below the greatest valid year. */
  lemma YearOfSeconds(sec: int)
    requires IsTimestamp(sec * MS_PER_SEC) || IsTimestamp((sec + 1) * MS_PER_SEC)
    ensures IsTimestamp(sec) && ToDateTime(sec).year <= MAX_YEAR
  {
    hide ToDateTime, DayByDay, JanuaryFirst;
    ToDateTimeCorrect(sec);
    var y := ToDateTime(sec).year;
    YearOfDay(sec / SEC_PER_DAY, y);
    if y > MAX_YEAR {
      JanuaryFirstGrows(MAX_YEAR, y);
      assert JanuaryFirst(MAX_YEAR) > 1_000_000_000_000 by { LateJanuary(); }
    }
  }

  lemma LateJanuary()
    ensures JanuaryFirst(MAX_YEAR) > 1_000_000_000_000
  {
  }

  /** Milliseconds survive the date-time structure, except below `LEAST_MS`, where the overflow test gives up. */
  lemma BackToMs(ms: int)
    requires IsTimestamp(ms)
    ensures ToTimestampMs(ToDateTimeMs(ms)) == Some(if ms >= LEAST_MS then ms else ERROR_TIMESTAMP)
  {
    hide ToDateTime, ToTimestampUnchecked, IsValidDate;
    var sec := FloorDiv(ms, MS_PER_SEC);
    var dt := ToDateTime(sec);
    YearOfSeconds(sec);
    TimestampFields(sec);
    TimestampRoundTrip(sec);
    MsIgnored(dt, FloorMod(ms, MS_PER_SEC));
    assert ToDateTimeMs(ms).(ms := 0) == dt;
  }

  lemma FourDigitYears(d: Date)
    requires IsDate(d) && 0 <= d.year <= 9999
    ensures -1_000_000 <= DayNumber(d) <= 3_000_000
  {
  }

  lemma FourDigitSeconds(sec: int)
    requires IsTimestamp(sec) && 0 <= ToDateTime(sec).year <= 9999
    ensures -86_400_000_000 <= sec <= 259_200_100_000
  {
    hide ToDateTime, DayByDay, DayNumber, IsDate;
    ToDateTimeCorrect(sec);
    DaysOfTimestamp(sec);
    DayNumberOfWalk(sec / SEC_PER_DAY);
    FourDigitYears(DateOf(ToDateTime(sec)));
  }

  lemma FourDigitBack(ms: int)
    requires IsTimestamp(ms) && 0 <= ToDateTimeMs(ms).year <= 9999
    ensures ToTimestampMs(ToDateTimeMs(ms)) == Some(ms)
  {
    hide ToDateTime, ToTimestampMs;
    FourDigitSeconds(FloorDiv(ms, MS_PER_SEC));
    BackToMs(ms);
  }

  lemma TextLength(dt: DateTime, offset: int)
    requires IsClock(dt) && 1000 <= dt.year <= 9999 && -86400 < offset < 86400
    ensures |IsoText(dt, offset)| == 29
  {
    OffsetRead(offset);
    YearRead(dt.year, "");
    ThreeDigits(dt.ms);
    TwoDigitsExplicit(dt.mon);
    TwoDigitsExplicit(dt.day);
    TwoDigitsExplicit(dt.hour);
    TwoDigitsExplicit(dt.min);
    TwoDigitsExplicit(dt.sec);
    hide Decimal, Padded, OffsetText;
  }

  lemma OtherLength(y: int)
    requires !(1000 <= y <= 9999) && -YEAR_LIMIT <= y <= YEAR_LIMIT
    ensures var k := |Digits(if y < 0 then -y else y)|; k <= 17 && (y < 0 || k != 4)
  {
    SeventeenDigits(if y < 0 then -y else y);
    assert Pow10(3) == 1000;
    if 0 <= y < 1000 {
      DigitsLength(y, 3);
    } else if y >= 10000 {
      assert Pow10(4) == 10 * Pow10(3);
      DigitsAtLeast(y, 4);
    }
  }

  lemma BufferedShape(s: string, o: nat, k: nat)
    requires HasDateShape(s, o, k) && o + k + 2 < 31
    ensures HasDateShape(Buffered(s), o, k)
  {
  }

  lemma OtherTextRefused(dt: DateTime, offset: int)
    requires IsClock(dt) && !(1000 <= dt.year <= 9999) && -YEAR_LIMIT <= dt.year <= YEAR_LIMIT
    ensures ParseIso8601(Buffered(IsoText(dt, offset))) == None
  {
    OtherLength(dt.year);
    hide Padded, Decimal, OffsetText, Digits, IsoText, ParseIso8601, HasDateShape, Buffered;
    TextInOrder(dt, offset);
    PrintedDate(dt.year, dt.mon, "-" + Two(dt.day) + "T" + ClockText(dt) + OffsetText(offset));
    var o := if dt.year < 0 then 1 else 0;
    var k := |Digits(if dt.year < 0 then -dt.year else dt.year)|;
    BufferedShape(IsoText(dt, offset), o, k);
    OtherYearsRefused(Buffered(IsoText(dt, offset)), o, k);
  }

  /** Parsing the ISO 8601 text of a moment gives the moment back, the same instant with the same offset, exactly when its
      local year has four digits without a leading zero and its offset is a supported one. */
  lemma ParseOfIsoText(m: Moment)
    requires IsTimestamp(m.utcMs) && IsTimestamp(LocalMs(m))
    ensures IsClock(ToDateTimeMs(LocalMs(m)))
    ensures TryParse(ToIso8601(m)) == Some(m) <==> 1000 <= ToDateTimeMs(LocalMs(m)).year <= 9999 && IsValidTzOffset(m.offset)
  {
    hide ToDateTimeMs, IsoText, ParseIso8601, ToTimestampMs, IsValidDateTime, ToTimeZone, OffsetOf, TruncMod, IsClock;
    LocalClock(m);
    var dt := ToDateTimeMs(LocalMs(m));
    if 1000 <= dt.year <= 9999 {
      if IsValidTzOffset(m.offset) {
        PrintedIsRead(dt, m.offset);
        TextLength(dt, m.offset);
        FourDigitBack(LocalMs(m));
        TimeZoneKeepsMinutes(m.offset);
      }
    } else {
      OtherTextRefused(dt, m.offset);
    }
  }
}
