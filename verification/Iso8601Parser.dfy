/** `parse_iso8601` and its helpers with their cursor, proved against the grammar. */
module Iso8601ParserCode {
  import opened Calendar
  import opened Timestamps
  import opened IsoWeek
  import opened Text
  import opened Formats
  import opened Iso8601

  // ----- parse_iso_week_date, over a buffer with a cursor -----

  method ReadAllDigits(input: string, p: nat) returns (value: int, q: nat)
    requires p <= |input|
    ensures var k := DigitsOf(input[p..]);
      q == p + k && value == ValueOf(input[p..][..k])
  {
    q, value := p, 0;
    ghost var t := input[p..];
    EmptyValue();
    assert t[..0] == "";
    while q < |input| && IsDigit(input[q])
      invariant p <= q <= |input| && AllDigits(t[..q - p]) && value == ValueOf(t[..q - p])
    {
      NextDigit(t, q - p);
      value := value * 10 + DigitValue(input[q]);
      q := q + 1;
    }
    RunToEnd(t, q - p);
  }

  method ReadWeekNumber(input: string, p: nat) returns (ok: bool, week: int, q: nat)
    requires p <= |input|
    ensures match ParseExact2(input[p..])
            case Fail => !ok
            case Got(v, rest) => ok && week == v && q <= |input| && input[q..] == rest
  {
    q, week := p, 0;
    for i := 0 to 2
      invariant q == p + i && q <= |input|
      invariant i == 0 ==> week == 0
      invariant i == 1 ==> IsDigit(input[p]) && week == DigitValue(input[p])
      invariant i == 2 ==> IsDigit(input[p]) && IsDigit(input[p + 1]) && week == DigitValue(input[p]) * 10 + DigitValue(input[p + 1])
    {
      if q >= |input| || !IsDigit(input[q]) {
        return false, week, q;
      }
      week := week * 10 + DigitValue(input[q]);
      q := q + 1;
    }
    ok := true;
  }

  method ReadWeekday(input: string, p: nat, dashed: bool) returns (ok: bool, weekday: int)
    requires p <= |input|
    ensures ParseWeekday(input[p..], dashed) == if ok then Some(weekday) else None
  {
    ghost var s := input[p..];
    var q := p;
    var hasWeekday := false;
    weekday := 0;
    if q < |input| {
      if (input[q] == '-' && dashed) || (!dashed && !IsDigit(input[q])) {
        if input[q] == '-' { q := q + 1; }
        if q >= |input| {
          return false, 0;
        }
        if !IsDigit(input[q]) {
          return false, 0;
        }
        weekday := DigitValue(input[q]);
        q := q + 1;
        hasWeekday := true;
      } else if IsDigit(input[q]) {
        weekday := DigitValue(input[q]);
        q := q + 1;
        hasWeekday := true;
      }
    }
    if !hasWeekday { weekday := 1; }
    ok := q == |input|;
  }

  method ReadIsoWeekDate(input: string) returns (ok: bool, iso: IsoWeekDate)
    ensures ParseIsoWeekDate(input) == if ok then Some(iso) else None
  {
    hide ParseExact2, IsValidIsoWeekDate, ValueOf, ParseWeekday, DigitsOf;
    iso := IsoWeekDate(0, 0, 0);
    var p := 0;
    var negative := false;
    if p < |input| && (input[p] == '+' || input[p] == '-') {
      negative := input[p] == '-';
      p := p + 1;
    }
    ghost var t := input[p..];
    assert p == 0 ==> t == input;
    var value, q := ReadAllDigits(input, p);
    if q == p {
      return false, iso;
    }
    iso := iso.(year := if negative then -value else value);
    if q >= |input| {
      return false, iso;
    }
    assert t[q - p..] == input[q..];
    ok, iso := ReadWeekOfYear(input, q, iso.year);
  }

  method ReadWeekOfYear(input: string, p: nat, year: int) returns (ok: bool, iso: IsoWeekDate)
    requires p < |input|
    ensures ParseWeekOfYear(year, input[p..]) == if ok then Some(iso) else None
  {
    hide ParseExact2, IsValidIsoWeekDate, ParseWeekday;
    iso := IsoWeekDate(year, 0, 0);
    ghost var s := input[p..];
    var q := p;
    var dashed := input[q] == '-';
    if dashed {
      q := q + 1;
      if q >= |input| {
        return false, iso;
      }
    }
    ghost var w := if dashed then s[1..] else s;
    assert input[q..] == w;
    if input[q] != 'W' && input[q] != 'w' {
      return false, iso;
    }
    q := q + 1;
    assert input[q..] == w[1..];
    var week;
    ok, week, q := ReadWeekNumber(input, q);
    if !ok {
      return false, iso;
    }
    if week == 0 {
      return false, iso;
    }
    var weekday;
    ok, weekday := ReadWeekday(input, q, dashed);
    if !ok {
      return false, iso;
    }
    iso := IsoWeekDate(year, week, weekday);
    ok := IsValidIsoWeekDate(iso);
  }

  lemma EmptyValue()
    ensures ValueOf("") == 0
  {
  }

  lemma NextDigit(t: string, k: nat)
    requires k < |t| && AllDigits(t[..k]) && IsDigit(t[k])
    ensures AllDigits(t[..k + 1]) && ValueOf(t[..k + 1]) == ValueOf(t[..k]) * 10 + DigitValue(t[k])
  {
    assert t[..k + 1][..k] == t[..k];
  }

  lemma RunToEnd(t: string, k: nat)
    requires k <= |t| && AllDigits(t[..k]) && (k < |t| ==> !IsDigit(t[k]))
    ensures DigitsOf(t) == k
  {
    RunOfDigits(t[..k], t[k..], |t|);
    assert t == t[..k] + t[k..];
  }

  // ----- parse_iso8601 -----

  /** `parse_time_zone`. */
  method ReadTimeZone(data: string) returns (ok: bool, tz: TimeZone)
    ensures ParseTimeZone(data) == if ok then Some(tz) else None
  {
    tz := UTC;
    if |data| == 0 {
      return true, tz;
    }
    if |data| == 1 && (data[0] == 'Z' || data[0] == 'z') {
      return true, tz;
    }
    if |data| != 6 {
      return false, tz;
    }
    if data[0] != '+' && data[0] != '-' {
      return false, tz;
    }
    if data[3] != ':' {
      return false, tz;
    }
    if !IsDigit(data[1]) || !IsDigit(data[2]) || !IsDigit(data[4]) || !IsDigit(data[5]) {
      return false, tz;
    }
    tz := TimeZone(DigitValue(data[1]) * 10 + DigitValue(data[2]), DigitValue(data[4]) * 10 + DigitValue(data[5]), data[0] == '+');
    ok := IsValidTimeZone(tz);
  }

  class Iso8601Parser {
    const input: string
    var p: nat

    constructor (input: string)
      ensures this.input == input && p == 0
    {
      this.input, p := input, 0;
    }

    ghost predicate Valid()
      reads this
    {
      p <= |input|
    }

    ghost function Rest(): string
      reads this
      requires Valid()
    {
      input[p..]
    }

    method SkipBlanks()
      requires Valid()
      modifies this
      ensures Valid() && Rest() == SkipSpaces(old(Rest()))
    {
      while p < |input| && IsSpace(input[p])
        invariant Valid() && SkipSpaces(Rest()) == SkipSpaces(old(Rest()))
      {
        assert Rest()[1..] == input[p + 1..];
        p := p + 1;
      }
    }

    method Parse2Digits() returns (ok: bool, out: int)
      requires Valid()
      modifies this
      ensures Valid()
      ensures match ParseExact2(old(Rest()))
              case Fail => !ok
              case Got(v, rest) => ok && out == v && Rest() == rest
    {
      if |input| - p < 2 {
        return false, 0;
      }
      var a, b := input[p], input[p + 1];
      if !IsDigit(a) || !IsDigit(b) {
        return false, 0;
      }
      out := DigitValue(a) * 10 + DigitValue(b);
      p := p + 2;
      ok := true;
    }

    method Parse4DigitsYear() returns (ok: bool, out: int)
      requires Valid()
      modifies this
      ensures Valid()
      ensures match Parse4Digits(old(Rest()))
              case Fail => !ok
              case Got(v, rest) => ok && out == v && Rest() == rest
    {
      if |input| - p < 4 {
        return false, 0;
      }
      var a, b, c, d := input[p], input[p + 1], input[p + 2], input[p + 3];
      if !IsDigit(a) || !IsDigit(b) || !IsDigit(c) || !IsDigit(d) {
        return false, 0;
      }
      out := DigitValue(a) * 1000 + DigitValue(b) * 100 + DigitValue(c) * 10 + DigitValue(d);
      p := p + 4;
      ok := true;
    }

    method ParseFractionToMs() returns (ok: bool, msOut: int)
      requires Valid()
      modifies this
      ensures Valid()
      ensures match ParseFraction(old(Rest()))
              case Fail => !ok
              case Got(v, rest) => ok && msOut == v && Rest() == rest
    {
      ghost var s := Rest();
      if p >= |input| || !IsDigit(input[p]) {
        RunToEnd(s, 0);
        return false, 0;
      }
      var start, ms, digits := p, 0, 0;
      EmptyValue();
      assert s[..0] == "";
      while p < |input| && IsDigit(input[p])
        invariant p == start + digits <= |input| && digits <= 3
        invariant AllDigits(s[..digits]) && ms == ValueOf(s[..digits])
      {
        NextDigit(s, digits);
        if digits >= 3 {
          FourDigitsRefused(s);
          return false, 0;
        }
        ms := ms * 10 + DigitValue(input[p]);
        digits := digits + 1;
        p := p + 1;
      }
      RunToEnd(s, digits);
      if digits == 1 {
        ms := ms * 100;
      } else if digits == 2 {
        ms := ms * 10;
      }
      assert s[digits..] == input[p..];
      return true, ms;
    }

    /** `YYYY<sep>MM<sep>DD`. */
    method ReadCalendarDate() returns (ok: bool, date: Date)
      requires Valid()
      modifies this
      ensures Valid()
      ensures match ParseCalendarDate(old(Rest()))
              case Fail => !ok
              case Got(d, rest) => ok && date == d && Rest() == rest
    {
      hide ParseExact2, Parse4Digits;
      date := Date(0, 0, 0);
      var part;
      ok, part := Parse4DigitsYear();
      if !ok {
        return false, date;
      }
      date := date.(year := part);
      ok := PassSeparator();
      if !ok {
        return false, date;
      }
      ok, part := Parse2Digits();
      if !ok {
        return false, date;
      }
      date := date.(month := part);
      ok := PassSeparator();
      if !ok {
        return false, date;
      }
      ok, part := Parse2Digits();
      date := date.(day := part);
    }

    method PassSeparator() returns (ok: bool)
      requires Valid()
      modifies this
      ensures Valid() && (ok <==> IsDateSeparator(old(Rest()))) && (ok ==> Rest() == old(Rest())[1..])
    {
      if p >= |input| {
        return false;
      }
      var separator := input[p];
      if separator != '-' && separator != '/' && separator != '.' {
        return false;
      }
      p := p + 1;
      ok := true;
    }

    /** The week date attempt, then the calendar date. */
    method ReadDate() returns (ok: bool, date: Date)
      requires Valid()
      modifies this
      ensures Valid()
      ensures match ParseDate(old(Rest()))
              case Fail => !ok
              case Got(d, rest) => ok && date == d && Rest() == rest
    {
      hide ParseCalendarDate, ParseIsoWeekDate, IsoWeekDateToDate;
      ghost var s := Rest();
      var dateEnd := p;
      while dateEnd < |input| && input[dateEnd] != 'T' && input[dateEnd] != 't' && !IsSpace(input[dateEnd])
        invariant p <= dateEnd <= |input| && DateEnd(s) == dateEnd - p + DateEnd(input[dateEnd..])
      {
        assert input[dateEnd..][1..] == input[dateEnd + 1..];
        dateEnd := dateEnd + 1;
      }
      assert s[..dateEnd - p] == input[p..dateEnd] && s[dateEnd - p..] == input[dateEnd..];
      if dateEnd > p {
        var iso;
        ok, iso := ReadIsoWeekDate(input[p..dateEnd]);
        if ok {
          var converted := IsoWeekDateToDate(iso);
          p := dateEnd;
          return converted.Ok?, if converted.Ok? then converted.value else Date(0, 0, 0);
        }
      } else {
        NoEmptyWeekDate();
      }
      ok, date := ReadCalendarDate();
    }

    /** `hh:mm[:ss[.fff]]`. */
    method ReadClock() returns (ok: bool, clock: Clock)
      requires Valid()
      modifies this
      ensures Valid()
      ensures match ParseClock(old(Rest()))
              case Fail => !ok
              case Got(c, rest) => ok && clock == c && Rest() == rest
    {
      hide ParseExact2, ParseFraction;
      clock := Clock(0, 0, 0, 0);
      var part;
      ok, part := Parse2Digits();
      if !ok {
        return false, clock;
      }
      clock := clock.(hour := part);
      ghost var s1 := Rest();
      if p >= |input| || input[p] != ':' {
        return false, clock;
      }
      p := p + 1;
      assert Rest() == s1[1..];
      ok, part := Parse2Digits();
      if !ok {
        return false, clock;
      }
      clock := clock.(min := part);
      var hasSeconds := false;
      ghost var s2 := Rest();
      if p < |input| && input[p] == ':' {
        p := p + 1;
        assert Rest() == s2[1..];
        ok, part := Parse2Digits();
        if !ok {
          return false, clock;
        }
        clock := clock.(sec := part);
        hasSeconds := true;
      }
      ghost var s3 := Rest();
      if p < |input| && input[p] == '.' {
        if !hasSeconds {
          return false, clock;
        }
        p := p + 1;
        assert Rest() == s3[1..];
        ok, part := ParseFractionToMs();
        if !ok {
          return false, clock;
        }
        clock := clock.(ms := part);
      }
      ok := true;
    }

    /** An optional `Z` or offset. */
    method ReadZone() returns (ok: bool, tz: TimeZone)
      requires Valid()
      modifies this
      ensures Valid()
      ensures match ParseZoneSuffix(old(Rest()))
              case Fail => !ok
              case Got(z, rest) => ok && tz == z && Rest() == rest
    {
      hide ParseTimeZone;
      tz := UTC;
      ghost var s := Rest();
      if p < |input| {
        if input[p] == 'Z' || input[p] == 'z' {
          p := p + 1;
        } else if input[p] == '+' || input[p] == '-' {
          if |input| - p < 6 {
            return false, tz;
          }
          assert input[p..p + 6] == s[..6];
          ok, tz := ReadTimeZone(input[p..p + 6]);
          if !ok {
            return false, tz;
          }
          p := p + 6;
        }
      }
      ok := true;
    }

    method ReadTimePart(date: Date) returns (ok: bool, dt: DateTime, tz: TimeZone)
      requires Valid()
      modifies this
      ensures Valid()
      ensures ParseTimePart(date, old(Rest())) == if ok then Some((dt, tz)) else None
    {
      hide ParseClock, ParseZoneSuffix, IsValidDateTime;
      dt, tz := DateTime(date.year, date.month, date.day, 0, 0, 0, 0), UTC;
      ghost var s := Rest();
      if p >= |input| {
        return false, dt, tz;
      }
      if input[p] == 'T' || input[p] == 't' {
        p := p + 1;
        assert Rest() == s[1..];
      } else if IsSpace(input[p]) {
        SkipBlanks();
      } else {
        return false, dt, tz;
      }
      var clock;
      ok, clock := ReadClock();
      if !ok {
        return false, dt, tz;
      }
      dt := dt.(hour := clock.hour, min := clock.min, sec := clock.sec, ms := clock.ms);
      SkipBlanks();
      ok, tz := ReadZone();
      if !ok {
        return false, dt, tz;
      }
      SkipBlanks();
      if p != |input| {
        return false, dt, tz;
      }
      ok := IsValidDateTime(dt);
    }
  }

  lemma NoEmptyWeekDate()
    ensures ParseIsoWeekDate("") == None
  {
  }

  /** `parse_iso8601`. */
  method ReadIso8601(input: string) returns (ok: bool, dt: DateTime, tz: TimeZone)
    ensures ParseIso8601(input) == if ok then Some((dt, tz)) else None
  {
    hide ParseDate, ParseTimePart, IsValidDate, IsValidDateTime;
    dt, tz := DateTime(0, 1, 1, 0, 0, 0, 0), UTC;
    var parser := new Iso8601Parser(input);
    assert parser.Rest() == input;
    parser.SkipBlanks();
    var date;
    ok, date := parser.ReadDate();
    if !ok {
      return false, dt, tz;
    }
    if !IsValidDate(date.year, date.month, date.day) {
      return false, dt, tz;
    }
    dt := DateTime(date.year, date.month, date.day, 0, 0, 0, 0);
    var q := parser.p;
    ghost var rest := parser.Rest();
    while q < |input| && IsSpace(input[q])
      invariant parser.p <= q <= |input| && SkipSpaces(input[q..]) == SkipSpaces(rest)
      invariant parser.input == input && parser.Valid() && parser.Rest() == rest
    {
      assert input[q..][1..] == input[q + 1..];
      q := q + 1;
    }
    assert q < |input| ==> SkipSpaces(input[q..]) == input[q..];
    if q == |input| {
      return IsValidDateTime(dt), dt, tz;
    }
    ok, dt, tz := parser.ReadTimePart(date);
  }

  lemma FourDigitsRefused(s: string)
    requires |s| >= 4 && AllDigits(s[..4])
    ensures ParseFraction(s) == Fail
  {
    assert forall i :: 0 <= i < 4 ==> s[i] == s[..4][i];
  }
}
