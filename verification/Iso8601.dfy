/** ISO 8601 text: what `DateTime::to_iso8601` prints and what `parse_iso8601` accepts. */
module Iso8601 {
  import opened Words
  import opened Calendar
  import opened Timestamps
  import opened IsoWeek
  import opened Text
  import opened Formats

  const MS_PER_SEC: int := 1000
  const ERROR_TIMESTAMP: int := 9223372036854770000

  /** The value type `DateTime`: an instant and a display offset in seconds. */
  datatype Moment = Moment(utcMs: int, offset: int)

  function LocalMs(m: Moment): int {
    m.utcMs + m.offset * MS_PER_SEC
  }

  /** `to_date_time_ms`. */
  function ToDateTimeMs(ms: int): DateTime {
    ToDateTime(FloorDiv(ms, MS_PER_SEC)).(ms := FloorMod(ms, MS_PER_SEC))
  }

  /** `is_valid_tz_offset`. */
  predicate IsValidTzOffset(offset: int) {
    TruncMod(offset, 60) == 0 && -12 * 3600 <= offset <= 14 * 3600
  }

  // ----- printing -----

  function ClockText(dt: DateTime): string
    requires dt.hour >= 0 && dt.min >= 0 && dt.sec >= 0 && dt.ms >= 0
  {
    Two(dt.hour) + ":" + Two(dt.min) + ":" + Two(dt.sec) + "." + Padded(dt.ms, 3)
  }

  function OffsetText(offset: int): string {
    var tz := ToTimeZone(offset);
    (if tz.isPositive then "+" else "-") + Two(tz.hour) + ":" + Two(tz.min)
  }

  predicate IsClock(dt: DateTime) {
    1 <= dt.mon <= 12 && 1 <= dt.day <= 31 && IsValidTime(dt.hour, dt.min, dt.sec, dt.ms)
  }

  /** The text is printed into a buffer that holds 31 characters. */
  function Buffered(s: string): string {
    if |s| <= 31 then s else s[..31]
  }

  /** `to_iso8601_ms` for a local date-time. */
  function IsoText(dt: DateTime, offset: int): string
    requires IsClock(dt)
  {
    Decimal(dt.year) + "-" + Two(dt.mon) + "-" + Two(dt.day) + "T" + ClockText(dt) + OffsetText(offset)
  }

  /** `DateTime::to_iso8601`. */
  function ToIso8601(m: Moment): string
    requires IsClock(ToDateTimeMs(LocalMs(m)))
  {
    Buffered(IsoText(ToDateTimeMs(LocalMs(m)), m.offset))
  }

  // ----- reading -----

  predicate IsSpace(c: char) {
    c == ' ' || c == '\t' || c == '\n' || c == '\r' || c == '\U{0C}' || c == '\U{0B}'
  }

  function SkipSpaces(s: string): (r: string)
    ensures |r| <= |s|
  {
    if s != "" && IsSpace(s[0]) then SkipSpaces(s[1..]) else s
  }

  /** Where the date part ends: before a `T`, a space, or the end. */
  function DateEnd(s: string): (k: nat)
    ensures k <= |s|
  {
    if s == "" || s[0] == 'T' || s[0] == 't' || IsSpace(s[0]) then 0 else 1 + DateEnd(s[1..])
  }

  /** All the digits the text starts with. */
  function DigitsOf(s: string): (k: nat)
    ensures k <= |s| && AllDigits(s[..k])
    ensures k < |s| ==> !IsDigit(s[k])
  {
    DigitRun(s, |s|)
  }

  /** The weekday at the end of a week date, a Monday if missing. */
  function ParseWeekday(s: string, dashed: bool): Option<int> {
    if s == "" then Some(1)
    else
      var t := if (s[0] == '-' && dashed) || (!dashed && !IsDigit(s[0])) then (if s[0] == '-' then s[1..] else s) else s;
      if |t| == 1 && IsDigit(t[0]) then Some(DigitValue(t[0])) else None
  }

  /** `parse_iso_week_date` on a whole text. */
  function ParseIsoWeekDate(s: string): Option<IsoWeekDate> {
    var t := if s != "" && (s[0] == '+' || s[0] == '-') then s[1..] else s;
    var k := DigitsOf(t);
    if k == 0 || k == |t| then None
    else ParseWeekOfYear(if s[0] == '-' then -ValueOf(t[..k]) else ValueOf(t[..k]), t[k..])
  }

  /** What follows the year of a week date. */
  function ParseWeekOfYear(year: int, s: string): Option<IsoWeekDate>
    requires s != ""
  {
    var dashed := s[0] == '-';
    var w := if dashed then s[1..] else s;
    if w == "" || (w[0] != 'W' && w[0] != 'w') then None
    else
      match ParseExact2(w[1..])
      case Fail => None
      case Got(week, rest) =>
        if week == 0 then None
        else
          match ParseWeekday(rest, dashed)
          case None => None
          case Some(weekday) =>
            var iso := IsoWeekDate(year, week, weekday);
            if IsValidIsoWeekDate(iso) then Some(iso) else None
  }

  function Parse4Digits(s: string): Parse<int> {
    if |s| < 4 || !IsDigit(s[0]) || !IsDigit(s[1]) || !IsDigit(s[2]) || !IsDigit(s[3]) then Fail
    else Got(DigitValue(s[0]) * 1000 + DigitValue(s[1]) * 100 + DigitValue(s[2]) * 10 + DigitValue(s[3]), s[4..])
  }

  predicate IsDateSeparator(s: string) {
    s != "" && s[0] in {'-', '/', '.'}
  }

  function ParseCalendarDate(s: string): Parse<Date> {
    match Parse4Digits(s)
    case Fail => Fail
    case Got(year, s1) =>
      if !IsDateSeparator(s1) then Fail
      else
        match ParseExact2(s1[1..])
        case Fail => Fail
        case Got(month, s2) =>
          if !IsDateSeparator(s2) then Fail
          else
            match ParseExact2(s2[1..])
            case Fail => Fail
            case Got(day, s3) => Got(Date(year, month, day), s3)
  }

  /** A week date is tried first, on everything up to the `T` or space. */
  function ParseDate(s: string): Parse<Date> {
    match ParseIsoWeekDate(s[..DateEnd(s)])
    case Some(iso) =>
      (match IsoWeekDateToDate(iso)
       case Ok(d) => Got(d, s[DateEnd(s)..])
       case InvalidArgument => Fail)
    case None => ParseCalendarDate(s)
  }

  /** `parse_fraction_to_ms`: one to three digits. */
  function ParseFraction(s: string): Parse<int> {
    var k := DigitsOf(s);
    if k == 0 || k > 3 then Fail
    else Got(ValueOf(s[..k]) * (if k == 1 then 100 else if k == 2 then 10 else 1), s[k..])
  }

  datatype Clock = Clock(hour: int, min: int, sec: int, ms: int)

  predicate StartsWith(s: string, c: char) {
    s != "" && s[0] == c
  }

  /** `hh:mm`, then `:ss` if present, then a fraction, which needs seconds. */
  function ParseClock(s: string): Parse<Clock> {
    match ParseExact2(s)
    case Fail => Fail
    case Got(hour, s1) =>
      if !StartsWith(s1, ':') then Fail
      else
        match ParseExact2(s1[1..])
        case Fail => Fail
        case Got(min, s2) =>
          if StartsWith(s2, ':') then
            match ParseExact2(s2[1..])
            case Fail => Fail
            case Got(sec, s3) => ParseMillis(Clock(hour, min, sec, 0), s3)
          else if StartsWith(s2, '.') then Fail
          else Got(Clock(hour, min, 0, 0), s2)
  }

  function ParseMillis(c: Clock, s: string): Parse<Clock> {
    if !StartsWith(s, '.') then Got(c, s)
    else
      match ParseFraction(s[1..])
      case Fail => Fail
      case Got(ms, rest) => Got(c.(ms := ms), rest)
  }

  /** `parse_time_zone` on a buffer of any length. */
  function ParseTimeZone(s: string): Option<TimeZone> {
    if s == "" || s == "Z" || s == "z" then Some(UTC)
    else if |s| != 6 || (s[0] != '+' && s[0] != '-') || s[3] != ':'
            || !IsDigit(s[1]) || !IsDigit(s[2]) || !IsDigit(s[4]) || !IsDigit(s[5]) then None
    else
      var tz := TimeZone(DigitValue(s[1]) * 10 + DigitValue(s[2]), DigitValue(s[4]) * 10 + DigitValue(s[5]), s[0] == '+');
      if IsValidTimeZone(tz) then Some(tz) else None
  }

  function ParseZoneSuffix(s: string): Parse<TimeZone> {
    if s == "" then Got(UTC, s)
    else if s[0] == 'Z' || s[0] == 'z' then Got(UTC, s[1..])
    else if s[0] == '+' || s[0] == '-' then
      if |s| < 6 then Fail
      else
        match ParseTimeZone(s[..6])
        case None => Fail
        case Some(tz) => Got(tz, s[6..])
    else Got(UTC, s)
  }

  /** The separator between date and time. */
  function ParseSeparator(s: string): Parse<()> {
    if s == "" then Fail
    else if s[0] == 'T' || s[0] == 't' then Got((), s[1..])
    else if IsSpace(s[0]) then Got((), SkipSpaces(s))
    else Fail
  }

  function Checked(dt: DateTime, tz: TimeZone): Option<(DateTime, TimeZone)> {
    if IsValidDateTime(dt) then Some((dt, tz)) else None
  }

  /** Everything after the date. */
  function ParseTimePart(d: Date, s: string): Option<(DateTime, TimeZone)> {
    match ParseSeparator(s)
    case Fail => None
    case Got(_, s1) =>
      match ParseClock(s1)
      case Fail => None
      case Got(c, s2) =>
        match ParseZoneSuffix(SkipSpaces(s2))
        case Fail => None
        case Got(tz, s3) =>
          if SkipSpaces(s3) != "" then None
          else Checked(DateTime(d.year, d.month, d.day, c.hour, c.min, c.sec, c.ms), tz)
  }

  /** `parse_iso8601`. */
  function ParseIso8601(s: string): Option<(DateTime, TimeZone)> {
    match ParseDate(SkipSpaces(s))
    case Fail => None
    case Got(d, rest) =>
      if !IsValidDate(d.year, d.month, d.day) then None
      else if SkipSpaces(rest) == "" then Checked(DateTime(d.year, d.month, d.day, 0, 0, 0, 0), UTC)
      else ParseTimePart(d, rest)
  }

  /** `dt_to_timestamp_ms`; the source throws where this is `None`. */
  function ToTimestampMs(dt: DateTime): Option<int> {
    match ToTimestamp(dt)
    case None => None
    case Some(ts) =>
      var sec := ts + FloorDiv(dt.ms, MS_PER_SEC);
      var ms := FloorMod(dt.ms, MS_PER_SEC);
      if (sec > 0 && sec > TruncDiv(TWO_63 - 1 - ms, MS_PER_SEC)) || (sec < 0 && sec < TruncDiv(-TWO_63, MS_PER_SEC)) then
        Some(ERROR_TIMESTAMP)
      else
        Some(sec * MS_PER_SEC + ms)
  }

  /** `DateTime::try_parse_iso8601_buffer`. */
  function TryParse(s: string): Option<Moment> {
    match ParseIso8601(s)
    case None => None
    case Some(r) =>
      var offset := OffsetOf(r.1);
      if !IsValidTzOffset(offset) then None
      else
        match ToTimestampMs(r.0)
        case None => None
        case Some(ms) => Some(Moment(ms - offset * MS_PER_SEC, offset))
  }
}
