/** The format grammar shared by `to_string` and the format parser: what each directive prints and reads. */
module Formats {
  import opened Words
  import opened Timestamps
  import opened Text

  /** A format is a sequence of literal characters and directives with a repeated letter. */
  datatype Item = Lit(c: char) | Dir(letter: char, count: nat)

  /** How many times the text starts with `c`. */
  function Run(f: string, c: char): (n: nat)
    ensures n <= |f|
  {
    if f != "" && f[0] == c then 1 + Run(f[1..], c) else 0
  }

  /** `%%` is a percent sign, `%` and a repeated letter a directive, a final lone `%` nothing. */
  function Items(f: string): seq<Item>
    decreases |f|
  {
    if f == "" then []
    else if f[0] != '%' then [Lit(f[0])] + Items(f[1..])
    else if |f| == 1 then []
    else if f[1] == '%' then [Lit('%')] + Items(f[2..])
    else [Dir(f[1], 1 + Run(f[2..], f[1]))] + Items(f[2 + Run(f[2..], f[1])..])
  }

  /** The directives of this model; the rest of the two switches is left out. */
  predicate IsModelled(item: Item) {
    item.Lit? ||
    match item.letter
    case 'd' => true
    case 'D' => item.count != 1
    case 'F' => true
    case 'H' => true
    case 'h' => item.count != 1
    case 'm' => true
    case 'M' => item.count != 3
    case 'n' => true
    case 'R' => true
    case 's' => item.count != 1 && item.count != 3
    case 'S' => item.count != 3
    case 't' => true
    case 'T' => true
    case 'Y' => item.count !in {2, 4, 6}
    case 'z' => true
    case _ => false
  }

  // ----- time zones -----

  /** `TimeZoneStruct`. */
  datatype TimeZone = TimeZone(hour: int, min: int, isPositive: bool)

  const UTC := TimeZone(0, 0, true)

  function ToTimeZone(offset: int): TimeZone {
    var a := if offset < 0 then -offset else offset;
    TimeZone(a / 3600, a % 3600 / 60, offset >= 0)
  }

  function OffsetOf(tz: TimeZone): int {
    if tz.isPositive then tz.hour * 3600 + tz.min * 60 else -(tz.hour * 3600 + tz.min * 60)
  }

  predicate IsValidTimeZone(tz: TimeZone) {
    0 <= tz.hour <= 23 && 0 <= tz.min <= 59
  }

  /** Whole-minute offsets survive; seconds are dropped towards zero. */
  lemma TimeZoneKeepsMinutes(offset: int)
    ensures OffsetOf(ToTimeZone(offset)) == offset - TruncMod(offset, 60)
    ensures -86400 < offset < 86400 ==> IsValidTimeZone(ToTimeZone(offset))
  {
    var a := if offset < 0 then -offset else offset;
    var (h, r) := (a / 3600, a % 3600);
    DivModUnique(a, 60, 60 * h + r / 60, r % 60);
  }

  // ----- printing -----

  /** What is printed: the local date-time and the offset. */
  datatype Local = Local(dt: DateTime, offset: int)

  predicate IsPrintable(v: Local) {
    1 <= v.dt.mon <= 12 && 1 <= v.dt.day <= 31 && IsValidTime(v.dt.hour, v.dt.min, v.dt.sec, 0)
  }

  function Two(n: nat): string { Padded(n, 2) }

  /** `%F`: four digits for years 0..9999, otherwise an explicit sign in front of the printed number. */
  function IsoDate(dt: DateTime): string
    requires dt.mon >= 0 && dt.day >= 0
  {
    (if dt.year < 0 then "-" + Decimal(dt.year) else if dt.year <= 9999 then Padded(dt.year, 4) else "+" + Decimal(dt.year))
    + "-" + Two(dt.mon) + "-" + Two(dt.day)
  }

  function ZoneText(offset: int): string {
    var tz := ToTimeZone(offset);
    (if tz.isPositive then "+" else "-") + Two(tz.hour) + Two(tz.min)
  }

  /** `process_format_impl`. */
  function PrintToken(letter: char, count: nat, v: Local): string
    requires IsPrintable(v)
  {
    var dt := v.dt;
    match letter
    case 'd' => if count < 2 then Two(dt.day) else ""
    case 'D' => if count == 2 then Two(dt.day) else ""
    case 'F' => if count == 1 then IsoDate(dt) else ""
    case 'H' => if count <= 2 then Two(dt.hour) else ""
    case 'h' => if count == 2 then Two(dt.hour) else ""
    case 'm' => if count == 1 then Two(dt.mon) else if count == 2 then Two(dt.min) else ""
    case 'M' => if count == 1 then Two(dt.min) else if count == 2 then Two(dt.mon) else ""
    case 'n' => "\n"
    case 'R' => if count == 1 then Two(dt.hour) + ":" + Two(dt.min) else ""
    case 's' => if count == 2 then Two(dt.sec) else ""
    case 'S' => if count <= 2 then Two(dt.sec) else ""
    case 't' => if count > 1 then "" else "\t"
    case 'T' => if count == 1 then Two(dt.hour) + ":" + Two(dt.min) + ":" + Two(dt.sec) else ""
    case 'Y' => if count == 1 then Decimal(dt.year) else ""
    case 'z' => if count == 1 then ZoneText(v.offset) else ""
    case _ => ""
  }

  function Print(item: Item, v: Local): string
    requires IsPrintable(v)
  {
    match item
    case Lit(c) => [c]
    case Dir(letter, count) => PrintToken(letter, count, v)
  }

  function Render(items: seq<Item>, v: Local): string
    requires IsPrintable(v)
  {
    if items == [] then "" else Print(items[0], v) + Render(items[1..], v)
  }

  /** `to_string`: a leading literal is printed twice. */
  function ToText(format: string, v: Local): string
    requires IsPrintable(v)
  {
    if format == "" then ""
    else (if format[0] != '%' then [format[0]] else "") + Render(Items(format), v)
  }

  // ----- reading -----

  /** `FormatParseState`, as far as the modelled directives fill it in. */
  datatype FormatState = FormatState(year: Option<int>, month: Option<int>, day: Option<int>, hour24: Option<int>,
                                     minute: Option<int>, second: Option<int>, tz: Option<TimeZone>)

  const NOTHING_READ := FormatState(None, None, None, None, None, None, None)

  datatype Field = YEAR | MONTH | DAY | HOUR | MINUTE | SECOND

  function FieldOf(st: FormatState, f: Field): Option<int> {
    match f
    case YEAR => st.year
    case MONTH => st.month
    case DAY => st.day
    case HOUR => st.hour24
    case MINUTE => st.minute
    case SECOND => st.second
  }

  function WithField(st: FormatState, f: Field, x: int): FormatState {
    match f
    case YEAR => st.(year := Some(x))
    case MONTH => st.(month := Some(x))
    case DAY => st.(day := Some(x))
    case HOUR => st.(hour24 := Some(x))
    case MINUTE => st.(minute := Some(x))
    case SECOND => st.(second := Some(x))
  }

  /** `assign_int_field`: a field read before must be read the same again. */
  function Assign(st: FormatState, f: Field, p: Parse<int>): Parse<FormatState> {
    match p
    case Fail => Fail
    case Got(x, rest) =>
      if FieldOf(st, f).Some? && FieldOf(st, f).value != x then Fail else Got(WithField(st, f, x), rest)
  }

  function Skip(s: string, c: char, st: FormatState): Parse<FormatState> {
    match MatchLiteral(s, c)
    case Fail => Fail
    case Got(_, rest) => Got(st, rest)
  }

  /** `parse_tz_offset_token`: the colon is optional. */
  function ParseZone(s: string): Parse<TimeZone> {
    if |s| < 5 || (s[0] != '+' && s[0] != '-') then Fail
    else
      match ParseExact2(s[1..])
      case Fail => Fail
      case Got(hour, rest) =>
        match ParseExact2(if rest != "" && rest[0] == ':' then rest[1..] else rest)
        case Fail => Fail
        case Got(min, end) =>
          var tz := TimeZone(hour, min, s[0] == '+');
          if IsValidTimeZone(tz) then Got(tz, end) else Fail
  }

  predicate IsComposite(letter: char) {
    letter == 'F' || letter == 'R' || letter == 'T'
  }

  predicate IsFlat(items: seq<Item>) {
    forall i :: 0 <= i < |items| && items[i].Dir? ==> !IsComposite(items[i].letter)
  }

  const DATE_ITEMS := [Dir('Y', 1), Lit('-'), Dir('m', 1), Lit('-'), Dir('d', 1)]
  const MINUTE_ITEMS := [Dir('H', 1), Lit(':'), Dir('M', 1)]
  const TIME_ITEMS := [Dir('H', 1), Lit(':'), Dir('M', 1), Lit(':'), Dir('S', 1)]

  /** `parse_format_token`. */
  function ParseToken(letter: char, count: nat, s: string, st: FormatState): Parse<FormatState>
    decreases if IsComposite(letter) then 1 else 0, 0, 0
  {
    match letter
    case 'd' => if count < 2 then Assign(st, DAY, ParseExact2(s)) else Fail
    case 'D' => if count == 2 then Assign(st, DAY, ParseExact2(s)) else Fail
    case 'F' => if count == 1 then ParseItems(DATE_ITEMS, s, st) else Fail
    case 'H' => if count <= 2 then Assign(st, HOUR, ParseExact2(s)) else Fail
    case 'h' => if count == 2 then Assign(st, HOUR, ParseExact2(s)) else Fail
    case 'm' => if count == 1 then Assign(st, MONTH, ParseExact2(s))
                else if count == 2 then Assign(st, MINUTE, ParseExact2(s)) else Fail
    case 'M' => if count == 1 then Assign(st, MINUTE, ParseExact2(s))
                else if count == 2 then Assign(st, MONTH, ParseExact2(s)) else Fail
    case 'n' => if count == 1 then Skip(s, '\n', st) else Fail
    case 'R' => if count == 1 then ParseItems(MINUTE_ITEMS, s, st) else Fail
    case 'S' => if count <= 2 then Assign(st, SECOND, ParseExact2(s)) else Fail
    case 't' => if count == 1 then Skip(s, '\t', st) else Fail
    case 'T' => if count == 1 then ParseItems(TIME_ITEMS, s, st) else Fail
    case 'Y' => if count == 1 then Assign(st, YEAR, ParseSigned(s, 1, 18)) else Fail
    case 'z' =>
      if count != 1 then Fail
      else
        (match ParseZone(s)
         case Fail => Fail
         case Got(tz, rest) => Got(st.(tz := Some(tz)), rest))
    case _ => Fail
  }

  /** `parse_format_sequence`, item by item. */
  function ParseItems(items: seq<Item>, s: string, st: FormatState): Parse<FormatState>
    decreases if IsFlat(items) then 0 else 1, |items|, 1
  {
    if items == [] then Got(st, s)
    else
      match ParseItem(items[0], s, st)
      case Fail => Fail
      case Got(st', rest) => ParseItems(items[1..], rest, st')
  }

  function ParseItem(item: Item, s: string, st: FormatState): Parse<FormatState>
    decreases if item.Dir? && IsComposite(item.letter) then 1 else 0, 0, 1
  {
    match item
    case Lit(c) => Skip(s, c, st)
    case Dir(letter, count) => ParseToken(letter, count, s, st)
  }

  // ----- from the fields to a timestamp -----

  function OrZero(x: Option<int>): int {
    if x.Some? then x.value else 0
  }

  /** `finalize_calendar_state`. */
  function Finalize(st: FormatState): Option<(DateTime, TimeZone)> {
    if st.year.None? || OrZero(st.month) == 0 || OrZero(st.day) == 0 then None
    else
      var dt := DateTime(st.year.value, OrZero(st.month), OrZero(st.day), OrZero(st.hour24), OrZero(st.minute), OrZero(st.second), 0);
      if IsValidDateTime(dt) then Some((dt, if st.tz.Some? then st.tz.value else UTC)) else None
  }

  /** `to_timestamp`, which throws for anything but a valid date-time. */
  function ToTimestamp(dt: DateTime): Option<int>
    decreases if dt.day >= UNIX_EPOCH then 1 else 0
  {
    if dt.day >= UNIX_EPOCH && dt.year <= 31 then ToTimestamp(dt.(year := dt.day, day := dt.year))
    else if !IsValidDateTime(dt.(ms := 0)) then None
    else
      IsValidDateExactly(dt.year, dt.mon, dt.day);
      Some(ToTimestampUnchecked(dt))
  }

  /** The timestamp of the fields that were read. */
  function TimestampOf(st: FormatState): Option<int> {
    match Finalize(st)
    case None => None
    case Some(r) =>
      match ToTimestamp(r.0)
      case None => None
      case Some(ts) => Some(ts - OffsetOf(r.1))
  }

  /** `try_parse_format_ts`. */
  function ParseTimestamp(data: string, format: string): Option<int> {
    match ParseItems(Items(format), data, NOTHING_READ)
    case Fail => None
    case Got(st, rest) => if rest != "" then None else TimestampOf(st)
  }
}
