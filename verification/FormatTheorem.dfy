/** The format round trip, from timestamps to text and back. */
module FormatTheorem {
  import opened Words
  import opened Calendar
  import opened FastDate
  import opened Timestamps
  import opened Text
  import opened Formats
  import opened FormatRoundTrip

  function LocalOf(ts: int, offset: int): Local {
    Local(ToDateTime(ts + offset), offset)
  }

  /** What the items leave unsaid is zero anyway. */
  predicate Covers(items: seq<Item>, v: Local) {
    && {YEAR, MONTH, DAY} <= TellsAll(items)
    && (HOUR in TellsAll(items) || v.dt.hour == 0)
    && (MINUTE in TellsAll(items) || v.dt.min == 0)
    && (SECOND in TellsAll(items) || v.dt.sec == 0)
    && (TellsZone(items) || v.offset == 0)
  }

  /** The earliest year a timestamp can name is a valid one. */
  lemma YearAboveMin(d: Date)
    requires IsDate(d) && DayNumber(d) >= -MAX_DAYS
    ensures d.year >= MIN_YEAR
  {
  }

  lemma DateBounds(d: Date)
    requires IsDate(d)
    ensures 1 <= d.month <= 12 && 1 <= d.day <= 31
  {
  }

  lemma TimestampYear(t: int)
    requires IsTimestamp(t)
    ensures ToDateTime(t).year >= MIN_YEAR
  {
    hide ToDateTime, DayByDay, DayNumber, IsDate;
    ToDateTimeCorrect(t);
    DaysOfTimestamp(t);
    DayNumberOfWalk(t / SEC_PER_DAY);
    YearAboveMin(DateOf(ToDateTime(t)));
  }

  lemma TimestampFields(t: int)
    requires IsTimestamp(t)
    ensures var dt := ToDateTime(t);
      && 1 <= dt.mon <= 12 && 1 <= dt.day <= 31 && IsValidTime(dt.hour, dt.min, dt.sec, 0) && dt.ms == 0
      && -YEAR_LIMIT <= dt.year <= YEAR_LIMIT
      && (dt.year <= MAX_YEAR <==> IsValidDateTime(dt))
  {
    hide ToDateTime, DayByDay, DayNumber, IsDate, IsValidDate;
    var dt := ToDateTime(t);
    ToDateTimeCorrect(t);
    TimestampYear(t);
    DateBounds(DateOf(dt));
    IsValidDateExactly(dt.year, dt.mon, dt.day);
  }

  lemma LocalInRange(ts: int, offset: int)
    requires IsTimestamp(ts + offset) && -86400 < offset < 86400
    ensures InRange(LocalOf(ts, offset)) && LocalOf(ts, offset).dt.ms == 0
    ensures LocalOf(ts, offset).dt.year <= MAX_YEAR <==> IsValidDateTime(LocalOf(ts, offset).dt)
  {
    hide ToDateTime, IsValidDateTime;
    TimestampFields(ts + offset);
  }

  /** The fields that were read make the date-time that was printed. */
  lemma FinalizeKnown(st: FormatState, v: Local, items: seq<Item>)
    requires Knows(st, v, TellsAll(items), TellsZone(items)) && Covers(items, v) && InRange(v) && v.dt.ms == 0
    ensures Finalize(st) == if IsValidDateTime(v.dt) then Some((v.dt, ToTimeZone(v.offset))) else None
  {
    hide IsValidDateTime, TellsAll, TellsZone;
    assert FieldOf(st, YEAR) == Some(v.dt.year) && FieldOf(st, MONTH) == Some(v.dt.mon) && FieldOf(st, DAY) == Some(v.dt.day);
    assert OrZero(FieldOf(st, HOUR)) == v.dt.hour && OrZero(FieldOf(st, MINUTE)) == v.dt.min && OrZero(FieldOf(st, SECOND)) == v.dt.sec;
  }

  /** Parsing the text that `to_string` makes of a timestamp: it succeeds exactly when the local year is not beyond the
      greatest valid one, and gives back the timestamp exactly when the offset is in whole minutes. */
  lemma ParseOfToText(format: string, ts: int, offset: int)
    requires IsTimestamp(ts) && IsTimestamp(ts + offset) && -86400 < offset < 86400
    requires format != "" && format[0] == '%'
    requires var v := LocalOf(ts, offset);
      AllReadable(Items(format), v) && Covers(Items(format), v) && (IsPrintable(v) ==> YearsEnd(Items(format), v, ""))
    ensures var v := LocalOf(ts, offset);
      IsPrintable(v)
      && ParseTimestamp(ToText(format, v), format) == if v.dt.year <= MAX_YEAR then Some(ts + TruncMod(offset, 60)) else None
  {
    hide Items, Render, ParseItems, TellsAll, TellsZone, Covers, Reads, Knows, InRange, IsPrintable, IsValidDateTime, ToDateTime,
      ParseTimestamp, ToText, AllReadable, YearsEnd, ToTimestamp, ToTimeZone, OffsetOf, TruncMod;
    var v := LocalOf(ts, offset);
    var items := Items(format);
    LocalInRange(ts, offset);
    InRangeIsPrintable(v);
    var text := Render(items, v);
    PercentFirst(format, v);
    NothingKnown(v);
    ItemsRead(items, v, NOTHING_READ, {}, false, "");
    ParsedTimestamp(format, text, v);
    if v.dt.year <= MAX_YEAR { BackToTimestamp(ts, offset); }
  }

  /** So up to the greatest valid year it gives back the timestamp exactly for offsets in whole minutes. */
  lemma WholeMinutes(format: string, ts: int, offset: int)
    requires IsTimestamp(ts) && IsTimestamp(ts + offset) && -86400 < offset < 86400 && LocalOf(ts, offset).dt.year <= MAX_YEAR
    requires format != "" && format[0] == '%'
    requires var v := LocalOf(ts, offset);
      AllReadable(Items(format), v) && Covers(Items(format), v) && (IsPrintable(v) ==> YearsEnd(Items(format), v, ""))
    ensures IsPrintable(LocalOf(ts, offset))
    ensures ParseTimestamp(ToText(format, LocalOf(ts, offset)), format) == Some(ts) <==> offset % 60 == 0
  {
    hide Items, Covers, IsPrintable, ToDateTime, ParseTimestamp, ToText, AllReadable, YearsEnd;
    ParseOfToText(format, ts, offset);
    FloorForms(offset, 60);
  }

  lemma InRangeIsPrintable(v: Local)
    requires InRange(v)
    ensures IsPrintable(v)
  {
  }

  lemma PercentFirst(format: string, v: Local)
    requires IsPrintable(v) && format != "" && format[0] == '%'
    ensures ToText(format, v) == Render(Items(format), v) == Render(Items(format), v) + ""
  {
    hide Items, Render;
  }

  /** When the items have been read, the timestamp is that of the printed date-time less its offset. */
  lemma ParsedTimestamp(format: string, text: string, v: Local)
    requires InRange(v) && v.dt.ms == 0 && Covers(Items(format), v)
    requires Reads(ParseItems(Items(format), text, NOTHING_READ), "", v, {} + TellsAll(Items(format)), false || TellsZone(Items(format)))
    ensures ParseTimestamp(text, format)
         == if !IsValidDateTime(v.dt) || ToTimestamp(v.dt).None? then None
            else Some(ToTimestamp(v.dt).value - OffsetOf(ToTimeZone(v.offset)))
  {
    hide Items, ParseItems, TellsAll, TellsZone, Covers, Finalize, Knows, IsValidDateTime, ToTimestamp, ToTimeZone;
    var items := Items(format);
    assert {} + TellsAll(items) == TellsAll(items);
    FinalizeKnown(ParseItems(items, text, NOTHING_READ).value, v, items);
  }

  lemma NothingKnown(v: Local)
    ensures Knows(NOTHING_READ, v, {}, false)
  {
  }

  lemma BackToTimestamp(ts: int, offset: int)
    requires IsTimestamp(ts + offset) && -86400 < offset < 86400 && IsValidDateTime(LocalOf(ts, offset).dt)
    ensures ToTimestamp(LocalOf(ts, offset).dt) == Some(ts + offset)
    ensures OffsetOf(ToTimeZone(offset)) == offset - TruncMod(offset, 60)
  {
    hide ToDateTime, ToTimestampUnchecked, IsValidDateTime, ToTimeZone, OffsetOf;
    TimestampFields(ts + offset);
    TimestampRoundTrip(ts + offset);
    TimeZoneKeepsMinutes(offset);
    assert LocalOf(ts, offset).dt.(ms := 0) == LocalOf(ts, offset).dt;
  }

  /** `to_timestamp` takes a date in either order, day first from 1970 on, and does not look at milliseconds. */
  lemma EitherOrder(d: Date, hour: int, min: int, sec: int, ms: int)
    requires IsDate(d) && UNIX_EPOCH <= d.year <= MAX_YEAR && IsValidTime(hour, min, sec, 0)
    ensures ToTimestamp(DateTime(d.year, d.month, d.day, hour, min, sec, ms))
         == ToTimestamp(DateTime(d.day, d.month, d.year, hour, min, sec, ms))
         == Some(DayNumber(d) * SEC_PER_DAY + 3600 * hour + 60 * min + sec)
  {
    hide DayNumber, ToTimestampUnchecked, IsValidDate;
    var dt := DateTime(d.year, d.month, d.day, hour, min, sec, ms);
    DateBounds(d);
    IsValidDateExactly(d.year, d.month, d.day);
    assert DateOf(dt) == d;
    ToTimestampCorrect(dt);
    assert DateTime(d.day, d.month, d.year, hour, min, sec, ms).(year := d.year, day := d.day) == dt;
  }

  // ----- where text and parser disagree -----

  /** A literal at the very start of a format is printed twice. */
  lemma LeadingLiteralTwice(format: string, v: Local)
    requires IsPrintable(v) && format != "" && format[0] != '%'
    ensures ToText(format, v) == [format[0], format[0]] + Render(Items(format[1..]), v)
  {
    hide Render;
    var c := format[0];
    LiteralThenItems(format);
    FirstItem(Lit(c), Items(format[1..]), v);
    hide Items;
    assert [c] + ([c] + Render(Items(format[1..]), v)) == [c, c] + Render(Items(format[1..]), v);
  }

  lemma LiteralThenItems(format: string)
    requires format != "" && format[0] != '%'
    ensures Items(format) == [Lit(format[0])] + Items(format[1..])
  {
  }

  /** So a format that begins with two different literals is never read back. */
  lemma TwoLiteralsUnreadable(format: string, v: Local)
    requires IsPrintable(v) && |format| >= 2 && format[0] != '%' && format[1] != '%' && format[0] != format[1]
    ensures ParseTimestamp(ToText(format, v), format) == None
  {
    hide Render, ToText, Items;
    var (c, items) := (format[0], Items(format));
    LeadingLiteralTwice(format, v);
    LiteralThenItems(format);
    LiteralThenItems(format[1..]);
    var tail := Render(Items(format[1..]), v);
    assert [c, c] + tail == [c] + ([c] + tail);
    LiteralTaken(items, c, [c] + tail, NOTHING_READ);
    assert items[1..] == Items(format[1..]) && items[1..][0] == Lit(format[1]);
    assert ParseItem(items[1..][0], [c] + tail, NOTHING_READ) == Fail;
  }

  lemma LiteralTaken(items: seq<Item>, c: char, rest: string, st: FormatState)
    requires items != [] && items[0] == Lit(c)
    ensures ParseItems(items, [c] + rest, st) == ParseItems(items[1..], rest, st)
  {
    LiteralRead(st, c, rest);
  }

  // ----- writing formats -----

  function Repeated(c: char, n: nat): (s: string)
    ensures |s| == n && forall i :: 0 <= i < n ==> s[i] == c
  {
    if n == 0 then "" else [c] + Repeated(c, n - 1)
  }

  /** A literal percent sign is doubled, a directive is a percent sign and its letter, so many times. */
  function Written(item: Item): string {
    match item
    case Lit(c) => if c == '%' then "%%" else [c]
    case Dir(letter, count) => "%" + Repeated(letter, count)
  }

  function FormatOf(items: seq<Item>): string {
    if items == [] then "" else Written(items[0]) + FormatOf(items[1..])
  }

  /** Items that can be told apart in a format: no directive is followed by its own letter. */
  predicate CanBeWritten(items: seq<Item>) {
    items == []
    || ((items[0].Dir? ==> items[0].letter != '%' && items[0].count >= 1
                           && !(FormatOf(items[1..]) != "" && FormatOf(items[1..])[0] == items[0].letter))
        && CanBeWritten(items[1..]))
  }

  lemma {:induction false} RunOfRepeated(c: char, n: nat, rest: string)
    requires rest == "" || rest[0] != c
    ensures Run(Repeated(c, n) + rest, c) == n
  {
    if n == 0 {
      assert "" + rest == rest;
    } else {
      RunOfRepeated(c, n - 1, rest);
      assert (Repeated(c, n) + rest)[1..] == Repeated(c, n - 1) + rest;
    }
  }

  /** Writing items down and scanning the format gives them back. */
  lemma {:induction false} ItemsOfFormat(items: seq<Item>)
    requires CanBeWritten(items)
    ensures Items(FormatOf(items)) == items
  {
    if items == [] {
      assert Items("") == [];
    } else {
      hide Items, Written;
      ItemsOfFormat(items[1..]);
      FirstWritten(items[0], FormatOf(items[1..]));
    }
  }

  lemma FirstWritten(item: Item, rest: string)
    requires item.Dir? ==> item.letter != '%' && item.count >= 1 && !(rest != "" && rest[0] == item.letter)
    ensures Items(Written(item) + rest) == [item] + Items(rest)
  {
    if item.Lit? {
      var f := Written(item) + rest;
      if item.c == '%' { assert f[2..] == rest; } else { assert f[1..] == rest; }
    } else {
      DirectiveWritten(item.letter, item.count, rest);
    }
  }

  lemma DirectiveWritten(letter: char, count: nat, rest: string)
    requires letter != '%' && count >= 1 && (rest == "" || rest[0] != letter)
    ensures Items("%" + Repeated(letter, count) + rest) == [Dir(letter, count)] + Items(rest)
  {
    var letters := Repeated(letter, count - 1);
    RunOfRepeated(letter, count - 1, rest);
    assert Repeated(letter, count) == [letter] + letters;
    hide Run, Repeated;
    LettersCut(letter, letters, rest);
  }

  lemma LettersCut(letter: char, letters: string, rest: string)
    ensures var f := "%" + ([letter] + letters) + rest;
      f[0] == '%' && |f| > 1 && f[1] == letter && f[2..] == letters + rest && f[2 + |letters|..] == rest
  {
  }

  // ----- directives that print alike -----

  /** Different letters for one thing: `%D` twice, `%HH` and `%hh`, `%mm` and `%MM`, `%SS` and `%ss`. */
  lemma PrintedAlike(v: Local)
    requires IsPrintable(v)
    ensures Print(Dir('D', 2), v) == Print(Dir('d', 1), v)
    ensures Print(Dir('H', 2), v) == Print(Dir('h', 2), v) == Print(Dir('H', 1), v)
    ensures Print(Dir('m', 2), v) == Print(Dir('M', 1), v) && Print(Dir('M', 2), v) == Print(Dir('m', 1), v)
    ensures Print(Dir('S', 2), v) == Print(Dir('s', 2), v) == Print(Dir('S', 1), v)
  {
  }

  /** `%R` and `%T` are made of `%H`, `%M` and `%S`. */
  lemma ClocksComposed(v: Local)
    requires IsPrintable(v)
    ensures Print(Dir('R', 1), v) == Print(Dir('H', 1), v) + ":" + Print(Dir('M', 1), v)
    ensures Print(Dir('T', 1), v) == Print(Dir('R', 1), v) + ":" + Print(Dir('S', 1), v)
  {
    hide Padded;
  }

  /** `%F` is made of `%Y`, `%m` and `%d`, with an extra sign for years that have not four digits, and leading zeros for
      those that have fewer. */
  lemma IsoDateComposed(v: Local)
    requires IsPrintable(v)
    ensures var (y, year) := (v.dt.year, Print(Dir('Y', 1), v));
      Print(Dir('F', 1), v)
      == (if y < 0 then "-" + year else if y > 9999 then "+" + year else Zeros(if |year| < 4 then 4 - |year| else 0) + year)
         + ("-" + Print(Dir('m', 1), v) + "-" + Print(Dir('d', 1), v))
  {
    var (y, more) := (v.dt.year, "-" + Two(v.dt.mon) + "-" + Two(v.dt.day));
    assert IsoDate(v.dt) == (if y < 0 then "-" + Decimal(y) else if y <= 9999 then Padded(y, 4) else "+" + Decimal(y)) + more by {
      hide Padded, Decimal;
    }
    if 0 <= y <= 9999 { PaddedYear(y); }
    hide Padded, Decimal, Zeros, IsoDate;
  }

  lemma PaddedYear(y: nat)
    ensures Padded(y, 4) == Zeros(if |Decimal(y)| < 4 then 4 - |Decimal(y)| else 0) + Decimal(y)
  {
    assert Zeros(0) == "" && "" + Digits(y) == Digits(y);
  }

  // ----- `%F` and `%ss` -----

  /** `%F` prints two minus signs before a negative year, which the parser refuses. */
  lemma NegativeIsoDateUnreadable(v: Local, rest: string, st: FormatState)
    requires IsPrintable(v) && v.dt.year < 0
    ensures ParseItem(Dir('F', 1), Print(Dir('F', 1), v) + rest, st) == Fail
  {
    var s := IsoDate(v.dt) + rest;
    assert s[0] == '-' && s[1] == '-';
    hide IsoDate;
    assert ParseSigned(s, 1, 18) == Fail;
    assert ParseItem(Dir('Y', 1), s, st) == Fail;
  }

  lemma {:induction false} ParseSplit(a: seq<Item>, b: seq<Item>, s: string, st: FormatState)
    ensures ParseItems(a + b, s, st)
         == match ParseItems(a, s, st)
            case Fail => Fail
            case Got(st', rest) => ParseItems(b, rest, st')
  {
    if a == [] {
      assert a + b == b;
    } else {
      assert (a + b)[1..] == a[1..] + b;
      match ParseItem(a[0], s, st)
      case Fail =>
      case Got(st', rest) => ParseSplit(a[1..], b, rest, st');
    }
  }

  lemma {:induction false} RenderSplit(a: seq<Item>, b: seq<Item>, v: Local)
    requires IsPrintable(v)
    ensures Render(a + b, v) == Render(a, v) + Render(b, v)
    ensures YearsEnd(a + b, v, "") ==> YearsEnd(a, v, Render(b, v))
  {
    hide Print;
    if a == [] {
      assert a + b == b;
    } else {
      assert (a + b)[1..] == a[1..] + b;
      RenderSplit(a[1..], b, v);
      assert Render(a[1..] + b, v) + "" == Render(a[1..], v) + Render(b, v);
    }
  }

  lemma {:induction false} FirstOf(items: seq<Item>, x: Item) returns (k: nat)
    requires x in items
    ensures k < |items| && items[k] == x && x !in items[..k]
  {
    if items[0] == x {
      k := 0;
    } else {
      k := FirstOf(items[1..], x);
      k := k + 1;
      assert items[..k] == [items[0]] + items[1..][..k - 1];
    }
  }

  /** Items of which only `%F` is not readable, because the year is negative, are not read back. */
  lemma IsoDateStops(items: seq<Item>, v: Local)
    requires InRange(v) && v.dt.year < 0 && Dir('F', 1) in items && YearsEnd(items, v, "")
    requires forall i :: 0 <= i < |items| ==> IsReadable(items[i], v) || items[i] == Dir('F', 1)
    ensures ParseItems(items, Render(items, v), NOTHING_READ) == Fail
  {
    hide IsReadable, Knows, YearsEnd, Render, ParseItems, TellsAll, TellsZone;
    var k := FirstOf(items, Dir('F', 1));
    var (a, b) := (items[..k], items[k..]);
    assert items == a + b && b == [Dir('F', 1)] + items[k + 1..];
    RenderSplit(a, b, v);
    forall i | 0 <= i < |a|
      ensures IsReadable(a[i], v)
    {
      assert a[i] in items[..k];
    }
    NothingKnown(v);
    ItemsRead(a, v, NOTHING_READ, {}, false, Render(b, v));
    ParseSplit(a, b, Render(items, v), NOTHING_READ);
    FirstItem(Dir('F', 1), items[k + 1..], v);
    IsoDateFails(items[k + 1..], v, ParseItems(a, Render(items, v), NOTHING_READ).value);
  }

  lemma IsoDateFails(more: seq<Item>, v: Local, st: FormatState)
    requires IsPrintable(v) && v.dt.year < 0
    ensures ParseItems([Dir('F', 1)] + more, Print(Dir('F', 1), v) + Render(more, v), st) == Fail
  {
    NegativeIsoDateUnreadable(v, Render(more, v), st);
    hide Print, Render, ParseItem;
  }

  /** A format with `%F`, otherwise readable, is read back exactly for local years that are neither negative nor beyond
      the greatest valid one. */
  lemma IsoDateFormats(format: string, ts: int, offset: int)
    requires IsTimestamp(ts) && IsTimestamp(ts + offset) && -86400 < offset < 86400
    requires format != "" && format[0] == '%' && Dir('F', 1) in Items(format)
    requires var (items, v) := (Items(format), LocalOf(ts, offset));
      && (forall i :: 0 <= i < |items| ==> IsReadable(items[i], v) || items[i] == Dir('F', 1))
      && Covers(items, v) && (IsPrintable(v) ==> YearsEnd(items, v, ""))
    ensures var v := LocalOf(ts, offset);
      IsPrintable(v)
      && ParseTimestamp(ToText(format, v), format) == if 0 <= v.dt.year <= MAX_YEAR then Some(ts + TruncMod(offset, 60)) else None
  {
    hide Items, Render, ParseItems, TellsAll, TellsZone, Covers, InRange, IsPrintable, IsValidDateTime, ToDateTime, ToText,
      YearsEnd, ToTimestamp, ToTimeZone, OffsetOf, TruncMod;
    var v := LocalOf(ts, offset);
    LocalInRange(ts, offset);
    InRangeIsPrintable(v);
    if v.dt.year < 0 {
      PercentFirst(format, v);
      IsoDateStops(Items(format), v);
    } else {
      ParseOfToText(format, ts, offset);
    }
  }

  /** Of the modelled directives the parser knows just the readable ones and `%F`. */
  predicate IsKnown(item: Item, v: Local) {
    IsReadable(item, v) || item == Dir('F', 1)
  }

  /** What is printed at all is known to the parser, except the seconds of `%ss` and the line end of a repeated `%n`. */
  lemma SilentDirectives(item: Item, v: Local)
    requires IsPrintable(v) && item.Dir? && item.count >= 1 && IsModelled(item)
    ensures Print(item, v) == "" <==> !IsKnown(item, v) && item != Dir('s', 2) && item.letter != 'n'
  {
    hide Padded;
  }

  lemma {:induction false} UnknownFails(items: seq<Item>, x: Item, v: Local, s: string, st: FormatState)
    requires x in items && x.Dir? && x.count >= 1 && !IsKnown(x, v)
    ensures ParseItems(items, s, st) == Fail
  {
    if items[0] == x {
      assert ParseItem(items[0], s, st) == Fail;
    } else {
      assert x in items[1..];
      hide IsKnown;
      match ParseItem(items[0], s, st)
      case Fail =>
      case Got(st', rest) => UnknownFails(items[1..], x, v, rest, st');
    }
  }

  /** No text whatever matches a format with a directive the parser does not know. */
  lemma UnknownUnreadable(format: string, x: Item, v: Local, data: string)
    requires x in Items(format) && x.Dir? && x.count >= 1 && !IsKnown(x, v)
    ensures ParseTimestamp(data, format) == None
  {
    hide Items, IsKnown;
    UnknownFails(Items(format), x, v, data, NOTHING_READ);
  }

  /** `%ss` prints seconds, but is no such directive. */
  lemma DoubleSecondsUnreadable(format: string, data: string)
    requires Dir('s', 2) in Items(format)
    ensures ParseTimestamp(data, format) == None
  {
    hide Items;
    UnknownUnreadable(format, Dir('s', 2), Local(DateTime(0, 1, 1, 0, 0, 0, 0), 0), data);
  }
}
