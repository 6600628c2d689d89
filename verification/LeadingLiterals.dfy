/** A literal printed twice before the year: exactly when the parser still gives back the timestamp. */
module LeadingLiterals {
  import opened Words
  import opened Calendar
  import opened FastDate
  import opened Timestamps
  import opened Text
  import opened Formats
  import opened FormatRoundTrip
  import opened FormatTheorem

  // ----- what `%Y` reads of the doubled character and the year behind it -----

  function DoubledYear(c: char, y: int): Option<int> {
    if IsDigit(c) then Some(if y >= 0 then DigitValue(c) * Pow10(|Digits(y)|) + y else DigitValue(c))
    else if (c == '+' || c == '-') && y >= 0 then Some(if c == '-' then -y else y)
    else None
  }

  function AfterYear(c: char, y: int, tail: string): string {
    if IsDigit(c) && y < 0 then Decimal(y) + tail else tail
  }

  lemma DoubledYearRead(c: char, y: int, tail: string)
    requires -YEAR_LIMIT <= y <= YEAR_LIMIT && !StartsWithDigit(tail)
    ensures ParseSigned([c] + (Decimal(y) + tail), 1, 18)
         == if DoubledYear(c, y).None? then Fail else Got(DoubledYear(c, y).value, AfterYear(c, y, tail))
  {
    hide ParseSigned, ParseUnsigned, Digits, ValueOf, Pow10;
    var s := [c] + (Decimal(y) + tail);
    assert s[1..] == Decimal(y) + tail;
    if y >= 0 {
      SeventeenDigits(y);
      ValueOfDigits(y);
      if IsDigit(c) {
        ValueOfPrefixed(c, Digits(y));
        assert s == ([c] + Digits(y)) + tail;
        SignedReadsPlain([c] + Digits(y), tail, 1, 18);
      } else if c == '+' || c == '-' {
        SignedReadsSign(s, Digits(y), tail, 1, 18);
      } else {
        NoNumber(s);
      }
    } else if IsDigit(c) {
      ValueOfPrefixed(c, "");
      OneDigit(c);
      assert s == [c] + (Decimal(y) + tail) && [c] + "" == [c];
      SignedReadsPlain([c], Decimal(y) + tail, 1, 18);
    } else {
      NoNumber(s);
    }
  }

  lemma OneDigit(c: char)
    requires IsDigit(c)
    ensures AllDigits([c]) && ValueOf([c]) == DigitValue(c)
  {
    assert [c][..0] == "";
  }

  /** Neither a digit nor a sign before a digit. */
  lemma NoNumber(s: string)
    requires s != "" && !IsDigit(s[0])
    requires s[0] == '+' || s[0] == '-' ==> !StartsWithDigit(s[1..])
    ensures ParseSigned(s, 1, 18) == Fail
  {
  }

  /** The first literal takes one of the two characters, `%Y` starts at the other. */
  lemma DoubledParse(c: char, more: string, v: Local)
    requires c != '%' && IsPrintable(v) && AllReadable(Items([c] + "%Y" + more), v)
    ensures var (format, items) := ([c] + "%Y" + more, Items([c] + "%Y" + more));
      && |items| >= 2 && items[0] == Lit(c) && items[1] == Dir('Y', 1)
      && var tail := Render(items[2..], v);
         ParseItems(items, ToText(format, v), NOTHING_READ)
         == match ParseSigned([c] + (Decimal(v.dt.year) + tail), 1, 18)
            case Fail => Fail
            case Got(w, rest) => ParseItems(items[2..], rest, NOTHING_READ.(year := Some(w)))
  {
    var (format, items) := ([c] + "%Y" + more, Items([c] + "%Y" + more));
    LeadingItems(c, more);
    LeadingLiteralTwice(format, v);
    LiteralThenItems(format);
    hide Items, ToText, Render;
    assert items[1..] == Items(format[1..]) && items[1..] == [Dir('Y', 1)] + items[2..] by {
      assert IsReadable(items[1], v);
    }
    FirstItem(Dir('Y', 1), items[2..], v);
    var tail := Render(items[2..], v);
    assert [c, c] + (Decimal(v.dt.year) + tail) == [c] + ([c] + (Decimal(v.dt.year) + tail));
    LiteralTaken(items, c, [c] + (Decimal(v.dt.year) + tail), NOTHING_READ);
    YearFirst(items[2..], [c] + (Decimal(v.dt.year) + tail));
  }

  lemma LeadingItems(c: char, more: string)
    requires c != '%'
    ensures var items := Items([c] + "%Y" + more);
      |items| >= 2 && items[0] == Lit(c) && items[1] == Dir('Y', 1 + Run(more, 'Y'))
  {
    var format := [c] + "%Y" + more;
    var rest := "%Y" + more;
    assert format[1..] == rest && rest[2..] == more;
    assert Items(rest)[0] == Dir('Y', 1 + Run(more, 'Y'));
  }

  lemma YearFirst(items: seq<Item>, s: string)
    ensures ParseItems([Dir('Y', 1)] + items, s, NOTHING_READ)
         == match ParseSigned(s, 1, 18)
            case Fail => Fail
            case Got(w, rest) => ParseItems(items, rest, NOTHING_READ.(year := Some(w)))
  {
    assert ([Dir('Y', 1)] + items)[1..] == items;
    hide ParseSigned;
    assert ParseItem(Dir('Y', 1), s, NOTHING_READ) == Assign(NOTHING_READ, YEAR, ParseSigned(s, 1, 18));
  }

  // ----- a field once read stays -----

  /** The field `f` is `w`; the day holds what two digits can, the zone what the parser lets pass. */
  predicate Holds(st: FormatState, f: Field, w: int) {
    FieldOf(st, f) == Some(w) && (st.day.Some? ==> st.day.value <= 99) && (st.tz.Some? ==> IsValidTimeZone(st.tz.value))
  }

  lemma AssignKeeps(st: FormatState, f: Field, w: int, g: Field, p: Parse<int>)
    requires Holds(st, f, w) && (p.Got? && g != YEAR ==> p.value <= 99)
    ensures Assign(st, g, p).Got? ==> Holds(Assign(st, g, p).value, f, w)
  {
  }

  lemma ZoneIsValid(s: string)
    ensures ParseZone(s).Got? ==> IsValidTimeZone(ParseZone(s).value)
  {
    hide ParseExact2;
  }

  lemma {:induction false} ItemKeeps(item: Item, s: string, st: FormatState, f: Field, w: int)
    requires Holds(st, f, w)
    ensures ParseItem(item, s, st).Got? ==> Holds(ParseItem(item, s, st).value, f, w)
    decreases if item.Dir? && IsComposite(item.letter) then 1 else 0, 0, 1
  {
    if item.Dir? {
      assert ParseExact2(s).Got? ==> ParseExact2(s).value <= 99;
      hide ParseExact2, ParseSigned, ParseZone, Assign, Holds;
      match item.letter
      case 'F' => ItemsKeep(DATE_ITEMS, s, st, f, w);
      case 'R' => ItemsKeep(MINUTE_ITEMS, s, st, f, w);
      case 'T' => ItemsKeep(TIME_ITEMS, s, st, f, w);
      case 'Y' => AssignKeeps(st, f, w, YEAR, ParseSigned(s, 1, 18));
      case 'z' => ZoneKept(item, s, st, f, w);
      case _ =>
        forall g | g != YEAR
          ensures Assign(st, g, ParseExact2(s)).Got? ==> Holds(Assign(st, g, ParseExact2(s)).value, f, w)
        {
          AssignKeeps(st, f, w, g, ParseExact2(s));
        }
    }
  }

  lemma ZoneKept(item: Item, s: string, st: FormatState, f: Field, w: int)
    requires item.Dir? && item.letter == 'z' && Holds(st, f, w)
    ensures ParseItem(item, s, st).Got? ==> Holds(ParseItem(item, s, st).value, f, w)
  {
    ZoneIsValid(s);
    hide ParseZone;
  }

  /** Whatever follows, a field keeps the value it was read with, or the text is refused. */
  lemma {:induction false} ItemsKeep(items: seq<Item>, s: string, st: FormatState, f: Field, w: int)
    requires Holds(st, f, w)
    ensures ParseItems(items, s, st).Got? ==> Holds(ParseItems(items, s, st).value, f, w)
    decreases if IsFlat(items) then 0 else 1, |items|, 2
  {
    if items != [] {
      assert IsFlat(items) ==> IsFlat(items[1..]) && !(items[0].Dir? && IsComposite(items[0].letter));
      ItemKeeps(items[0], s, st, f, w);
      hide ParseItem, Holds;
      match ParseItem(items[0], s, st)
      case Fail =>
      case Got(st', rest) => ItemsKeep(items[1..], rest, st', f, w);
    }
  }

  // ----- timestamps of other years are other timestamps -----

  /** Where the timestamp of valid fields lies, also when the date is valid only because it can be read the other way
      round. */
  lemma FieldsTimestamp(dt: DateTime)
    requires IsValidDateTime(dt) && dt.day <= 99 && dt.ms == 0
    ensures ToTimestamp(dt).Some? && JanuaryFirst(dt.year) * SEC_PER_DAY <= ToTimestamp(dt).value
    ensures dt.year < 0 ==> ToTimestamp(dt).value < JanuaryFirst(dt.year + 1) * SEC_PER_DAY
  {
    IsValidDateExactly(dt.year, dt.mon, dt.day);
    hide IsValidDate, DaysFromDate, DayNumber;
    assert dt.(ms := 0) == dt;
    if IsDate(DateOf(dt)) && MIN_YEAR <= dt.year <= MAX_YEAR {
      ToTimestampCorrect(dt);
      DayNumberOrders(DateOf(dt), Date(dt.year, 1, 1));
      DayNumberOrders(DateOf(dt), Date(dt.year + 1, 1, 1));
    } else {
      LongMonth(dt);
    }
  }

  lemma LongMonth(dt: DateTime)
    requires 1 <= dt.year <= 31 && 1 <= dt.mon <= 12 && 1 <= dt.day <= 99
    ensures DaysFromDate(dt.year, dt.mon, dt.day) >= JanuaryFirst(dt.year)
  {
    hide DaysFromDate, MarchFirst;
    DaysFromDateClosed(dt.year, dt.mon, dt.day);
    MarchFirstStep(dt.year - 1);
  }

  lemma LocalYear(t: int)
    requires IsTimestamp(t)
    ensures var y := ToDateTime(t).year;
      JanuaryFirst(y) * SEC_PER_DAY <= t < JanuaryFirst(y + 1) * SEC_PER_DAY
  {
    hide ToDateTime, DayByDay, JanuaryFirst;
    ToDateTimeCorrect(t);
    YearOfDay(t / SEC_PER_DAY, ToDateTime(t).year);
  }

  /** At least a whole year lies between a moment of year `w` and one of year `y`. */
  predicate Apart(w: int, y: int) {
    w >= y + 2 || (w < 0 && w <= y - 2)
  }

  lemma OtherYear(st: FormatState, w: int, ts: int, offset: int)
    requires Holds(st, YEAR, w) && IsTimestamp(ts + offset) && -86400 < offset < 86400 && Apart(w, LocalOf(ts, offset).dt.year)
    ensures TimestampOf(st) != Some(ts + TruncMod(offset, 60))
  {
    hide ToTimestamp, IsValidDateTime, JanuaryFirst, ToDateTime, TruncMod, ToTimeZone;
    var y := LocalOf(ts, offset).dt.year;
    if r :| Finalize(st) == Some(r) {
      FieldsTimestamp(r.0);
      LocalYear(ts + offset);
      TimeZoneKeepsMinutes(offset);
      YearsApart(w, y, ToTimestamp(r.0).value, ts + offset);
    }
  }

  lemma YearsApart(w: int, y: int, t: int, l: int)
    requires Apart(w, y) && JanuaryFirst(y) * SEC_PER_DAY <= l < JanuaryFirst(y + 1) * SEC_PER_DAY
    requires JanuaryFirst(w) * SEC_PER_DAY <= t && (w < 0 ==> t < JanuaryFirst(w + 1) * SEC_PER_DAY)
    ensures t - l > 3 * SEC_PER_DAY || l - t > 3 * SEC_PER_DAY
  {
    hide JanuaryFirst;
    if w >= y + 2 { JanuaryFirstGrows(y + 1, w); } else { JanuaryFirstGrows(w + 1, y); }
  }

  // ----- a leading `0` before year -1 -----

  /** The two characters too many are never made good: each item that takes them leaves two more. */
  lemma {:induction false} TwoTooMany(items: seq<Item>, v: Local, st: FormatState)
    requires AllReadable(items, v) && InRange(v) && v.dt.year == -1 && st.year == Some(0)
    ensures var p := ParseItems(items, "-1" + Render(items, v), st); p.Fail? || p.rest != ""
  {
    if items == [] {
      assert ParseItems(items, "-1" + "", st) == Got(st, "-1" + "");
    } else {
      var (item, more) := (items[0], items[1..]);
      assert IsPrintable(v) && Render(items, v) == Print(item, v) + Render(more, v);
      hide ParseItems, Render, Print, InRange, IsPrintable, IsReadable;
      if item == Lit('-') {
        assert "-1" + Render(items, v) == "-" + ("1-" + Render(more, v)) by { LiteralPrint('-', v); }
        LiteralTaken(items, '-', "1-" + Render(more, v), st);
        OneTooMany(more, v, st);
      } else {
        NothingAtMinus(item, v, Render(more, v), st);
        FirstFails(items, "-1" + Render(items, v), st);
      }
    }
  }

  lemma {:induction false} OneTooMany(items: seq<Item>, v: Local, st: FormatState)
    requires AllReadable(items, v) && InRange(v) && v.dt.year == -1 && st.year == Some(0)
    ensures var p := ParseItems(items, "1-" + Render(items, v), st); p.Fail? || p.rest != ""
  {
    if items == [] {
      assert ParseItems(items, "1-" + "", st) == Got(st, "1-" + "");
    } else {
      var (item, more) := (items[0], items[1..]);
      assert IsPrintable(v) && Render(items, v) == Print(item, v) + Render(more, v);
      hide ParseItems, Render, Print, InRange, IsPrintable, IsReadable;
      if item == Lit('1') {
        assert "1-" + Render(items, v) == "1" + ("-1" + Render(more, v)) by { LiteralPrint('1', v); }
        LiteralTaken(items, '1', "-1" + Render(more, v), st);
        TwoTooMany(more, v, st);
      } else {
        NothingAtOne(item, v, Render(more, v), st);
        FirstFails(items, "1-" + Render(items, v), st);
      }
    }
  }

  lemma LiteralPrint(c: char, v: Local)
    requires IsPrintable(v)
    ensures Print(Lit(c), v) == [c]
  {
  }

  lemma FirstFails(items: seq<Item>, s: string, st: FormatState)
    requires items != [] && ParseItem(items[0], s, st) == Fail
    ensures ParseItems(items, s, st) == Fail
  {
    hide ParseItem;
  }

  lemma NothingAtMinus(item: Item, v: Local, tail: string, st: FormatState)
    requires IsReadable(item, v) && item != Lit('-') && InRange(v) && v.dt.year == -1 && st.year == Some(0)
    ensures ParseItem(item, "-1" + (Print(item, v) + tail), st) == Fail
  {
    var s := "-1" + (Print(item, v) + tail);
    assert s[0] == '-' && s[1] == '1';
    if item == Dir('Y', 1) {
      YearAtMinus(tail, st);
    } else if item == Dir('z', 1) {
      ZoneAtMinus(s, ZoneText(v.offset), tail);
      hide ParseZone, ZoneText;
    } else {
      hide ParseSigned, ParseZone, Print;
    }
  }

  /** A second `%Y` reads -1, but the year is known to be 0. */
  lemma YearAtMinus(tail: string, st: FormatState)
    requires st.year == Some(0)
    ensures ParseItem(Dir('Y', 1), "-1" + (Decimal(-1) + tail), st) == Fail
  {
    assert Decimal(-1) == "-1" by { assert Digits(1) == "1"; }
    SignedReadsDecimal(-1, Decimal(-1) + tail);
    hide ParseSigned, Decimal;
  }

  lemma ZoneAtMinus(s: string, zone: string, tail: string)
    requires s == "-1" + (zone + tail) && |zone| > 0 && !IsDigit(zone[0])
    ensures ParseZone(s) == Fail
  {
    assert s[2] == zone[0];
  }

  lemma NothingAtOne(item: Item, v: Local, tail: string, st: FormatState)
    requires IsReadable(item, v) && item != Lit('1') && InRange(v) && v.dt.year == -1 && st.year == Some(0)
    ensures ParseItem(item, "1-" + (Print(item, v) + tail), st) == Fail
  {
    var s := "1-" + (Print(item, v) + tail);
    assert s[0] == '1' && s[1] == '-';
  }

  // ----- the exact condition -----

  /** The doubled character leaves the year as it is. */
  predicate KeepsYear(c: char, y: int) {
    ((c == '0' || c == '+') && y >= 0) || (c == '-' && y == 0)
  }

  lemma YearKept(c: char, y: int)
    ensures KeepsYear(c, y) <==> DoubledYear(c, y) == Some(y) && !(IsDigit(c) && y < 0)
  {
    if IsDigit(c) && y >= 0 {
      assert DigitValue(c) * Pow10(|Digits(y)|) == 0 <==> DigitValue(c) == 0;
    }
  }

  /** Every other year that is read is a whole year away, but for a `0` in front of year -1. */
  lemma OtherYearApart(c: char, y: int)
    requires DoubledYear(c, y).Some? && !KeepsYear(c, y)
    ensures Apart(DoubledYear(c, y).value, y) || (c == '0' && y == -1 && DoubledYear(c, y) == Some(0))
  {
    if IsDigit(c) && y >= 0 {
      var (d, p) := (DigitValue(c), Pow10(|Digits(y)| - 1));
      assert d >= 1;
      assert d * (10 * p) >= 10 by { assert (d - 1) * (10 * p) >= 0; }
    }
  }

  /** The year is read right, and with it everything else. */
  lemma RightYear(format: string, tail: seq<Item>, ts: int, offset: int)
    requires IsTimestamp(ts) && IsTimestamp(ts + offset) && -86400 < offset < 86400
    requires var (items, v) := (Items(format), LocalOf(ts, offset));
      |items| >= 2 && items[1] == Dir('Y', 1) && items[0].Lit? && tail == items[2..] && AllReadable(items, v) && Covers(items, v)
      && (IsPrintable(v) ==> YearsEnd(tail, v, ""))
    requires var v := LocalOf(ts, offset);
      IsPrintable(v)
      && ParseItems(Items(format), ToText(format, v), NOTHING_READ)
         == ParseItems(tail, Render(tail, v), NOTHING_READ.(year := Some(v.dt.year)))
    ensures var v := LocalOf(ts, offset);
      ParseTimestamp(ToText(format, v), format) == if v.dt.year <= MAX_YEAR then Some(ts + TruncMod(offset, 60)) else None
  {
    hide Items, Render, ParseItems, TellsAll, TellsZone, Covers, InRange, IsPrintable, IsValidDateTime, ToDateTime, ToText,
      YearsEnd, ToTimestamp, ToTimeZone, OffsetOf, TruncMod, ParseTimestamp;
    var (items, v) := (Items(format), LocalOf(ts, offset));
    LocalInRange(ts, offset);
    var st := NOTHING_READ.(year := Some(v.dt.year));
    assert Knows(st, v, {YEAR}, false);
    ItemsRead(tail, v, st, {YEAR}, false, "");
    assert Render(tail, v) + "" == Render(tail, v);
    ToldByTail(items);
    ParsedTimestamp(format, ToText(format, v), v);
    if v.dt.year <= MAX_YEAR { BackToTimestamp(ts, offset); }
  }

  lemma ToldByTail(items: seq<Item>)
    requires |items| >= 2 && items[0].Lit? && items[1] == Dir('Y', 1)
    ensures {} + TellsAll(items) == {YEAR} + TellsAll(items[2..])
    ensures (false || TellsZone(items)) == (false || TellsZone(items[2..]))
  {
    assert items[1..][1..] == items[2..];
    assert TellsAll(items) == Tells(items[0]) + (Tells(items[1]) + TellsAll(items[2..]));
    if TellsZone(items) {
      var i :| 0 <= i < |items| && items[i].Dir? && items[i].letter == 'z';
      assert items[2..][i - 2] == items[i];
    }
  }

  lemma YearInLimit(v: Local)
    requires InRange(v)
    ensures -YEAR_LIMIT <= v.dt.year <= YEAR_LIMIT
  {
  }

  lemma TailAfterYear(items: seq<Item>, v: Local)
    requires |items| >= 2 && items[0].Lit? && items[1] == Dir('Y', 1) && IsPrintable(v) && YearsEnd(items, v, "")
    ensures !StartsWithDigit(Render(items[2..], v)) && YearsEnd(items[2..], v, "")
  {
    assert items[1..][1..] == items[2..] && Render(items[2..], v) + "" == Render(items[2..], v);
    hide Render;
    assert YearsEnd(items[1..], v, "");
  }

  lemma TailReadable(items: seq<Item>, v: Local)
    requires |items| >= 2 && AllReadable(items, v)
    ensures AllReadable(items[2..], v)
  {
  }

  lemma AfterKeptYear(c: char, y: int, tail: string)
    ensures KeepsYear(c, y) ==> AfterYear(c, y, tail) == tail
    ensures c == '0' && y == -1 ==> AfterYear(c, y, tail) == "-1" + tail
  {
    assert Digits(1) == "1";
  }

  /** A wrong year is never made good by what follows. */
  lemma WrongYear(format: string, text: string, tail: seq<Item>, rest: string, w: int, ts: int, offset: int)
    requires IsTimestamp(ts + offset) && -86400 < offset < 86400
    requires ParseItems(Items(format), text, NOTHING_READ) == ParseItems(tail, rest, NOTHING_READ.(year := Some(w)))
    requires var v := LocalOf(ts, offset);
      Apart(w, v.dt.year)
      || (w == 0 && v.dt.year == -1 && AllReadable(tail, v) && InRange(v) && IsPrintable(v) && rest == "-1" + Render(tail, v))
    ensures ParseTimestamp(text, format) != Some(ts + TruncMod(offset, 60))
  {
    hide Items, Render, ParseItems, InRange, IsPrintable, ToDateTime, TruncMod, Apart, AllReadable, Finalize, ToTimestamp, OffsetOf;
    var v := LocalOf(ts, offset);
    var st := NOTHING_READ.(year := Some(w));
    var p := ParseItems(tail, rest, st);
    assert p.Got? && p.rest == "" ==> ParseTimestamp(text, format) == TimestampOf(p.value);
    if Apart(w, v.dt.year) {
      ItemsKeep(tail, rest, st, YEAR, w);
      if p.Got? { OtherYear(p.value, w, ts, offset); }
    } else {
      TwoTooMany(tail, v, st);
    }
  }

  /** A format that begins with a literal and then `%Y`, otherwise as in `ParseOfToText`: it is read back exactly up to the
      greatest valid year and only after a `0` or `+` before a year that is not negative, or a `-` before year 0. */
  lemma LeadingLiteralBeforeYear(c: char, more: string, ts: int, offset: int)
    requires c != '%' && IsTimestamp(ts) && IsTimestamp(ts + offset) && -86400 < offset < 86400
    requires var (items, v) := (Items([c] + "%Y" + more), LocalOf(ts, offset));
      AllReadable(items, v) && Covers(items, v) && (IsPrintable(v) ==> YearsEnd(items, v, ""))
    ensures var (format, v) := ([c] + "%Y" + more, LocalOf(ts, offset));
      IsPrintable(v)
      && (ParseTimestamp(ToText(format, v), format) == Some(ts + TruncMod(offset, 60))
          <==> v.dt.year <= MAX_YEAR && (((c == '0' || c == '+') && v.dt.year >= 0) || (c == '-' && v.dt.year == 0)))
  {
    hide Items, Render, ParseItems, Covers, InRange, IsPrintable, ToDateTime, ToText, TruncMod, Apart, DoubledYear,
      AfterYear, Holds, AllReadable, Finalize, ToTimestamp;
    var (format, v) := ([c] + "%Y" + more, LocalOf(ts, offset));
    var (items, y) := (Items(format), v.dt.year);
    LocalInRange(ts, offset);
    InRangeIsPrintable(v);
    YearInLimit(v);
    DoubledParse(c, more, v);
    var tail := Render(items[2..], v);
    TailAfterYear(items, v);
    DoubledYearRead(c, y, tail);
    YearKept(c, y);
    AfterKeptYear(c, y, tail);
    if KeepsYear(c, y) {
      RightYear(format, items[2..], ts, offset);
    } else if w :| DoubledYear(c, y) == Some(w) {
      OtherYearApart(c, y);
      TailReadable(items, v);
      WrongYear(format, ToText(format, v), items[2..], AfterYear(c, y, tail), w, ts, offset);
    }
  }

  // ----- a wrong timestamp -----

  const MINUS_DATE := "-%Y-%m-%d"
  const MONTH_DAY_ITEMS := [Lit('-'), Dir('m', 1), Lit('-'), Dir('d', 1)]

  lemma LiteralThenDirective(c: char, letter: char, rest: string)
    requires c != '%' && letter != '%' && (rest == "" || rest[0] != letter)
    ensures Items([c, '%', letter] + rest) == [Lit(c), Dir(letter, 1)] + Items(rest)
  {
    var f := [c, '%', letter] + rest;
    assert f[1..][2..] == rest;
    assert Items(f[1..]) == [Dir(letter, 1)] + Items(rest);
  }

  lemma MinusDateItems()
    ensures Items(MINUS_DATE) == [Lit('-'), Dir('Y', 1)] + MONTH_DAY_ITEMS && MINUS_DATE == "-" + "%Y" + "-%m-%d"
  {
    assert Items("") == [];
    hide Items;
    LiteralThenDirective('-', 'd', "");
    assert ['-', '%', 'd'] + "" == "-%d";
    LiteralThenDirective('-', 'm', "-%d");
    assert ['-', '%', 'm'] + "-%d" == "-%m-%d";
    LiteralThenDirective('-', 'Y', "-%m-%d");
    assert ['-', '%', 'Y'] + "-%m-%d" == MINUS_DATE;
  }

  lemma MonthDayRead(w: Local)
    requires InRange(w)
    ensures var st := NOTHING_READ.(year := Some(w.dt.year));
      Reads(ParseItems(MONTH_DAY_ITEMS, Render(MONTH_DAY_ITEMS, w), st), "", w, {YEAR} + TellsAll(MONTH_DAY_ITEMS), TellsZone(MONTH_DAY_ITEMS))
  {
    hide Render, ParseItems, TellsAll, TellsZone, YearsEnd;
    var st := NOTHING_READ.(year := Some(w.dt.year));
    assert Knows(st, w, {YEAR}, false);
    NoYears(MONTH_DAY_ITEMS, w, "");
    hide Knows;
    ItemsRead(MONTH_DAY_ITEMS, w, st, {YEAR}, false, "");
    assert Render(MONTH_DAY_ITEMS, w) + "" == Render(MONTH_DAY_ITEMS, w);
  }

  lemma MonthDayCovers(items: seq<Item>)
    requires items == [Lit('-'), Dir('Y', 1)] + MONTH_DAY_ITEMS
    ensures {YEAR, MONTH, DAY} <= TellsAll(items)
  {
    var v := Local(DateTime(1, 1, 1, 0, 0, 0, 0), 0);
    MonthDayText(v);
    ToldByTail(items);
    assert items[2..] == MONTH_DAY_ITEMS;
  }

  function Midnight(d: Date): Local {
    Local(DateTime(d.year, d.month, d.day, 0, 0, 0, 0), 0)
  }

  function Mirrored(d: Date): Date {
    d.(year := -d.year)
  }

  lemma MirroredIsValid(d: Date)
    requires IsDate(d) && 0 < d.year <= MAX_YEAR
    ensures InRange(Midnight(d)) && InRange(Midnight(Mirrored(d)))
    ensures IsDate(Mirrored(d)) && IsValidDateTime(Midnight(Mirrored(d)).dt)
  {
    MirroredLeap(d.year);
    var m := Mirrored(d);
    hide IsLeap, IsValidDate;
    IsValidDateExactly(m.year, m.month, m.day);
  }

  lemma MirroredLeap(y: int)
    ensures IsLeap(-y) <==> IsLeap(y)
  {
  }

  lemma MidnightTimestamp(d: Date)
    requires IsDate(d) && IsValidDateTime(Midnight(d).dt) && -YEAR_LIMIT <= d.year < 0
    ensures ToTimestamp(Midnight(d).dt) == Some(DayNumber(d) * SEC_PER_DAY)
  {
    hide DaysFromDate, DayNumber, IsValidDateTime;
    var dt := Midnight(d).dt;
    assert dt.day <= 31 && dt.(ms := 0) == dt && DateOf(dt) == d;
    hide IsDate;
    ToTimestampCorrect(dt);
  }

  /** With a minus sign before the year, a date after year 0 is taken for the same day of the year with the opposite
      sign: the parser succeeds with a wrong timestamp. */
  lemma MinusDateMisread(d: Date)
    requires IsDate(d) && 0 < d.year <= MAX_YEAR
    ensures IsPrintable(Midnight(d)) && IsDate(Mirrored(d))
    ensures ParseTimestamp(ToText(MINUS_DATE, Midnight(d)), MINUS_DATE) == Some(DayNumber(Mirrored(d)) * SEC_PER_DAY)
  {
    hide Items, Render, ParseItems, TellsAll, TellsZone, ToText, ParseTimestamp, DayNumber, Digits, IsDate, IsValidDateTime, ToTimestamp;
    var (v, w) := (Midnight(d), Midnight(Mirrored(d)));
    MirroredIsValid(d);
    MinusDateItems();
    var (items, tail) := (Items(MINUS_DATE), Items(MINUS_DATE)[2..]);
    assert tail == MONTH_DAY_ITEMS;
    DoubledParse('-', "-%m-%d", v);
    MonthDayText(v);
    MonthDayText(w);
    DoubledYearRead('-', d.year, Render(tail, v));
    MonthDayRead(w);
    ToldByTail(items);
    MonthDayCovers(items);
    ParsedTimestamp(MINUS_DATE, ToText(MINUS_DATE, v), w);
    MidnightTimestamp(Mirrored(d));
  }
}
