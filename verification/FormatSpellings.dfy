/** Texts that `to_string` never prints but the format parser reads all the same: a colon in the zone, a sign and leading
    zeros before the year. */
module FormatSpellings {
  import opened Words
  import opened Timestamps
  import opened Text
  import opened Formats
  import opened FormatRoundTrip
  import opened FormatTheorem

  // ----- zones -----

  /** With or without a colon, `hh` and `mm` are so many hours and minutes ahead of UTC, or behind it. */
  lemma ZoneForms(sign: char, hour: nat, min: nat, rest: string)
    requires (sign == '+' || sign == '-') && hour < 100 && min < 100
    ensures var plain := ParseZone([sign] + (Two(hour) + (Two(min) + rest)));
      && ParseZone([sign] + (Two(hour) + (":" + (Two(min) + rest)))) == plain
      && (plain.Got? <==> hour <= 23 && min <= 59)
      && (plain.Got? ==> plain.rest == rest
                         && OffsetOf(plain.value) == if sign == '+' then 3600 * hour + 60 * min else -(3600 * hour + 60 * min))
  {
    ZoneAfterHour(sign, hour, min, "", rest);
    ZoneAfterHour(sign, hour, min, ":", rest);
    assert "" + (Two(min) + rest) == Two(min) + rest;
    hide Padded, ParseZone;
  }

  lemma ZoneAfterHour(sign: char, hour: nat, min: nat, colon: string, rest: string)
    requires (sign == '+' || sign == '-') && hour < 100 && min < 100 && (colon == "" || colon == ":")
    ensures ParseZone([sign] + (Two(hour) + (colon + (Two(min) + rest))))
         == if hour <= 23 && min <= 59 then Got(TimeZone(hour, min, sign == '+'), rest) else Fail
  {
    var tail := colon + (Two(min) + rest);
    var s := [sign] + (Two(hour) + tail);
    TwoDigitsExplicit(hour);
    TwoDigitsExplicit(min);
    Exact2ReadsTwoDigits(hour, tail);
    Exact2ReadsTwoDigits(min, rest);
    hide ParseExact2, Padded;
    assert s[1..] == Two(hour) + tail && |s| >= 5;
    if colon == ":" {
      assert tail[1..] == Two(min) + rest;
    } else {
      assert tail == Two(min) + rest && tail[0] == DigitChar(min / 10);
    }
  }

  function ColonZone(offset: int): string {
    var tz := ToTimeZone(offset);
    [if tz.isPositive then '+' else '-'] + (Two(tz.hour) + (":" + Two(tz.min)))
  }

  lemma ColonZoneRead(offset: int, rest: string)
    requires -86400 < offset < 86400
    ensures ParseZone(ColonZone(offset) + rest) == Got(ToTimeZone(offset), rest)
  {
    var tz := ToTimeZone(offset);
    TimeZoneKeepsMinutes(offset);
    var sign := if tz.isPositive then '+' else '-';
    ZoneAfterHour(sign, tz.hour, tz.min, ":", rest);
    hide Padded, ParseZone, ToTimeZone;
    assert ColonZone(offset) + rest == [sign] + (Two(tz.hour) + (":" + (Two(tz.min) + rest)));
  }

  // ----- years -----

  function Magnitude(y: int): nat {
    if y < 0 then -y else y
  }

  function YearText(y: int, plus: bool, zeros: nat): string {
    (if y < 0 then "-" else if plus then "+" else "") + (Zeros(zeros) + Digits(Magnitude(y)))
  }

  /** A year with an optional plus sign and leading zeros, up to eighteen digits in all. */
  ghost predicate IsYearText(s: string, y: int) {
    exists plus, zeros: nat :: s == YearText(y, plus, zeros) && zeros + |Digits(Magnitude(y))| <= 18
  }

  lemma YearTextRead(s: string, y: int, rest: string)
    requires IsYearText(s, y) && !StartsWithDigit(rest)
    ensures ParseSigned(s + rest, 1, 18) == Got(y, rest)
  {
    var plus, zeros: nat :| s == YearText(y, plus, zeros) && zeros + |Digits(Magnitude(y))| <= 18;
    var d := Zeros(zeros) + Digits(Magnitude(y));
    FilledDigits(Magnitude(y), zeros);
    hide Digits, Zeros, ValueOf, ParseSigned, IsYearText;
    if y < 0 || plus {
      SignThenDigits(s, if y < 0 then '-' else '+', d, rest);
    } else {
      assert s == "" + d == d;
      SignedReadsPlain(d, rest, 1, 18);
    }
  }

  lemma SignThenDigits(s: string, sign: char, d: string, rest: string)
    requires (sign == '+' || sign == '-') && s == [sign] + d && AllDigits(d) && 1 <= |d| <= 18 && !StartsWithDigit(rest)
    ensures ParseSigned(s + rest, 1, 18) == Got(if sign == '-' then -ValueOf(d) else ValueOf(d), rest)
  {
    hide ValueOf, ParseSigned;
    assert (s + rest)[0] == sign && (s + rest)[1..] == d + rest;
    SignedReadsSign(s + rest, d, rest, 1, 18);
  }

  lemma FilledDigits(n: nat, zeros: nat)
    ensures var d := Zeros(zeros) + Digits(n);
      AllDigits(d) && |d| >= 1 && ValueOf(d) == n
  {
    ValueOfDigits(n);
    ValueOfZeros(zeros, Digits(n));
    hide Digits, Zeros, ValueOf;
  }

  // ----- whole texts -----

  function DateText(year: string, v: Local): string
    requires IsPrintable(v)
  {
    year + ("-" + Two(v.dt.mon) + "-" + Two(v.dt.day))
  }

  /** The text is what the directive prints, or another way to write the same. */
  ghost predicate Spells(text: string, item: Item, v: Local)
    requires IsPrintable(v)
  {
    || (IsReadable(item, v) && text == Print(item, v))
    || (item == Dir('z', 1) && text == ColonZone(v.offset))
    || (item == Dir('Y', 1) && IsYearText(text, v.dt.year))
    || (item == Dir('F', 1) && exists year :: IsYearText(year, v.dt.year) && text == DateText(year, v))
  }

  lemma SpelledDateRead(year: string, v: Local, st: FormatState, known: set<Field>, zone: bool, rest: string)
    requires IsYearText(year, v.dt.year) && InRange(v) && Knows(st, v, known, zone)
    ensures Reads(ParseItem(Dir('F', 1), DateText(year, v) + rest, st), rest, v, known + {YEAR, MONTH, DAY}, zone)
  {
    hide Padded, Knows, Render, TellsAll, ParseSigned, Decimal, Assign, ParseExact2, IsYearText;
    var more := DATE_ITEMS[1..];
    assert more == [Lit('-'), Dir('m', 1), Lit('-'), Dir('d', 1)];
    MonthDayText(v);
    var tail := Render(more, v) + rest;
    assert DateText(year, v) + rest == year + tail;
    YearTextRead(year, v.dt.year, tail);
    YearRead(st, v, known, zone, year + tail, tail);
    NoYears(more, v, rest);
    var st1 := Assign(st, YEAR, ParseSigned(year + tail, 1, 18)).value;
    ItemsRead(more, v, st1, known + {YEAR}, zone, rest);
    assert known + {YEAR} + TellsAll(more) == known + {YEAR, MONTH, DAY};
  }

  lemma SpelledItemRead(text: string, item: Item, v: Local, st: FormatState, known: set<Field>, zone: bool, rest: string)
    requires InRange(v) && IsPrintable(v) && Spells(text, item, v) && Knows(st, v, known, zone)
    requires item == Dir('Y', 1) ==> !StartsWithDigit(rest)
    ensures Reads(ParseItem(item, text + rest, st), rest, v, known + Tells(item), zone || IsZone(item))
  {
    hide Padded, ParseZone, ParseSigned, IsYearText, ColonZone, Assign;
    if IsReadable(item, v) && text == Print(item, v) {
      hide ParseItem, Knows, IsReadable, Tells, InRange, IsPrintable, Print;
      ItemRead(item, v, st, known, zone, rest);
    } else if item == Dir('z', 1) {
      ColonZoneRead(v.offset, rest);
      hide ToTimeZone;
    } else if item == Dir('Y', 1) {
      hide Knows;
      YearTextRead(text, v.dt.year, rest);
      YearRead(st, v, known, zone, text + rest, rest);
    } else {
      var year :| IsYearText(year, v.dt.year) && text == DateText(year, v);
      hide ParseItem, Knows, DateText;
      SpelledDateRead(year, v, st, known, zone, rest);
    }
  }

  function Joined(texts: seq<string>): string {
    if texts == [] then "" else texts[0] + Joined(texts[1..])
  }

  /** Each directive is spelled in one of its ways, and no digit follows a year. */
  ghost predicate AllSpelled(texts: seq<string>, items: seq<Item>, v: Local, rest: string)
    requires IsPrintable(v)
  {
    |texts| == |items|
    && (items == []
        || (Spells(texts[0], items[0], v) && (items[0] == Dir('Y', 1) ==> !StartsWithDigit(Joined(texts[1..]) + rest))
            && AllSpelled(texts[1..], items[1..], v, rest)))
  }

  lemma JoinedNext(texts: seq<string>, rest: string)
    requires texts != []
    ensures Joined(texts) + rest == texts[0] + (Joined(texts[1..]) + rest)
  {
  }

  /** The parser reads back any spelling of any sequence of directives, field by field. */
  lemma {:induction false} SpelledItemsRead(texts: seq<string>, items: seq<Item>, v: Local, st: FormatState, known: set<Field>, zone: bool,
                                            rest: string)
    requires InRange(v) && IsPrintable(v) && AllSpelled(texts, items, v, rest) && Knows(st, v, known, zone)
    ensures Reads(ParseItems(items, Joined(texts) + rest, st), rest, v, known + TellsAll(items), zone || TellsZone(items))
  {
    if items == [] {
      assert Joined(texts) + rest == rest;
      assert known + TellsAll(items) == known;
    } else {
      var (item, more) := (items[0], items[1..]);
      var tail := Joined(texts[1..]) + rest;
      JoinedNext(texts, rest);
      hide Spells, Knows, ParseItem, Joined, Tells, InRange, IsPrintable;
      SpelledItemRead(texts[0], item, v, st, known, zone, tail);
      var p := ParseItem(item, texts[0] + tail, st);
      SpelledItemsRead(texts[1..], more, v, p.value, known + Tells(item), zone || IsZone(item), rest);
      hide AllSpelled;
      assert known + Tells(item) + TellsAll(more) == known + TellsAll(items);
      assert (zone || IsZone(item)) || TellsZone(more) <==> zone || TellsZone(items);
    }
  }

  /** So every spelling of a date-time and an offset is parsed, up to the greatest valid year, to the timestamp of the
      date-time less the whole minutes of the offset. */
  lemma ParseOfSpelling(format: string, texts: seq<string>, v: Local)
    requires InRange(v) && v.dt.ms == 0 && IsPrintable(v) && Covers(Items(format), v) && AllSpelled(texts, Items(format), v, "")
    ensures ParseTimestamp(Joined(texts), format)
         == if IsValidDateTime(v.dt) && ToTimestamp(v.dt).Some? then Some(ToTimestamp(v.dt).value - (v.offset - TruncMod(v.offset, 60)))
            else None
  {
    hide Items, Joined, ParseItems, Covers, AllSpelled, InRange, IsPrintable, IsValidDateTime, ToTimestamp, ToTimeZone, OffsetOf,
      TellsAll, TellsZone, ParseTimestamp;
    NothingKnown(v);
    SpelledItemsRead(texts, Items(format), v, NOTHING_READ, {}, false, "");
    assert Joined(texts) + "" == Joined(texts);
    ParsedTimestamp(format, Joined(texts), v);
    TimeZoneKeepsMinutes(v.offset);
  }

  /** In particular any spelling of what `to_string` prints of a timestamp is read like the printed text. */
  lemma ParseOfRespelledText(format: string, texts: seq<string>, ts: int, offset: int)
    requires IsTimestamp(ts) && IsTimestamp(ts + offset) && -86400 < offset < 86400
    requires Covers(Items(format), LocalOf(ts, offset))
    requires IsPrintable(LocalOf(ts, offset)) && AllSpelled(texts, Items(format), LocalOf(ts, offset), "")
    ensures ParseTimestamp(Joined(texts), format)
         == if LocalOf(ts, offset).dt.year <= MAX_YEAR then Some(ts + TruncMod(offset, 60)) else None
  {
    hide Items, Joined, Covers, AllSpelled, InRange, IsPrintable, IsValidDateTime, ToTimestamp, ParseTimestamp, ToDateTime, TruncMod;
    LocalInRange(ts, offset);
    ParseOfSpelling(format, texts, LocalOf(ts, offset));
    if LocalOf(ts, offset).dt.year <= MAX_YEAR { BackToTimestamp(ts, offset); }
  }

  // ----- fields given twice -----

  /** A field read before must be read the same again: two digits that say otherwise are refused. */
  lemma ContradictionRefused(item: Item, v: Local, st: FormatState, rest: string)
    requires IsTwoDigits(item) && IsReadable(item, v) && IsPrintable(v)
    requires FieldOf(st, TwoDigitField(item)).Some? && FieldOf(st, TwoDigitField(item)).value != ValueOfField(v, TwoDigitField(item))
    ensures ParseItem(item, Print(item, v) + rest, st) == Fail
  {
    TwoDigitItem(item, v, st, rest);
    hide Print, ParseItem, IsReadable, ParseExact2, Padded;
    Exact2ReadsTwoDigits(ValueOfField(v, TwoDigitField(item)), rest);
  }

  /** And so is another year. */
  lemma OtherYearRefused(text: string, y: int, st: FormatState, rest: string)
    requires IsYearText(text, y) && !StartsWithDigit(rest) && st.year.Some? && st.year.value != y
    ensures ParseItem(Dir('Y', 1), text + rest, st) == Fail
  {
    YearTextRead(text, y, rest);
    hide ParseSigned, IsYearText;
  }
}
