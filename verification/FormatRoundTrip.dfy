/** Parsing what `to_string` printed gives back the timestamp. */
module FormatRoundTrip {
  import opened FastDate
  import opened Timestamps
  import opened Text
  import opened Formats

  // ----- what is known after reading -----

  function ValueOfField(v: Local, f: Field): int {
    match f
    case YEAR => v.dt.year
    case MONTH => v.dt.mon
    case DAY => v.dt.day
    case HOUR => v.dt.hour
    case MINUTE => v.dt.min
    case SECOND => v.dt.sec
  }

  /** The fields in `known` have been read, correctly, and so has the zone if `zone`. */
  predicate Knows(st: FormatState, v: Local, known: set<Field>, zone: bool) {
    && (forall f :: FieldOf(st, f) == if f in known then Some(ValueOfField(v, f)) else None)
    && st.tz == if zone then Some(ToTimeZone(v.offset)) else None
  }

  /** What a directive tells. */
  function Tells(item: Item): set<Field> {
    if item.Lit? then {}
    else match item.letter
      case 'd' => {DAY}
      case 'D' => {DAY}
      case 'F' => {YEAR, MONTH, DAY}
      case 'H' => {HOUR}
      case 'h' => {HOUR}
      case 'm' => if item.count == 1 then {MONTH} else {MINUTE}
      case 'M' => if item.count == 1 then {MINUTE} else {MONTH}
      case 'R' => {HOUR, MINUTE}
      case 'S' => {SECOND}
      case 'T' => {HOUR, MINUTE, SECOND}
      case 'Y' => {YEAR}
      case _ => {}
  }

  function TellsAll(items: seq<Item>): set<Field> {
    if items == [] then {} else Tells(items[0]) + TellsAll(items[1..])
  }

  predicate TellsZone(items: seq<Item>) {
    exists i :: 0 <= i < |items| && items[i].Dir? && items[i].letter == 'z'
  }

  /** Directives whose output the parser reads back: `%ss` and counts that print nothing are not among them,
      and `%F` only from year 0 on. */
  predicate IsReadable(item: Item, v: Local) {
    item.Lit? ||
    match item.letter
    case 'd' => item.count == 1
    case 'D' => item.count == 2
    case 'F' => item.count == 1 && v.dt.year >= 0
    case 'H' => item.count == 1 || item.count == 2
    case 'h' => item.count == 2
    case 'm' => item.count == 1 || item.count == 2
    case 'M' => item.count == 1 || item.count == 2
    case 'n' => item.count == 1
    case 'R' => item.count == 1
    case 'S' => item.count == 1 || item.count == 2
    case 't' => item.count == 1
    case 'T' => item.count == 1
    case 'Y' => item.count == 1
    case 'z' => item.count == 1
    case _ => false
  }

  /** No digit follows a printed `%Y`, up to and into `rest`. */
  predicate YearsEnd(items: seq<Item>, v: Local, rest: string)
    requires IsPrintable(v)
  {
    items == [] ||
    ((items[0] == Dir('Y', 1) ==> !StartsWithDigit(Render(items[1..], v) + rest)) && YearsEnd(items[1..], v, rest))
  }

  // ----- one directive -----

  lemma FieldRead(st: FormatState, v: Local, known: set<Field>, zone: bool, f: Field, p: Parse<int>, rest: string)
    requires Knows(st, v, known, zone) && p == Got(ValueOfField(v, f), rest)
    ensures Assign(st, f, p).Got? && Assign(st, f, p).rest == rest && Knows(Assign(st, f, p).value, v, known + {f}, zone)
  {
  }

  lemma TwoRead(st: FormatState, v: Local, known: set<Field>, zone: bool, f: Field, rest: string)
    requires Knows(st, v, known, zone) && 0 <= ValueOfField(v, f) < 100
    ensures var p := Assign(st, f, ParseExact2(Two(ValueOfField(v, f)) + rest));
      p.Got? && p.rest == rest && Knows(p.value, v, known + {f}, zone)
  {
    Exact2ReadsTwoDigits(ValueOfField(v, f), rest);
    hide ParseExact2, Padded, Assign;
    FieldRead(st, v, known, zone, f, ParseExact2(Two(ValueOfField(v, f)) + rest), rest);
  }

  /** The parser got past some text, up to `rest`, and now knows these fields. */
  predicate Reads(p: Parse<FormatState>, rest: string, v: Local, known: set<Field>, zone: bool) {
    p.Got? && p.rest == rest && Knows(p.value, v, known, zone)
  }

  predicate InRange(v: Local) {
    IsPrintable(v) && -YEAR_LIMIT <= v.dt.year <= YEAR_LIMIT && -86400 < v.offset < 86400
  }

  lemma YearRead(st: FormatState, v: Local, known: set<Field>, zone: bool, text: string, rest: string)
    requires Knows(st, v, known, zone) && ParseSigned(text, 1, 18) == Got(v.dt.year, rest)
    ensures Reads(Assign(st, YEAR, ParseSigned(text, 1, 18)), rest, v, known + {YEAR}, zone)
  {
    hide ParseSigned, Assign, Knows;
    FieldRead(st, v, known, zone, YEAR, ParseSigned(text, 1, 18), rest);
  }

  lemma ZoneTextRead(offset: int, rest: string)
    requires -86400 < offset < 86400
    ensures ParseZone(ZoneText(offset) + rest) == Got(ToTimeZone(offset), rest)
  {
    var tz := ToTimeZone(offset);
    TimeZoneKeepsMinutes(offset);
    var s := ZoneText(offset) + rest;
    var tail := Two(tz.min) + rest;
    TwoDigitsExplicit(tz.hour);
    TwoDigitsExplicit(tz.min);
    assert s[1..] == Two(tz.hour) + tail;
    Exact2ReadsTwoDigits(tz.hour, tail);
    Exact2ReadsTwoDigits(tz.min, rest);
    hide ParseExact2, Padded, ToTimeZone;
    assert tail[0] == DigitChar(tz.min / 10);
  }

  lemma LiteralRead(st: FormatState, c: char, rest: string)
    ensures Skip([c] + rest, c, st) == Got(st, rest)
  {
    assert ([c] + rest)[1..] == rest;
  }

  /** `%F` of a year that is not negative: the padded or signed year is read back. */
  lemma IsoYearRead(dt: DateTime, rest: string)
    requires 0 <= dt.year <= YEAR_LIMIT && !StartsWithDigit(rest)
    ensures var text := if dt.year <= 9999 then Padded(dt.year, 4) else "+" + Decimal(dt.year);
      ParseSigned(text + rest, 1, 18) == Got(dt.year, rest)
  {
    SeventeenDigits(dt.year);
    hide ParseSigned, Digits, ValueOf;
    if dt.year <= 9999 {
      ValueOfPadded(dt.year, 4);
      SignedReadsPlain(Padded(dt.year, 4), rest, 1, 18);
    } else {
      ValueOfDigits(dt.year);
      var s := "+" + Decimal(dt.year) + rest;
      assert s[1..] == Digits(dt.year) + rest;
      SignedReadsSign(s, Digits(dt.year), rest, 1, 18);
    }
  }

  predicate IsZone(item: Item) {
    item.Dir? && item.letter == 'z'
  }

  predicate IsTwoDigits(item: Item) {
    item.Dir? && item.letter in {'d', 'D', 'H', 'h', 'm', 'M', 'S'}
  }

  function TwoDigitField(item: Item): Field
    requires IsTwoDigits(item)
  {
    match item.letter
    case 'H' => HOUR
    case 'h' => HOUR
    case 'm' => if item.count == 1 then MONTH else MINUTE
    case 'M' => if item.count == 1 then MINUTE else MONTH
    case 'S' => SECOND
    case _ => DAY
  }

  /** One two-digit directive, whatever its letter and count. */
  lemma TwoDigitItem(item: Item, v: Local, st: FormatState, rest: string)
    requires IsTwoDigits(item) && IsReadable(item, v) && IsPrintable(v)
    ensures var f := TwoDigitField(item);
      0 <= ValueOfField(v, f) < 100 && Print(item, v) == Two(ValueOfField(v, f)) && Tells(item) == {f}
    ensures ParseItem(item, Print(item, v) + rest, st) == Assign(st, TwoDigitField(item), ParseExact2(Print(item, v) + rest))
  {
    hide Padded, ParseExact2, Assign;
  }

  lemma TwoDigitItemRead(item: Item, v: Local, st: FormatState, known: set<Field>, zone: bool, rest: string)
    requires IsTwoDigits(item) && IsReadable(item, v) && IsPrintable(v) && Knows(st, v, known, zone)
    ensures Reads(ParseItem(item, Print(item, v) + rest, st), rest, v, known + Tells(item), zone)
  {
    TwoDigitItem(item, v, st, rest);
    hide ParseItem, Print, Knows, Tells, Assign, IsReadable;
    TwoRead(st, v, known, zone, TwoDigitField(item), rest);
  }

  /** Literals, `%n`, `%t`, `%Y` and `%z`. */
  lemma PlainItemRead(item: Item, v: Local, st: FormatState, known: set<Field>, zone: bool, rest: string)
    requires (item.Lit? || item.letter in {'n', 't', 'Y', 'z'}) && IsReadable(item, v) && InRange(v) && Knows(st, v, known, zone)
    requires item == Dir('Y', 1) ==> !StartsWithDigit(rest)
    ensures Reads(ParseItem(item, Print(item, v) + rest, st), rest, v, known + Tells(item), zone || IsZone(item))
  {
    hide ParseSigned, ParseZone, ZoneText, Decimal, Assign;
    if item.Lit? {
      LiteralRead(st, item.c, rest);
    } else if item.letter == 'Y' {
      hide Knows;
      SignedReadsDecimal(v.dt.year, rest);
      YearRead(st, v, known, zone, Decimal(v.dt.year) + rest, rest);
    } else if item.letter == 'z' {
      ZoneTextRead(v.offset, rest);
      hide ToTimeZone;
    } else {
      LiteralRead(st, if item.letter == 'n' then '\n' else '\t', rest);
    }
  }

  lemma RenderNext(items: seq<Item>, v: Local, rest: string)
    requires items != [] && IsPrintable(v)
    ensures Render(items, v) + rest == Print(items[0], v) + (Render(items[1..], v) + rest)
  {
    hide Print;
  }

  /** Every item can be read back, and no digit follows a year. */
  predicate AllReadable(items: seq<Item>, v: Local) {
    forall i :: 0 <= i < |items| ==> IsReadable(items[i], v)
  }

  lemma {:induction false} ItemRead(item: Item, v: Local, st: FormatState, known: set<Field>, zone: bool, rest: string)
    requires IsReadable(item, v) && InRange(v) && Knows(st, v, known, zone)
    requires item == Dir('Y', 1) ==> !StartsWithDigit(rest)
    ensures Reads(ParseItem(item, Print(item, v) + rest, st), rest, v, known + Tells(item), zone || IsZone(item))
    decreases if item.Dir? && IsComposite(item.letter) then 1 else 0, 0, 1
  {
    if item.Dir? && IsComposite(item.letter) {
      CompositeRead(item, v, st, known, zone, rest);
    } else if IsTwoDigits(item) {
      TwoDigitItemRead(item, v, st, known, zone, rest);
    } else {
      PlainItemRead(item, v, st, known, zone, rest);
    }
  }

  lemma {:induction false} ItemsRead(items: seq<Item>, v: Local, st: FormatState, known: set<Field>, zone: bool, rest: string)
    requires AllReadable(items, v) && InRange(v) && Knows(st, v, known, zone)
    requires YearsEnd(items, v, rest)
    ensures Reads(ParseItems(items, Render(items, v) + rest, st), rest, v, known + TellsAll(items), zone || TellsZone(items))
    decreases if IsFlat(items) then 0 else 1, |items|, 2
  {
    if items == [] {
      assert Render(items, v) + rest == rest;
      assert known + TellsAll(items) == known;
    } else {
      var (item, more) := (items[0], items[1..]);
      var tail := Render(more, v) + rest;
      RenderNext(items, v, rest);
      assert IsFlat(items) ==> IsFlat(more) && !(item.Dir? && IsComposite(item.letter));
      ItemRead(item, v, st, known, zone, tail);
      var p := ParseItem(item, Print(item, v) + tail, st);
      ItemsRead(more, v, p.value, known + Tells(item), zone || IsZone(item), rest);
      hide Print, Render, ParseItem, Tells, IsReadable, Knows, YearsEnd;
      assert known + Tells(item) + TellsAll(more) == known + TellsAll(items);
      assert (zone || IsZone(item)) || TellsZone(more) <==> zone || TellsZone(items);
    }
  }

  lemma {:induction false} NoYears(items: seq<Item>, v: Local, rest: string)
    requires IsPrintable(v) && forall i :: 0 <= i < |items| ==> items[i] != Dir('Y', 1)
    ensures YearsEnd(items, v, rest)
  {
    if items != [] { NoYears(items[1..], v, rest); }
  }

  lemma FirstItem(a: Item, items: seq<Item>, v: Local)
    requires IsPrintable(v)
    ensures Render([a] + items, v) == Print(a, v) + Render(items, v) && TellsAll([a] + items) == Tells(a) + TellsAll(items)
  {
    assert ([a] + items)[1..] == items;
  }

  lemma ThreeItems(a: Item, b: Item, c: Item, v: Local)
    requires IsPrintable(v)
    ensures Render([a, b, c], v) == Print(a, v) + Print(b, v) + Print(c, v)
    ensures TellsAll([a, b, c]) == Tells(a) + Tells(b) + Tells(c)
  {
    FirstItem(a, [b, c], v);
    FirstItem(b, [c], v);
    FirstItem(c, [], v);
    assert [a] + [b, c] == [a, b, c] && [b] + [c] == [b, c] && [c] + [] == [c];
    assert Render([], v) == "" && TellsAll([]) == {};
    hide Print, Tells, Render, TellsAll;
    Associate(Print(a, v), Print(b, v), Print(c, v));
  }

  lemma Associate(a: string, b: string, c: string)
    ensures a + (b + (c + "")) == a + b + c
  {
  }

  lemma FiveItems(a: Item, b: Item, c: Item, d: Item, e: Item, v: Local)
    requires IsPrintable(v)
    ensures Render([a, b, c, d, e], v) == Print(a, v) + Print(b, v) + Print(c, v) + Print(d, v) + Print(e, v)
    ensures TellsAll([a, b, c, d, e]) == Tells(a) + Tells(b) + Tells(c) + Tells(d) + Tells(e)
  {
    ThreeItems(c, d, e, v);
    FirstItem(a, [b, c, d, e], v);
    FirstItem(b, [c, d, e], v);
    assert [a] + [b, c, d, e] == [a, b, c, d, e] && [b] + [c, d, e] == [b, c, d, e];
    hide Print, Tells, Render, TellsAll;
    AssociateMore(Print(a, v), Print(b, v), Print(c, v), Print(d, v), Print(e, v));
  }

  lemma AssociateMore(a: string, b: string, c: string, d: string, e: string)
    ensures a + (b + (c + d + e)) == a + b + c + d + e
  {
  }

  /** `%R` and `%T`. */
  lemma {:induction false} ClockRead(item: Item, v: Local, st: FormatState, known: set<Field>, zone: bool, rest: string)
    requires (item == Dir('R', 1) || item == Dir('T', 1)) && InRange(v) && Knows(st, v, known, zone)
    ensures Reads(ParseItem(item, Print(item, v) + rest, st), rest, v, known + Tells(item), zone)
    decreases 1, 0, -1
  {
    hide Padded, Knows, ParseItems, Render, TellsAll;
    var items := if item.letter == 'R' then MINUTE_ITEMS else TIME_ITEMS;
    ThreeItems(Dir('H', 1), Lit(':'), Dir('M', 1), v);
    FiveItems(Dir('H', 1), Lit(':'), Dir('M', 1), Lit(':'), Dir('S', 1), v);
    assert Print(item, v) == Render(items, v) && Tells(item) == TellsAll(items);
    assert !TellsZone(items);
    NoYears(items, v, rest);
    ItemsRead(items, v, st, known, zone, rest);
  }

  /** `%F`, for years that are not negative. */
  lemma {:induction false} IsoDateRead(v: Local, st: FormatState, known: set<Field>, zone: bool, rest: string)
    requires v.dt.year >= 0 && InRange(v) && Knows(st, v, known, zone)
    ensures Reads(ParseItem(Dir('F', 1), IsoDate(v.dt) + rest, st), rest, v, known + {YEAR, MONTH, DAY}, zone)
    decreases 1, 0, -1
  {
    hide Padded, Knows, Render, TellsAll, ParseSigned, Decimal, Assign, ParseExact2;
    var year := if v.dt.year <= 9999 then Padded(v.dt.year, 4) else "+" + Decimal(v.dt.year);
    var more := DATE_ITEMS[1..];
    assert more == [Lit('-'), Dir('m', 1), Lit('-'), Dir('d', 1)];
    assert more[1..] == [Dir('m', 1), Lit('-'), Dir('d', 1)];
    ThreeItems(Dir('m', 1), Lit('-'), Dir('d', 1), v);
    MonthDayText(v);
    var tail := Render(more, v) + rest;
    assert IsoDate(v.dt) + rest == year + tail;
    IsoYearRead(v.dt, tail);
    YearRead(st, v, known, zone, year + tail, tail);
    NoYears(more, v, rest);
    var st1 := Assign(st, YEAR, ParseSigned(year + tail, 1, 18)).value;
    ItemsRead(more, v, st1, known + {YEAR}, zone, rest);
    assert known + {YEAR} + TellsAll(more) == known + {YEAR, MONTH, DAY};
  }

  lemma MonthDayText(v: Local)
    requires IsPrintable(v)
    ensures var items := [Lit('-'), Dir('m', 1), Lit('-'), Dir('d', 1)];
      Render(items, v) == "-" + Two(v.dt.mon) + "-" + Two(v.dt.day) && TellsAll(items) == {MONTH, DAY}
  {
    var items := [Lit('-'), Dir('m', 1), Lit('-'), Dir('d', 1)];
    hide Padded;
    assert items[1..] == [Dir('m', 1), Lit('-'), Dir('d', 1)];
    ThreeItems(Dir('m', 1), Lit('-'), Dir('d', 1), v);
  }

  lemma {:induction false} CompositeRead(item: Item, v: Local, st: FormatState, known: set<Field>, zone: bool, rest: string)
    requires item.Dir? && IsComposite(item.letter) && IsReadable(item, v) && InRange(v) && Knows(st, v, known, zone)
    ensures Reads(ParseItem(item, Print(item, v) + rest, st), rest, v, known + Tells(item), zone)
    decreases 1, 0, 0
  {
    if item.letter == 'F' {
      IsoDateRead(v, st, known, zone, rest);
      hide ParseItem, Knows, IsoDate;
      assert Print(item, v) == IsoDate(v.dt);
    } else {
      ClockRead(item, v, st, known, zone, rest);
    }
  }
}
