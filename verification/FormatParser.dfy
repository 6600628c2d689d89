/** The format parser with its cursor and its fields, proved against the grammar. */
module FormatParserCode {
  import opened Text
  import opened Formats
  import opened FormatCode

  /** Items a parser at this nesting level may meet: `%F`, `%R` and `%T` expand to sequences without such directives. */
  predicate Fits(items: seq<Item>, level: nat) {
    AllModelled(items) && (level == 0 ==> IsFlat(items))
  }

  class FormatParser {
    const data: string
    var p: nat
    var state: FormatState

    constructor (data: string)
      ensures this.data == data && p == 0 && state == NOTHING_READ
    {
      this.data, p, state := data, 0, NOTHING_READ;
    }

    ghost predicate Valid()
      reads this
    {
      p <= |data|
    }

    /** The text not yet consumed. */
    ghost function Rest(): string
      reads this
      requires Valid()
    {
      data[p..]
    }

    method MatchLiteral(expected: char) returns (ok: bool)
      requires Valid()
      modifies this`p
      ensures Valid()
      ensures match Text.MatchLiteral(old(Rest()), expected)
              case Fail => !ok
              case Got(_, rest) => ok && Rest() == rest
    {
      if p >= |data| || data[p] != expected {
        return false;
      }
      p := p + 1;
      return true;
    }

    method ParseExact2Digits() returns (ok: bool, out: int)
      requires Valid()
      modifies this`p
      ensures Valid()
      ensures match ParseExact2(old(Rest()))
              case Fail => !ok
              case Got(v, rest) => ok && out == v && Rest() == rest
    {
      if |data| - p < 2 || !IsDigit(data[p]) || !IsDigit(data[p + 1]) {
        return false, 0;
      }
      out := DigitValue(data[p]) * 10 + DigitValue(data[p + 1]);
      p := p + 2;
      return true, out;
    }

    method ParseUnsignedDigits(minDigits: nat, maxDigits: nat) returns (ok: bool, out: int)
      requires Valid()
      modifies this`p
      ensures Valid()
      ensures match ParseUnsigned(old(Rest()), minDigits, maxDigits)
              case Fail => !ok && p == old(p)
              case Got(v, rest) => ok && out == v && Rest() == rest
    {
      var start := p;
      var digits, value := 0, 0;
      ghost var s := Rest();
      while p < |data| && digits < maxDigits && IsDigit(data[p])
        invariant p == start + digits <= |data| && digits <= maxDigits
        invariant AllDigits(s[..digits]) && value == ValueOf(s[..digits])
      {
        assert s[..digits + 1][..digits] == s[..digits] && s[..digits + 1][digits] == data[p];
        value := value * 10 + DigitValue(data[p]);
        p := p + 1;
        digits := digits + 1;
      }
      RunIs(s, digits, maxDigits);
      assert s[digits..] == data[p..];
      if digits < minDigits {
        p := start;
        return false, 0;
      }
      return true, value;
    }

    method ParseSignedDigits(minDigits: nat, maxDigits: nat) returns (ok: bool, out: int)
      requires Valid()
      modifies this`p
      ensures Valid()
      ensures match ParseSigned(old(Rest()), minDigits, maxDigits)
              case Fail => !ok && p == old(p)
              case Got(v, rest) => ok && out == v && Rest() == rest
    {
      hide ParseUnsigned;
      var start := p;
      var negative := false;
      ghost var s := Rest();
      if p < |data| && (data[p] == '+' || data[p] == '-') {
        negative := data[p] == '-';
        p := p + 1;
        assert Rest() == s[1..];
      }
      var value;
      ok, value := ParseUnsignedDigits(minDigits, maxDigits);
      if !ok {
        p := start;
        return false, 0;
      }
      return true, if negative then -value else value;
    }

    method ParseTzOffsetToken() returns (ok: bool, tz: TimeZone)
      requires Valid()
      modifies this`p
      ensures Valid()
      ensures match ParseZone(old(Rest()))
              case Fail => !ok
              case Got(z, rest) => ok && tz == z && Rest() == rest
    {
      hide ParseExact2;
      tz := UTC;
      ghost var s := Rest();
      if |data| - p < 5 || (data[p] != '+' && data[p] != '-') {
        return false, tz;
      }
      tz := tz.(isPositive := data[p] == '+');
      p := p + 1;
      assert Rest() == s[1..];
      var part;
      ok, part := ParseExact2Digits();
      if !ok {
        return false, tz;
      }
      tz := tz.(hour := part);
      ghost var t := Rest();
      if p < |data| && data[p] == ':' {
        p := p + 1;
        assert Rest() == t[1..];
      }
      ok, part := ParseExact2Digits();
      if !ok {
        return false, tz;
      }
      tz := tz.(min := part);
      return IsValidTimeZone(tz), tz;
    }

    /** `assign_int_field` and `assign_year_field`. */
    method AssignField(field: Field, value: int) returns (ok: bool)
      modifies this`state
      ensures match Assign(old(state), field, Got(value, ""))
              case Fail => !ok
              case Got(st, _) => ok && state == st
    {
      if FieldOf(state, field).Some? && FieldOf(state, field).value != value {
        return false;
      }
      state := WithField(state, field, value);
      return true;
    }

    method ReadTwoDigits(field: Field) returns (ok: bool)
      requires Valid()
      modifies this`p, this`state
      ensures Valid() && Outcome(ok, Assign(old(state), field, ParseExact2(old(Rest()))))
    {
      hide ParseExact2;
      var value;
      ok, value := ParseExact2Digits();
      if !ok {
        return false;
      }
      ok := AssignField(field, value);
    }

    method SkipLiteral(c: char) returns (ok: bool)
      requires Valid()
      modifies this`p
      ensures Valid() && Outcome(ok, Skip(old(Rest()), c, state))
    {
      ok := MatchLiteral(c);
    }

    method ReadYear() returns (ok: bool)
      requires Valid()
      modifies this`p, this`state
      ensures Valid() && Outcome(ok, Assign(old(state), YEAR, ParseSigned(old(Rest()), 1, 18)))
    {
      hide ParseSigned;
      var value;
      ok, value := ParseSignedDigits(1, 18);
      if !ok {
        return false;
      }
      ok := AssignField(YEAR, value);
    }

    method ParseFormatToken(letter: char, count: nat, ghost level: nat) returns (ok: bool)
      requires Valid() && IsModelled(Dir(letter, count)) && (IsComposite(letter) ==> level == 1) && level <= 1
      modifies this`p, this`state
      ensures Valid() && Outcome(ok, ParseToken(letter, count, old(Rest()), old(state)))
      decreases level, 0
    {
      hide ParseExact2, ParseSigned, ParseZone, Assign, ParseItems, Skip, Items;
      match letter {
        case 'd' =>
          if count < 2 { ok := ReadTwoDigits(DAY); } else { ok := false; }
        case 'D' =>
          if count == 2 { ok := ReadTwoDigits(DAY); } else { ok := false; }
        case 'F' =>
          if count == 1 { DateFormat(); ok := ParseFormatSequence("%Y-%m-%d", 0); } else { ok := false; }
        case 'H' =>
          if count <= 2 { ok := ReadTwoDigits(HOUR); } else { ok := false; }
        case 'h' =>
          if count == 2 { ok := ReadTwoDigits(HOUR); } else { ok := false; }
        case 'm' =>
          if count == 1 { ok := ReadTwoDigits(MONTH); } else if count == 2 { ok := ReadTwoDigits(MINUTE); } else { ok := false; }
        case 'M' =>
          if count == 1 { ok := ReadTwoDigits(MINUTE); } else if count == 2 { ok := ReadTwoDigits(MONTH); } else { ok := false; }
        case 'n' =>
          if count == 1 { ok := SkipLiteral('\n'); } else { ok := false; }
        case 'R' =>
          if count == 1 { MinuteFormat(); ok := ParseFormatSequence("%H:%M", 0); } else { ok := false; }
        case 'S' =>
          if count <= 2 { ok := ReadTwoDigits(SECOND); } else { ok := false; }
        case 't' =>
          if count == 1 { ok := SkipLiteral('\t'); } else { ok := false; }
        case 'T' =>
          if count == 1 { TimeFormat(); ok := ParseFormatSequence("%H:%M:%S", 0); } else { ok := false; }
        case 'Y' =>
          if count == 1 { ok := ReadYear(); } else { ok := false; }
        case 'z' =>
          if count != 1 {
            return false;
          }
          var tz;
          ok, tz := ParseTzOffsetToken();
          if ok { state := state.(tz := Some(tz)); }
        case _ =>
          ok := false;
      }
    }

    method ParseFormatSequence(format: string, ghost level: nat) returns (ok: bool)
      requires Valid() && Fits(Items(format), level) && level <= 1
      modifies this`p, this`state
      ensures Valid() && Outcome(ok, ParseItems(Items(format), old(Rest()), old(state)))
      decreases level, 1
    {
      hide Items, ParseItems, Pending, Run, ParseToken, Skip, IsModelled;
      ghost var expected := ParseItems(Items(format), Rest(), state);
      var isCommand, repeatCount := false, 0;
      var last: char := '\0';
      var i := 0;
      ScanStart(format, last);
      while i < |format|
        invariant 0 <= i <= |format| && (isCommand || repeatCount <= 1) && Valid()
        invariant Fits(Pending(isCommand, repeatCount, last, format[i..]), level)
        invariant ParseItems(Pending(isCommand, repeatCount, last, format[i..]), Rest(), state) == expected
        decreases |format| - i, isCommand
      {
        var c := format[i];
        ghost var rest := format[i..];
        assert rest[0] == c && rest[1..] == format[i + 1..];
        ScanStep(isCommand, repeatCount, last, rest);
        ParsedFirst(Emits(isCommand, repeatCount, last, c), After(isCommand, repeatCount, last, rest), Rest(), state, level);
        if !isCommand {
          i := i + 1;
          if c == '%' {
            repeatCount := repeatCount + 1;
            if repeatCount == 2 {
              ok := SkipLiteral('%');
              if !ok {
                return false;
              }
              repeatCount := 0;
            }
            continue;
          }
          if repeatCount == 0 {
            ok := SkipLiteral(c);
            if !ok {
              return false;
            }
            continue;
          }
          last := c;
          isCommand := true;
          continue;
        }
        if last == c {
          repeatCount := repeatCount + 1;
          i := i + 1;
          continue;
        }
        ok := ParseFormatToken(last, repeatCount, level);
        if !ok {
          return false;
        }
        repeatCount := 0;
        isCommand := false;
      }
      assert format[i..] == "";
      ScanEnd(isCommand, repeatCount, last);
      assert Pending(isCommand, repeatCount, last, "") + [] == Pending(isCommand, repeatCount, last, "");
      ParsedFirst(Pending(isCommand, repeatCount, last, ""), [], Rest(), state, level);
      NothingLeft(Rest(), state);
      ok := true;
      if isCommand {
        ok := ParseFormatToken(last, repeatCount, level);
        if ok { NothingLeft(Rest(), state); }
      }
    }

    /** A parser step ended as the grammar says. */
    ghost predicate Outcome(ok: bool, expected: Parse<FormatState>)
      reads this
      requires Valid()
    {
      match expected
      case Fail => !ok
      case Got(st, rest) => ok && state == st && Rest() == rest
    }
  }

  lemma RunIs(s: string, k: nat, max: nat)
    requires k <= |s| && k <= max && AllDigits(s[..k]) && (k == |s| || k == max || !IsDigit(s[k]))
    ensures DigitRun(s, max) == k
  {
    RunOfDigits(s[..k], s[k..], max);
    assert s == s[..k] + s[k..];
  }

  lemma NothingLeft(s: string, st: FormatState)
    ensures ParseItems([], s, st) == Got(st, s)
  {
  }

  /** The item a scanner reports comes first in what remains to be parsed. */
  lemma ParsedFirst(emitted: seq<Item>, items: seq<Item>, s: string, st: FormatState, level: nat)
    requires |emitted| <= 1 && Fits(emitted + items, level)
    ensures Fits(items, level)
    ensures emitted == [] ==> ParseItems(emitted + items, s, st) == ParseItems(items, s, st)
    ensures |emitted| == 1 ==>
              IsModelled(emitted[0]) && (level == 0 && emitted[0].Dir? ==> !IsComposite(emitted[0].letter))
              && ParseItems(emitted + items, s, st)
                 == match ParseItem(emitted[0], s, st)
                    case Fail => Fail
                    case Got(st', rest) => ParseItems(items, rest, st')
  {
    var all := emitted + items;
    assert forall i :: 0 <= i < |items| ==> items[i] == all[i + |emitted|];
    if emitted == [] {
      assert all == items;
    } else {
      assert all[0] == emitted[0] && all[1..] == items;
    }
    hide ParseItem, IsModelled;
  }

  lemma OneDirective(c: char, rest: string)
    requires c != '%' && (rest == "" || rest[0] != c)
    ensures Items(['%', c] + rest) == [Dir(c, 1)] + Items(rest)
  {
    var f := ['%', c] + rest;
    assert f[2..] == rest;
    assert Run(rest, c) == 0;
    assert f[2 + Run(f[2..], f[1])..] == rest;
  }

  /** A directive and a separator. */
  lemma DirectiveAnd(c: char, separator: char, rest: string)
    requires c != '%' && separator != c && separator != '%'
    ensures Items(['%', c, separator] + rest) == [Dir(c, 1), Lit(separator)] + Items(rest)
  {
    OneDirective(c, [separator] + rest);
    SeesLiteral([separator] + rest);
    hide Items;
    assert ([separator] + rest)[1..] == rest;
    assert ['%', c] + ([separator] + rest) == ['%', c, separator] + rest;
  }

  lemma LastDirective(c: char)
    requires c != '%'
    ensures Items(['%', c]) == [Dir(c, 1)]
  {
    OneDirective(c, "");
    assert ['%', c] + "" == ['%', c];
  }

  lemma DateFormat()
    ensures Items("%Y-%m-%d") == DATE_ITEMS && Fits(DATE_ITEMS, 0)
  {
    hide Items;
    DirectiveAnd('Y', '-', "%m-%d");
    DirectiveAnd('m', '-', "%d");
    LastDirective('d');
    assert ['%', 'Y', '-'] + "%m-%d" == "%Y-%m-%d" && ['%', 'm', '-'] + "%d" == "%m-%d" && ['%', 'd'] == "%d";
  }

  lemma MinuteFormat()
    ensures Items("%H:%M") == MINUTE_ITEMS && Fits(MINUTE_ITEMS, 0)
  {
    hide Items;
    DirectiveAnd('H', ':', "%M");
    LastDirective('M');
    assert ['%', 'H', ':'] + "%M" == "%H:%M" && ['%', 'M'] == "%M";
  }

  lemma TimeFormat()
    ensures Items("%H:%M:%S") == TIME_ITEMS && Fits(TIME_ITEMS, 0)
  {
    hide Items;
    DirectiveAnd('H', ':', "%M:%S");
    DirectiveAnd('M', ':', "%S");
    LastDirective('S');
    assert ['%', 'H', ':'] + "%M:%S" == "%H:%M:%S" && ['%', 'M', ':'] + "%S" == "%M:%S" && ['%', 'S'] == "%S";
  }

  /** `try_parse_format_ts`. */
  method TryParseFormatTs(data: string, format: string) returns (ok: bool, ts: int)
    requires Fits(Items(format), 1)
    ensures ParseTimestamp(data, format) == if ok then Some(ts) else None
    ensures !ok ==> ts == 0
  {
    hide Items, ParseItems, Finalize, ToTimestamp, Fits;
    var parser := new FormatParser(data);
    assert parser.Rest() == data;
    ok := parser.ParseFormatSequence(format, 1);
    if !ok {
      return false, 0;
    }
    if parser.p != |data| {
      return false, 0;
    }
    assert parser.Rest() == "";
    match Finalize(parser.state) {
      case None => return false, 0;
      case Some(r) =>
        match ToTimestamp(r.0) {
          case None => return false, 0;
          case Some(local) => return true, local - OffsetOf(r.1);
        }
    }
  }
}
