/** The two hand-written scanners over a format string: the loop of `to_string` and the format parser. */
module FormatCode {
  import opened Formats

  /** What a scanner in this state still has to do with the rest of the format. */
  function Pending(isCommand: bool, repeatCount: nat, last: char, rest: string): seq<Item> {
    if isCommand then [Dir(last, repeatCount + Run(rest, last))] + Items(rest[Run(rest, last)..])
    else if repeatCount == 1 then Items("%" + rest)
    else Items(rest)
  }

  predicate AllModelled(items: seq<Item>) {
    forall i :: 0 <= i < |items| ==> IsModelled(items[i])
  }

  // ----- how one character moves a scanner -----

  lemma SeesPercent(rest: string)
    requires rest != "" && rest[0] == '%'
    ensures Pending(false, 0, 'x', rest) == Pending(false, 1, 'x', rest[1..])
  {
    assert rest == "%" + rest[1..];
  }

  lemma SeesSecondPercent(rest: string)
    requires rest != "" && rest[0] == '%'
    ensures Items("%" + rest) == [Lit('%')] + Items(rest[1..])
  {
    assert ("%" + rest)[2..] == rest[1..];
  }

  lemma SeesLetter(rest: string)
    requires rest != "" && rest[0] != '%'
    ensures Items("%" + rest) == Pending(true, 1, rest[0], rest[1..])
  {
    var f := "%" + rest;
    assert f[2..] == rest[1..];
    assert f[2 + Run(f[2..], f[1])..] == rest[1..][Run(rest[1..], rest[0])..];
  }

  lemma SeesSameLetter(repeatCount: nat, last: char, rest: string)
    requires rest != "" && rest[0] == last
    ensures Pending(true, repeatCount, last, rest) == Pending(true, repeatCount + 1, last, rest[1..])
  {
    assert rest[Run(rest, last)..] == rest[1..][Run(rest[1..], last)..];
  }

  lemma SeesOtherLetter(repeatCount: nat, last: char, rest: string)
    requires rest == "" || rest[0] != last
    ensures Pending(true, repeatCount, last, rest) == [Dir(last, repeatCount)] + Items(rest)
  {
    assert rest[0..] == rest;
  }

  /** What a scanner reports while it looks at `c`, if anything. */
  function Emits(isCommand: bool, repeatCount: nat, last: char, c: char): seq<Item> {
    if isCommand then (if c == last then [] else [Dir(last, repeatCount)])
    else if c == '%' then (if repeatCount == 0 then [] else [Lit('%')])
    else if repeatCount == 0 then [Lit(c)] else []
  }

  /** What it has left to do then; a letter that ends a directive is looked at again. */
  function After(isCommand: bool, repeatCount: nat, last: char, rest: string): seq<Item>
    requires rest != ""
  {
    if isCommand then
      if rest[0] == last then Pending(true, repeatCount + 1, last, rest[1..]) else Pending(false, 0, last, rest)
    else if rest[0] == '%' then Pending(false, if repeatCount == 0 then 1 else 0, last, rest[1..])
    else if repeatCount == 0 then Pending(false, 0, last, rest[1..])
    else Pending(true, 1, rest[0], rest[1..])
  }

  lemma ScanStep(isCommand: bool, repeatCount: nat, last: char, rest: string)
    requires rest != "" && (isCommand || repeatCount <= 1)
    ensures Pending(isCommand, repeatCount, last, rest) == Emits(isCommand, repeatCount, last, rest[0]) + After(isCommand, repeatCount, last, rest)
  {
    hide Items, Run;
    if isCommand {
      if rest[0] == last { SeesSameLetter(repeatCount, last, rest); } else { SeesOtherLetter(repeatCount, last, rest); }
    } else if rest[0] == '%' {
      if repeatCount == 0 { SeesPercent(rest); } else { SeesSecondPercent(rest); }
    } else if repeatCount == 0 {
      SeesLiteral(rest);
    } else {
      SeesLetter(rest);
    }
  }

  lemma SeesLiteral(rest: string)
    requires rest != "" && rest[0] != '%'
    ensures Items(rest) == [Lit(rest[0])] + Items(rest[1..])
  {
  }

  lemma ScanEnd(isCommand: bool, repeatCount: nat, last: char)
    requires isCommand || repeatCount <= 1
    ensures Pending(isCommand, repeatCount, last, "") == if isCommand then [Dir(last, repeatCount)] else []
  {
    assert "%" + "" == "%";
    if isCommand { SeesOtherLetter(repeatCount, last, ""); }
  }

  lemma Emitted(result: string, emitted: seq<Item>, items: seq<Item>, v: Local)
    requires IsPrintable(v) && |emitted| <= 1
    ensures result + Render(emitted + items, v) == result + Render(emitted, v) + Render(items, v)
    ensures |emitted| == 1 ==> Render(emitted, v) == Print(emitted[0], v)
    ensures emitted == [] ==> Render(emitted, v) == ""
  {
    hide Print;
    if emitted == [] {
      assert emitted + items == items;
    } else {
      assert (emitted + items)[1..] == items;
      assert emitted[1..] == [];
    }
  }

  /** The scanning loop of `to_string`. A directive whose letter ends is handled without consuming the next character. */
  method ToString(format: string, v: Local) returns (result: string)
    requires IsPrintable(v) && AllModelled(Items(format))
    ensures result == ToText(format, v)
  {
    hide Items, Render, PrintToken, Pending, Run;
    result := "";
    if format == "" {
      return;
    }
    var isCommand, repeatCount := false, 0;
    var last := format[0];
    if last != '%' { result := result + [last]; }
    var i := 0;
    ScanStart(format, last);
    while i < |format|
      invariant 0 <= i <= |format| && (isCommand || repeatCount <= 1)
      invariant result + Render(Pending(isCommand, repeatCount, last, format[i..]), v) == ToText(format, v)
      decreases |format| - i, isCommand
    {
      var c := format[i];
      ghost var rest := format[i..];
      assert rest[0] == c && rest[1..] == format[i + 1..];
      ScanStep(isCommand, repeatCount, last, rest);
      Emitted(result, Emits(isCommand, repeatCount, last, c), After(isCommand, repeatCount, last, rest), v);
      if !isCommand {
        i := i + 1;
        if c == '%' {
          repeatCount := repeatCount + 1;
          if repeatCount == 2 {
            result := result + [c];
            repeatCount := 0;
          }
          continue;
        }
        if repeatCount == 0 {
          result := result + [c];
          continue;
        }
        last := c;
        isCommand := true;
        continue;
      }
      if last == c {
        repeatCount := repeatCount + 1;
        i := i + 1;
        continue;
      }
      result := result + PrintToken(last, repeatCount, v);
      repeatCount := 0;
      isCommand := false;
    }
    ScanEnd(isCommand, repeatCount, last);
    Emitted(result, Pending(isCommand, repeatCount, last, ""), [], v);
    assert format[i..] == "";
    if isCommand {
      result := result + PrintToken(last, repeatCount, v);
    }
  }

  lemma ScanStart(format: string, last: char)
    ensures Pending(false, 0, last, format[0..]) == Items(format)
  {
    assert format[0..] == format;
  }
}
