/** Decimal text: what the formatters print and what the parsers read back. */
module Text {
  datatype Option<T> = None | Some(value: T)

  /** The outcome of a parser: failure, or a value and the text not yet consumed. */
  datatype Parse<T> = Fail | Got(value: T, rest: string)

  predicate IsDigit(c: char) {
    '0' <= c <= '9'
  }

  function DigitChar(d: int): (c: char)
    requires 0 <= d <= 9
    ensures IsDigit(c) && DigitValue(c) == d
  {
    '0' + d as char
  }

  function DigitValue(c: char): (d: int)
    requires IsDigit(c)
    ensures 0 <= d <= 9
  {
    c as int - '0' as int
  }

  predicate AllDigits(s: string) {
    forall i :: 0 <= i < |s| ==> IsDigit(s[i])
  }

  predicate StartsWithDigit(s: string) {
    |s| > 0 && IsDigit(s[0])
  }

  // ----- printing -----

  /** Decimal digits without leading zeros. */
  function Digits(n: nat): (s: string)
    ensures |s| >= 1 && AllDigits(s)
  {
    if n < 10 then [DigitChar(n)] else Digits(n / 10) + [DigitChar(n % 10)]
  }

  /** `std::to_string` and `PRId64`. */
  function Decimal(n: int): string {
    if n < 0 then "-" + Digits(-n) else Digits(n)
  }

  /** `printf` with a precision: at least `width` digits. */
  function Padded(n: nat, width: nat): (s: string)
    ensures AllDigits(s) && |s| >= width && |s| >= 1
    decreases width
  {
    if |Digits(n)| >= width then Digits(n) else Zeros(width - |Digits(n)|) + Digits(n)
  }

  function Zeros(k: nat): (s: string)
    ensures |s| == k && forall i :: 0 <= i < k ==> s[i] == '0'
  {
    if k == 0 then "" else Zeros(k - 1) + "0"
  }

  // ----- reading -----

  /** The number a string of digits stands for, most significant digit first. */
  function ValueOf(s: string): (v: int)
    requires AllDigits(s)
    ensures v >= 0
  {
    if s == "" then 0 else ValueOf(s[..|s| - 1]) * 10 + DigitValue(s[|s| - 1])
  }

  /** How many digits the text starts with, up to `max`. */
  function DigitRun(s: string, max: nat): (k: nat)
    ensures k <= |s| && k <= max && AllDigits(s[..k])
    ensures k < |s| && k < max ==> !IsDigit(s[k])
  {
    if max > 0 && s != "" && IsDigit(s[0]) then
      var k := DigitRun(s[1..], max - 1);
      assert s[..k + 1] == [s[0]] + s[1..][..k];
      k + 1
    else 0
  }

  function ParseUnsigned(s: string, min: nat, max: nat): Parse<int> {
    var k := DigitRun(s, max);
    if k < min then Fail else Got(ValueOf(s[..k]), s[k..])
  }

  function ParseSigned(s: string, min: nat, max: nat): Parse<int> {
    if s != "" && (s[0] == '+' || s[0] == '-') then
      match ParseUnsigned(s[1..], min, max)
      case Fail => Fail
      case Got(v, rest) => Got(if s[0] == '-' then -v else v, rest)
    else
      ParseUnsigned(s, min, max)
  }

  function ParseExact2(s: string): Parse<int> {
    if |s| < 2 || !IsDigit(s[0]) || !IsDigit(s[1]) then Fail
    else Got(DigitValue(s[0]) * 10 + DigitValue(s[1]), s[2..])
  }

  function MatchLiteral(s: string, c: char): Parse<()> {
    if s == "" || s[0] != c then Fail else Got((), s[1..])
  }

  // ----- reading back what was printed -----

  lemma {:induction false} ValueOfDigits(n: nat)
    ensures ValueOf(Digits(n)) == n
  {
    if n >= 10 {
      ValueOfDigits(n / 10);
      assert Digits(n)[..|Digits(n)| - 1] == Digits(n / 10);
    } else {
      assert Digits(n)[..0] == "";
    }
  }

  lemma {:induction false} ValueOfZeros(k: nat, s: string)
    requires AllDigits(s)
    ensures AllDigits(Zeros(k) + s) && ValueOf(Zeros(k) + s) == ValueOf(s)
    decreases |s|, k
  {
    if s != "" {
      ValueOfZeros(k, s[..|s| - 1]);
      assert (Zeros(k) + s)[..k + |s| - 1] == Zeros(k) + s[..|s| - 1];
    } else if k > 0 {
      ValueOfZeros(k - 1, "");
      assert (Zeros(k) + s)[..k - 1] == Zeros(k - 1) == Zeros(k - 1) + "";
    }
  }

  lemma ValueOfPadded(n: nat, width: nat)
    ensures ValueOf(Padded(n, width)) == n
  {
    hide ValueOf, Digits, Zeros;
    ValueOfDigits(n);
    if |Digits(n)| < width { ValueOfZeros(width - |Digits(n)|, Digits(n)); }
  }

  function Pow10(k: nat): (p: nat)
    ensures p >= 1
  {
    if k == 0 then 1 else 10 * Pow10(k - 1)
  }

  lemma {:induction false} ValueOfPrefixed(c: char, s: string)
    requires IsDigit(c) && AllDigits(s)
    ensures AllDigits([c] + s) && ValueOf([c] + s) == DigitValue(c) * Pow10(|s|) + ValueOf(s)
  {
    var t := [c] + s;
    if s == "" {
      assert t[..0] == "";
    } else {
      ValueOfPrefixed(c, s[..|s| - 1]);
      assert t[..|t| - 1] == [c] + s[..|s| - 1];
      var (d, p) := (DigitValue(c), Pow10(|s| - 1));
      assert d * (10 * p) == (d * p) * 10;
    }
  }

  lemma SeventeenZeros()
    ensures Pow10(17) == 100_000_000_000_000_000
  {
    assert Pow10(3) == 1000;
    assert Pow10(6) == 1_000_000;
    assert Pow10(9) == 1_000_000_000;
    assert Pow10(12) == 1_000_000_000_000;
    assert Pow10(15) == 1_000_000_000_000_000;
  }

  lemma {:induction false} DigitsLength(n: nat, k: nat)
    requires k >= 1 && n < Pow10(k)
    ensures |Digits(n)| <= k
  {
    if n >= 10 { DigitsLength(n / 10, k - 1); }
  }

  /** A run of digits ends where the text does or where something else begins. */
  lemma {:induction false} RunOfDigits(d: string, rest: string, max: nat)
    requires AllDigits(d) && |d| <= max && (|d| == max || !StartsWithDigit(rest))
    ensures DigitRun(d + rest, max) == |d|
  {
    if d == "" {
      assert d + rest == rest;
    } else {
      RunOfDigits(d[1..], rest, max - 1);
      assert (d + rest)[1..] == d[1..] + rest;
    }
  }

  lemma UnsignedReadsDigits(d: string, rest: string, min: nat, max: nat)
    requires AllDigits(d) && min <= |d| <= max && (|d| == max || !StartsWithDigit(rest))
    ensures ParseUnsigned(d + rest, min, max) == Got(ValueOf(d), rest)
  {
    RunOfDigits(d, rest, max);
    assert (d + rest)[..|d|] == d && (d + rest)[|d|..] == rest;
  }

  lemma SignedReadsPlain(d: string, rest: string, min: nat, max: nat)
    requires AllDigits(d) && 1 <= |d| && min <= |d| <= max && (|d| == max || !StartsWithDigit(rest))
    ensures ParseSigned(d + rest, min, max) == Got(ValueOf(d), rest)
  {
    UnsignedReadsDigits(d, rest, min, max);
    hide ParseUnsigned, ValueOf;
    assert (d + rest)[0] == d[0];
  }

  lemma SignedReadsSign(s: string, d: string, rest: string, min: nat, max: nat)
    requires s != "" && (s[0] == '+' || s[0] == '-') && s[1..] == d + rest
    requires AllDigits(d) && min <= |d| <= max && (|d| == max || !StartsWithDigit(rest))
    ensures ParseSigned(s, min, max) == Got(if s[0] == '-' then -ValueOf(d) else ValueOf(d), rest)
  {
    UnsignedReadsDigits(d, rest, min, max);
    hide ParseUnsigned, ValueOf;
  }

  lemma SeventeenDigits(n: nat)
    requires n < 100_000_000_000_000_000
    ensures |Digits(n)| <= 17
  {
    SeventeenZeros();
    DigitsLength(n, 17);
  }

  /** Numbers below 10^17, signed or not, are read back from their decimal form. */
  lemma SignedReadsDecimal(n: int, rest: string)
    requires -100_000_000_000_000_000 < n < 100_000_000_000_000_000 && !StartsWithDigit(rest)
    ensures ParseSigned(Decimal(n) + rest, 1, 18) == Got(n, rest)
  {
    hide ParseSigned, Digits, ValueOf;
    var m := if n < 0 then -n else n;
    SeventeenDigits(m);
    ValueOfDigits(m);
    if n < 0 {
      assert (Decimal(n) + rest)[1..] == Digits(m) + rest;
      SignedReadsSign(Decimal(n) + rest, Digits(m), rest, 1, 18);
    } else {
      SignedReadsPlain(Digits(m), rest, 1, 18);
    }
  }

  lemma TwoDigitsExplicit(n: nat)
    requires n < 100
    ensures Padded(n, 2) == [DigitChar(n / 10), DigitChar(n % 10)]
  {
    if n < 10 {
      assert Digits(n) == [DigitChar(n)];
      assert Zeros(1) == "0";
    } else {
      assert Digits(n / 10) == [DigitChar(n / 10)];
    }
  }

  lemma Exact2ReadsTwoDigits(n: nat, rest: string)
    requires n < 100
    ensures ParseExact2(Padded(n, 2) + rest) == Got(n, rest)
  {
    TwoDigitsExplicit(n);
    var s := Padded(n, 2) + rest;
    assert s[0] == DigitChar(n / 10) && s[1] == DigitChar(n % 10) && s[2..] == rest;
  }
}
