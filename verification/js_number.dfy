/** JavaScript's `parseInt` (no radix argument) and `parseFloat`, as the
    scraper uses them on cell texts. `None` stands for `NaN`. `parseFloat` is
    modelled as an exact decimal-to-rational parse: the rounding to a binary
    double is not modelled. */
module JsNumber {
  import opened Optional
  import opened JsText

  /** The value `parseFloat` can produce besides `NaN`. */
  datatype Number = Finite(value: real) | Infinity(negative: bool)

  predicate IsDigit(c: char) {
    '0' <= c <= '9'
  }

  predicate AllDigits(s: string) {
    forall i :: 0 <= i < |s| ==> IsDigit(s[i])
  }

  /** The digit value `parseInt` gives a character: 0-9, then letters as
      10-35 in either case; 36 for anything that is no digit in any radix. */
  function DigitValue(c: char): (d: nat)
    ensures d <= 36
    ensures d < 10 <==> IsDigit(c)
  {
    if '0' <= c <= '9' then c as int - '0' as int
    else if 'a' <= c <= 'z' then c as int - 'a' as int + 10
    else if 'A' <= c <= 'Z' then c as int - 'A' as int + 10
    else 36
  }

  predicate AllRadixDigits(s: string, radix: nat) {
    forall i :: 0 <= i < |s| ==> DigitValue(s[i]) < radix
  }

  /** The number a digit string denotes in `radix`, most significant first. */
  function Value(ds: string, radix: nat): nat {
    if |ds| == 0 then 0
    else Value(ds[..|ds| - 1], radix) * radix + DigitValue(ds[|ds| - 1])
  }

  /** The longest prefix of `s` made of digits of `radix`. */
  function LeadingDigits(s: string, radix: nat): (ds: string)
    ensures |ds| <= |s| && ds == s[..|ds|]
    ensures AllRadixDigits(ds, radix)
    ensures |ds| == |s| || DigitValue(s[|ds|]) >= radix
  {
    if |s| > 0 && DigitValue(s[0]) < radix then
      var rest := LeadingDigits(s[1..], radix);
      assert s[..1 + |rest|] == [s[0]] + rest;
      [s[0]] + rest
    else ""
  }

  /** The text after an optional leading sign, and whether the sign is `-`. */
  function Unsigned(t: string): (string, bool) {
    if |t| > 0 && (t[0] == '-' || t[0] == '+') then (t[1..], t[0] == '-')
    else (t, false)
  }

  predicate HasHexPrefix(u: string) {
    |u| >= 2 && u[0] == '0' && (u[1] == 'x' || u[1] == 'X')
  }

  /** `parseInt(s)`: leading white space and one sign skipped, a `0x`/`0X`
      prefix selects radix 16, otherwise radix 10; the longest digit prefix
      is the value, and without one the result is `NaN`. */
  function ParseInt(s: string): Option<int> {
    var (u, negative) := Unsigned(TrimStart(s));
    var radix := if HasHexPrefix(u) then 16 else 10;
    var ds := LeadingDigits(if HasHexPrefix(u) then u[2..] else u, radix);
    if |ds| == 0 then None
    else Some(if negative then -(Value(ds, radix) as int) else Value(ds, radix))
  }

  /** How a non-negative integer is written in decimal, without leading zeros. */
  function DecimalString(n: nat): (s: string)
    ensures |s| > 0 && AllDigits(s)
  {
    if n < 10 then ['0' + n as char]
    else DecimalString(n / 10) + ['0' + (n % 10) as char]
  }

  lemma {:induction false} DecimalStringValue(n: nat)
    ensures Value(DecimalString(n), 10) == n
  {
    var s := DecimalString(n);
    if n >= 10 {
      DecimalStringValue(n / 10);
      assert s[..|s| - 1] == DecimalString(n / 10);
    }
  }

  lemma {:induction false} DigitsAreRadix10(ds: string)
    requires AllDigits(ds)
    ensures AllRadixDigits(ds, 10)
  {
    forall i | 0 <= i < |ds| ensures DigitValue(ds[i]) < 10 {
      assert IsDigit(ds[i]);
    }
  }

  /** The longest digit prefix of a digit run followed by a non-digit is the
      run itself. */
  lemma {:induction false} LeadingDigitsOf(ds: string, rest: string, radix: nat)
    requires AllRadixDigits(ds, radix)
    requires |rest| == 0 || DigitValue(rest[0]) >= radix
    ensures LeadingDigits(ds + rest, radix) == ds
  {
    if |ds| > 0 {
      assert (ds + rest)[1..] == ds[1..] + rest;
      LeadingDigitsOf(ds[1..], rest, radix);
    } else {
      assert ds + rest == rest;
    }
  }

  /** Text that starts with a decimal digit is its own `TrimStart` and has
      no sign. */
  lemma StartsWithDigit(s: string)
    requires |s| > 0 && IsDigit(s[0])
    ensures Unsigned(TrimStart(s)) == (s, false)
  {
    assert !IsSpace(s[0]);
  }

  /** `parseInt` of text that starts with a decimal digit and no `0x`. */
  lemma ParseIntPlain(s: string)
    requires |s| > 0 && IsDigit(s[0]) && !HasHexPrefix(s)
    ensures ParseInt(s) == Some(Value(LeadingDigits(s, 10), 10))
  {
    StartsWithDigit(s);
    assert DigitValue(s[0]) < 10;
    assert |LeadingDigits(s, 10)| > 0;
  }

  /** `parseInt` reads a decimal digit run up to the first non-digit, unless
      the run is a lone `0` followed by `x`, which starts a hexadecimal
      literal. */
  lemma ParseIntDecimal(ds: string, rest: string)
    requires |ds| > 0 && AllDigits(ds)
    requires |rest| == 0 || !IsDigit(rest[0])
    requires !(ds == "0" && |rest| > 0 && (rest[0] == 'x' || rest[0] == 'X'))
    ensures ParseInt(ds + rest) == Some(Value(ds, 10))
  {
    var s := ds + rest;
    assert s[0] == ds[0];
    assert !HasHexPrefix(s);
    ParseIntPlain(s);
    DigitsAreRadix10(ds);
    LeadingDigitsOf(ds, rest, 10);
  }

  /** Reading back what `DecimalString` writes gives the number. */
  lemma ParseIntRoundTrip(n: nat)
    ensures ParseInt(DecimalString(n)) == Some(n)
  {
    var s := DecimalString(n);
    assert s + "" == s;
    ParseIntDecimal(s, "");
    DecimalStringValue(n);
  }

  /** Text whose first character after white space and sign is not a decimal
      digit is `NaN` to `parseInt`. */
  lemma ParseIntNaN(s: string)
    requires var (u, _) := Unsigned(TrimStart(s)); |u| == 0 || !IsDigit(u[0])
    ensures ParseInt(s) == None
  {
  }

  /** 10 to the power `e`, for any integer `e`. */
  function Pow10(e: int): (p: real)
    ensures p > 0.0
    decreases if e < 0 then -e else e
  {
    if e == 0 then 1.0
    else if e > 0 then 10.0 * Pow10(e - 1)
    else Pow10(e + 1) / 10.0
  }

  /** The signed exponent of an `e`/`E` exponent part at the head of `s`, or
      0 when `s` does not start with a complete one (`parseFloat` then stops
      before the `e`). */
  function ExponentPart(s: string): int {
    if |s| >= 2 && (s[0] == 'e' || s[0] == 'E') then
      var (body, negative) := Unsigned(s[1..]);
      var ds := LeadingDigits(body, 10);
      if |ds| == 0 then 0
      else if negative then -(Value(ds, 10) as int)
      else Value(ds, 10)
    else 0
  }

  /** The decimal number denoted by integer digits, fraction digits and an
      exponent. */
  function DecimalValue(intDigits: string, fracDigits: string, exponent: int): real {
    (Value(intDigits, 10) as real + Value(fracDigits, 10) as real / Pow10(|fracDigits|))
      * Pow10(exponent)
  }

  predicate StartsWithInfinity(u: string) {
    |u| >= 8 && u[..8] == "Infinity"
  }

  /** The value of the longest prefix of `u` of the form
      digits [`.` digits] [exponent] with a digit on at least one side of the
      point, or `None` when `u` has no such prefix. */
  function DecimalPrefix(u: string): Option<real> {
    var intDigits := LeadingDigits(u, 10);
    var rest := u[|intDigits|..];
    var point := |rest| > 0 && rest[0] == '.';
    var fracDigits := if point then LeadingDigits(rest[1..], 10) else "";
    if |intDigits| == 0 && |fracDigits| == 0 then None
    else
      var tail := if point then rest[1 + |fracDigits|..] else rest;
      Some(DecimalValue(intDigits, fracDigits, ExponentPart(tail)))
  }

  /** `parseFloat(s)`: leading white space and one sign skipped; `Infinity`
      is read as such; otherwise the longest decimal prefix is the value, and
      without one the result is `NaN`. */
  function ParseFloat(s: string): Option<Number> {
    var (u, negative) := Unsigned(TrimStart(s));
    if StartsWithInfinity(u) then Some(Infinity(negative))
    else
      match DecimalPrefix(u)
      case None => None
      case Some(v) => Some(Finite(if negative then -v else v))
  }

  /** Where `parseFloat` finds a number: after white space and an optional
      sign, a digit, a point followed by a digit, or the word `Infinity`. */
  predicate StartsNumeric(u: string) {
    || (|u| > 0 && IsDigit(u[0]))
    || (|u| > 1 && u[0] == '.' && IsDigit(u[1]))
    || StartsWithInfinity(u)
  }

  /** `parseFloat` is `NaN` exactly when the text does not start numerically. */
  lemma ParseFloatNaN(s: string)
    ensures ParseFloat(s) == None <==> !StartsNumeric(Unsigned(TrimStart(s)).0)
  {
    DecimalPrefixFound(Unsigned(TrimStart(s)).0);
  }

  /** A decimal prefix exists exactly when the text starts with a digit or
      with a point and a digit. */
  lemma DecimalPrefixFound(u: string)
    ensures DecimalPrefix(u).Some?
            <==> (|u| > 0 && IsDigit(u[0])) || (|u| > 1 && u[0] == '.' && IsDigit(u[1]))
  {
    LeadingDigitsEmpty(u);
    if |u| > 0 {
      LeadingDigitsEmpty(u[1..]);
    }
  }

  lemma LeadingDigitsEmpty(s: string)
    ensures |LeadingDigits(s, 10)| == 0 <==> |s| == 0 || !IsDigit(s[0])
  {
    if |s| > 0 {
      assert IsDigit(s[0]) <==> DigitValue(s[0]) < 10;
    }
  }

  /** Text that starts with a digit does not start with `Infinity`. */
  lemma NotInfinity(u: string)
    requires |u| > 0 && IsDigit(u[0])
    ensures !StartsWithInfinity(u)
  {
    if |u| >= 8 {
      assert u[..8][0] == u[0];
    }
  }

  lemma DecimalValueNoFraction(intDigits: string)
    ensures DecimalValue(intDigits, "", 0) == Value(intDigits, 10) as real
  {
    assert Pow10(0) == 1.0;
    assert Value("", 10) == 0;
  }

  /** `parseFloat` of text that starts with a decimal digit is its decimal
      prefix. */
  lemma ParseFloatPlain(s: string)
    requires |s| > 0 && IsDigit(s[0])
    ensures DecimalPrefix(s).Some?
    ensures ParseFloat(s) == Some(Finite(DecimalPrefix(s).value))
  {
    StartsWithDigit(s);
    NotInfinity(s);
    DecimalPrefixFound(s);
  }

  lemma DecimalPrefixPoint(intDigits: string, fracDigits: string)
    requires |intDigits| > 0 && AllDigits(intDigits) && AllDigits(fracDigits)
    ensures DecimalPrefix(intDigits + "." + fracDigits)
            == Some(DecimalValue(intDigits, fracDigits, 0))
  {
    var s := intDigits + "." + fracDigits;
    DigitsAreRadix10(intDigits);
    DigitsAreRadix10(fracDigits);
    assert s == intDigits + ("." + fracDigits);
    LeadingDigitsOf(intDigits, "." + fracDigits, 10);
    var rest := s[|intDigits|..];
    assert rest == "." + fracDigits;
    assert rest[1..] == fracDigits + "";
    LeadingDigitsOf(fracDigits, "", 10);
    assert rest[1 + |fracDigits|..] == "";
    assert ExponentPart("") == 0;
  }

  lemma DecimalPrefixInteger(intDigits: string)
    requires |intDigits| > 0 && AllDigits(intDigits)
    ensures DecimalPrefix(intDigits) == Some(Value(intDigits, 10) as real)
  {
    DigitsAreRadix10(intDigits);
    assert intDigits + "" == intDigits;
    LeadingDigitsOf(intDigits, "", 10);
    assert intDigits[|intDigits|..] == "";
    assert ExponentPart("") == 0;
    DecimalValueNoFraction(intDigits);
  }

  /** A plain decimal `digits.digits` reads back as its exact value. */
  lemma ParseFloatDecimal(intDigits: string, fracDigits: string)
    requires |intDigits| > 0 && AllDigits(intDigits) && AllDigits(fracDigits)
    ensures ParseFloat(intDigits + "." + fracDigits)
            == Some(Finite(DecimalValue(intDigits, fracDigits, 0)))
  {
    var s := intDigits + "." + fracDigits;
    assert s[0] == intDigits[0];
    ParseFloatPlain(s);
    DecimalPrefixPoint(intDigits, fracDigits);
  }

  /** A decimal integer reads back as its value. */
  lemma ParseFloatInteger(intDigits: string)
    requires |intDigits| > 0 && AllDigits(intDigits)
    ensures ParseFloat(intDigits) == Some(Finite(Value(intDigits, 10) as real))
  {
    ParseFloatPlain(intDigits);
    DecimalPrefixInteger(intDigits);
  }
}
