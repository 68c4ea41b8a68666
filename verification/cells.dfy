/** The per-cell normalisers of the standings scraper: splitting a trailing
    `(handicap)` off the player's name, `parseNumber` for the numeric
    columns, and the `|| null` pass-through of the free-text columns. Each is
    total: a malformed cell becomes `None` (JSON `null`), never an error. */
module Cells {
  import opened Optional
  import opened JsText
  import opened Seqs
  import opened JsNumber

  /** `t` is white space, `(`, the digits `ds`, `)`, white space, with the
      `(` at index `p`. */
  predicate TailAt(t: string, p: int, ds: string) {
    && 0 <= p && p + |ds| + 2 <= |t|
    && |ds| > 0 && AllDigits(ds)
    && AllSpace(t[..p])
    && t[p] == '('
    && t[p + 1..p + 1 + |ds|] == ds
    && t[p + 1 + |ds|] == ')'
    && AllSpace(t[p + |ds| + 2..])
  }

  /** Match `\s*\((\d+)\)\s*$` against the whole of `t`: the digit group. */
  function HandicapTail(t: string): Option<string> {
    var u := Trim(t);
    if IsTailCore(u) then Some(u[1..|u| - 1]) else None
  }

  /** `(`, at least one digit, `)`. */
  predicate IsTailCore(u: string) {
    |u| >= 3 && u[0] == '(' && u[|u| - 1] == ')' && AllDigits(u[1..|u| - 1])
  }

  lemma HandicapTailHasShape(t: string, ds: string)
    requires HandicapTail(t) == Some(ds)
    ensures exists p :: TailAt(t, p, ds)
  {
    var u := Trim(t);
    var p :| SpaceAround(t, p, u);
    TailFromCore(t, p, u, ds);
  }

  lemma ShapeHasHandicapTail(t: string, p: int, ds: string)
    requires TailAt(t, p, ds)
    ensures HandicapTail(t) == Some(ds)
  {
    var before, core, after := t[..p], t[p..p + |ds| + 2], t[p + |ds| + 2..];
    assert core == "(" + ds + ")";
    assert t == before + core + after;
    TrimAround(before, core, after);
    assert core[1..|core| - 1] == ds;
  }

  /** A `(digits)` core at `p` with only white space around it. */
  lemma TailFromCore(t: string, p: int, u: string, ds: string)
    requires SpaceAround(t, p, u)
    requires IsTailCore(u) && ds == u[1..|u| - 1]
    ensures TailAt(t, p, ds)
  {
    SliceOfSuffix(t, p, 1, |u| - 1);
    SliceOfPrefix(t, p + |u|, p, p + |u|);
  }

  /** `HandicapTail` finds the digit group exactly when the text has the
      shape the regular expression describes. */
  lemma HandicapTailShape(t: string, ds: string)
    ensures HandicapTail(t) == Some(ds) <==> exists p :: TailAt(t, p, ds)
  {
    if HandicapTail(t) == Some(ds) {
      HandicapTailHasShape(t, ds);
    }
    if p :| TailAt(t, p, ds) {
      ShapeHasHandicapTail(t, p, ds);
    }
  }

  /** In a tail of that shape the only `(` is the one at `p`. */
  lemma TailHasOneParen(t: string, p: int, ds: string, i: int)
    requires TailAt(t, p, ds)
    requires 0 <= i < |t| && t[i] == '('
    ensures i == p
  {
  }

  /** The lazily quantified `(.+?)` can end after `k` characters: the
      group is non-empty, holds no line terminator (`.` does not match one),
      and the rest of the text is a handicap tail. */
  predicate SplitsAt(s: string, k: int) {
    1 <= k <= |s| && NoLineTerminator(s[..k]) && HandicapTail(s[k..]).Some?
  }

  /** No split point lies in `[a, b)`. */
  predicate NoSplitBetween(s: string, a: int, b: int) {
    forall m :: a <= m < b ==> !SplitsAt(s, m)
  }

  /** The first split point at or after `k`: where the lazy group stops. */
  function FirstSplit(s: string, k: nat): (r: Option<nat>)
    requires 1 <= k
    ensures r.Some? ==> k <= r.value <= |s| && SplitsAt(s, r.value) && NoSplitBetween(s, k, r.value)
    ensures r.None? ==> NoSplitBetween(s, k, |s| + 1)
    decreases |s| - k
  {
    if k > |s| then None
    else if SplitsAt(s, k) then Some(k)
    else
      var r := FirstSplit(s, k + 1);
      NoSplitExtend(s, k, if r.Some? then r.value else |s| + 1);
      r
  }

  lemma NoSplitExtend(s: string, k: int, b: int)
    requires !SplitsAt(s, k) && NoSplitBetween(s, k + 1, b)
    ensures NoSplitBetween(s, k, b)
  {
  }

  /** The regular expression matches with the lazy group ending after `k`
      characters: `k` is the first split point. */
  predicate MatchesAt(s: string, k: int) {
    SplitsAt(s, k) && NoSplitBetween(s, 1, k)
  }

  /** What a match ending the group at `k` yields: the trimmed group as the
      name and the digit group's decimal value as the handicap. */
  predicate SplitFrom(s: string, k: int, r: (string, Option<int>))
    requires SplitsAt(s, k)
  {
    r == (Trim(s[..k]), Some(Value(HandicapTail(s[k..]).value, 10) as int))
  }

  /** The player text split into `naam` and `handicap`: when
      `^(.+?)\s*\((\d+)\)\s*$` matches, the trimmed lazy group and the digit
      group read by `parseInt`; otherwise the whole text and no handicap. */
  function SplitHandicap(fullText: string): (r: (string, Option<int>))
    ensures r.1.None? <==> forall k :: !SplitsAt(fullText, k)
    ensures r.1.None? ==> r.0 == fullText
    ensures r.1.Some? ==> exists k :: MatchesAt(fullText, k) && SplitFrom(fullText, k, r)
  {
    match FirstSplit(fullText, 1)
    case None => (fullText, None)
    case Some(k) =>
      var ds := HandicapTail(fullText[k..]).value;
      HandicapTailShape(fullText[k..], ds);
      assert ds + "" == ds;
      ParseIntDecimal(ds, "");
      var r := (Trim(fullText[..k]), ParseInt(ds));
      assert MatchesAt(fullText, k) && SplitFrom(fullText, k, r);
      r
  }

  /** The split at the first split point is the result. */
  lemma SplitHandicapAt(s: string, k: int)
    requires MatchesAt(s, k)
    ensures SplitHandicap(s) == (Trim(s[..k]), Some(Value(HandicapTail(s[k..]).value, 10) as int))
  {
    var r := SplitHandicap(s);
    var k' :| MatchesAt(s, k') && SplitFrom(s, k', r);
    assert !(k' < k) && !(k < k');
  }

  /** After a trimmed one-line name, ` (digits)` is a split point. */
  lemma SplitsAfterName(name: string, ds: string)
    requires |name| > 0 && NoLineTerminator(name)
    requires |ds| > 0 && AllDigits(ds)
    ensures SplitsAt(name + " (" + ds + ")", |name|)
    ensures HandicapTail((name + " (" + ds + ")")[|name|..]) == Some(ds)
  {
    var s := name + " (" + ds + ")";
    var n := |name|;
    assert s[..n] == name;
    var t := s[n..];
    assert t == " (" + ds + ")";
    assert t[2..2 + |ds|] == ds;
    assert t[|ds| + 3..] == "";
    assert TailAt(t, 1, ds);
    ShapeHasHandicapTail(t, 1, ds);
  }

  lemma NameBeforeTail(name: string, ds: string)
    ensures (name + " (" + ds + ")")[..|name|] == name
  {
    AppendAssoc(name, " (", ds);
    AppendAssoc(name, " (" + ds, ")");
    PrefixOfAppend(name, " (" + ds + ")");
  }

  /** No split point lies inside a trimmed name followed by ` (digits)`:
      the `(` after the name would have to be the tail's only `(`, leaving
      the name's last character in the tail's leading white space. */
  lemma NoSplitInsideName(name: string, ds: string, m: int)
    requires |name| > 0 && IsTrimmed(name)
    requires 1 <= m < |name|
    ensures !SplitsAt(name + " (" + ds + ")", m)
  {
    var s := name + " (" + ds + ")";
    var n := |name|;
    var t := s[m..];
    assert t[n - 1 - m] == name[n - 1];
    assert t[n + 1 - m] == '(';
    NotTailBeforeParen(t, n - 1 - m, n + 1 - m);
  }

  lemma NoSplitBeforeParen(name: string, ds: string)
    requires |name| > 0 && IsTrimmed(name)
    ensures NoSplitBetween(name + " (" + ds + ")", 1, |name|)
  {
    forall m | 1 <= m < |name|
      ensures !SplitsAt(name + " (" + ds + ")", m)
    {
      NoSplitInsideName(name, ds, m);
    }
  }

  /** Text with a non-space character before some `(` is no handicap tail. */
  lemma NotTailBeforeParen(t: string, j: int, i: int)
    requires 0 <= j < i < |t| && t[i] == '(' && !IsSpace(t[j])
    ensures HandicapTail(t).None?
  {
    if HandicapTail(t).Some? {
      var d := HandicapTail(t).value;
      HandicapTailHasShape(t, d);
      var p :| TailAt(t, p, d);
      TailHasOneParen(t, p, d, i);
      SpaceBeforeTail(t, p, d, j);
    }
  }

  lemma SpaceBeforeTail(t: string, p: int, ds: string, j: int)
    requires TailAt(t, p, ds) && 0 <= j < p
    ensures IsSpace(t[j])
  {
    assert t[..p][j] == t[j];
  }

  /** A name followed by ` (digits)` splits back into that name and the
      digits' value, provided the name is trimmed, non-empty and on one line.
      This is how the site writes a player with a handicap. */
  lemma SplitHandicapRoundTrip(name: string, ds: string)
    requires |name| > 0 && IsTrimmed(name) && NoLineTerminator(name)
    requires |ds| > 0 && AllDigits(ds)
    ensures SplitHandicap(name + " (" + ds + ")") == (name, Some(Value(ds, 10) as int))
  {
    var s := name + " (" + ds + ")";
    var n := |name|;
    SplitsAfterName(name, ds);
    NoSplitBeforeParen(name, ds);
    SplitHandicapAt(s, n);
    NameBeforeTail(name, ds);
    TrimFixedPoints(name);
  }

  /** Text with no `)` never matches: the name is the whole text and there
      is no handicap. */
  lemma SplitHandicapNoParen(fullText: string)
    requires ')' !in fullText
    ensures SplitHandicap(fullText) == (fullText, None)
  {
  }

  /** The worked examples of the player column. */
  lemma SplitHandicapWithHandicap()
    ensures SplitHandicap("Jan de Vries (12)") == ("Jan de Vries", Some(12))
  {
    var name := "Jan de Vries";
    assert IsTrimmed(name);
    assert NoLineTerminator(name);
    assert "Jan de Vries (12)" == name + " (" + "12" + ")";
    assert Value("12", 10) == 12 by {
      assert "12"[..1] == "1";
    }
    SplitHandicapRoundTrip(name, "12");
  }

  lemma SplitHandicapWithoutHandicap()
    ensures SplitHandicap("Jan de Vries") == ("Jan de Vries", None)
  {
    assert ')' !in "Jan de Vries";
    SplitHandicapNoParen("Jan de Vries");
  }

  /** The text `parseFloat` sees: the first `,` made a `.` and the first `%`
      removed, in that order. */
  function NormaliseDecimal(v: string): string {
    ReplaceFirst(ReplaceFirst(v, ',', "."), '%', "")
  }

  /** `parseNumber`: a missing cell, `""` and `"-"` are null; otherwise the
      normalised text through `parseFloat`, with `NaN` made null. */
  function ParseNumber(val: Option<string>): (r: Option<Number>)
    ensures val.None? || val == Some("") || val == Some("-") ==> r.None?
  {
    match val
    case None => None
    case Some(v) => if v == "" || v == "-" then None else ParseFloat(NormaliseDecimal(v))
  }

  /** A cell is null exactly when it is missing, empty, a dash, or does not
      start numerically once normalised. */
  lemma ParseNumberNull(v: string)
    ensures ParseNumber(Some(v)).None?
            <==> v == "" || v == "-"
                 || !StartsNumeric(Unsigned(TrimStart(NormaliseDecimal(v))).0)
  {
    ParseFloatNaN(NormaliseDecimal(v));
  }

  lemma DigitsExclude(ds: string, c: char)
    requires AllDigits(ds) && !IsDigit(c)
    ensures c !in ds
  {
  }

  /** A decimal comma reads as a decimal point. */
  lemma ParseNumberDecimalComma(intDigits: string, fracDigits: string)
    requires |intDigits| > 0 && AllDigits(intDigits) && AllDigits(fracDigits)
    ensures ParseNumber(Some(intDigits + "," + fracDigits))
            == Some(Finite(DecimalValue(intDigits, fracDigits, 0)))
  {
    var v := intDigits + "," + fracDigits;
    DigitsExclude(intDigits, ',');
    ReplaceFirstAt(intDigits, ',', fracDigits, ".");
    var w := intDigits + "." + fracDigits;
    DigitsExclude(intDigits, '%');
    DigitsExclude(fracDigits, '%');
    assert '%' !in w;
    assert v[0] == intDigits[0];
    ParseFloatDecimal(intDigits, fracDigits);
  }

  /** A percent sign after an integer is dropped. */
  lemma ParseNumberPercent(intDigits: string)
    requires |intDigits| > 0 && AllDigits(intDigits)
    ensures ParseNumber(Some(intDigits + "%")) == Some(Finite(Value(intDigits, 10) as real))
  {
    var v := intDigits + "%";
    DigitsExclude(intDigits, ',');
    assert ',' !in v;
    DigitsExclude(intDigits, '%');
    assert v == intDigits + ['%'] + "";
    ReplaceFirstAt(intDigits, '%', "", "");
    assert intDigits + "" + "" == intDigits;
    assert v[0] == intDigits[0];
    ParseFloatInteger(intDigits);
  }

  /** The worked examples of the numeric columns. */
  lemma ParseNumberCommaExample()
    ensures ParseNumber(Some("12,5")) == Some(Finite(12.5))
  {
    assert "12,5" == "12" + "," + "5";
    ParseNumberDecimalComma("12", "5");
    TwelveAndAHalf();
  }

  lemma TwelveAndAHalf()
    ensures DecimalValue("12", "5", 0) == 12.5
  {
    assert Value("12", 10) == 12 by {
      assert "12"[..1] == "1";
    }
    assert Value("5", 10) == 5 by {
      assert "5"[..0] == "";
    }
    assert Pow10(1) == 10.0;
    assert Pow10(0) == 1.0;
  }

  lemma ParseNumberPercentExample()
    ensures ParseNumber(Some("85%")) == Some(Finite(85.0))
  {
    EightyFive();
    ParseNumberPercent("85");
  }

  lemma EightyFive()
    ensures Value("85", 10) == 85 && "85%" == "85" + "%"
  {
    assert "85"[..1] == "8";
  }

  lemma ParseNumberNullExamples()
    ensures ParseNumber(Some("-")) == None
    ensures ParseNumber(Some("")) == None
    ensures ParseNumber(Some("abc")) == None
    ensures ParseNumber(None) == None
  {
    LettersAreNotNumeric();
    ParseNumberNull("abc");
  }

  lemma LettersAreNotNumeric()
    ensures !StartsNumeric(Unsigned(TrimStart(NormaliseDecimal("abc"))).0)
  {
    var v := "abc";
    assert ',' !in v && '%' !in v;
    NormaliseUnchanged(v);
    PlainTextNotNumeric(v);
  }

  lemma NormaliseUnchanged(v: string)
    requires ',' !in v && '%' !in v
    ensures NormaliseDecimal(v) == v
  {
  }

  /** Text starting with a character that opens no number. */
  lemma PlainTextNotNumeric(u: string)
    requires |u| > 0 && !IsSpace(u[0]) && !IsDigit(u[0])
    requires u[0] !in ".-+I"
    ensures !StartsNumeric(Unsigned(TrimStart(u)).0)
  {
    if |u| >= 8 {
      assert u[..8][0] == u[0];
    }
  }

  /** `cell || null` for the free-text columns: the trimmed text verbatim,
      or null when the cell is missing or empty. */
  function TextOrNull(val: Option<string>): (r: Option<string>)
    ensures r.None? <==> val.None? || val.value == ""
    ensures r.Some? ==> r == val
  {
    if val.Some? && val.value != "" then val else None
  }
}
