/** The JavaScript string primitives the scraper relies on:
    `String.prototype.trim`, the `\s` class of regular expressions,
    `toLowerCase` on header cells and `replace(char, string)` with a string
    pattern, which replaces only the first occurrence. */
module JsText {
  import opened Seqs

  /** ECMAScript LineTerminator code points: the characters `.` in a regular
      expression does not match. */
  predicate IsLineTerminator(c: char) {
    c == '\n' || c == '\r' || c == '\U{2028}' || c == '\U{2029}'
  }

  /** ECMAScript WhiteSpace and LineTerminator code points: what `trim`
      removes and what `\s` matches (the Zs category spelled out). */
  predicate IsSpace(c: char) {
    || c == '\t' || c == '\U{000B}' || c == '\U{000C}' || c == ' '
    || c == '\U{00A0}' || c == '\U{FEFF}' || c == '\U{1680}'
    || ('\U{2000}' <= c <= '\U{200A}')
    || c == '\U{202F}' || c == '\U{205F}' || c == '\U{3000}'
    || IsLineTerminator(c)
  }

  predicate AllSpace(s: string) {
    forall i :: 0 <= i < |s| ==> IsSpace(s[i])
  }

  predicate NoLineTerminator(s: string) {
    forall i :: 0 <= i < |s| ==> !IsLineTerminator(s[i])
  }

  /** Neither end of `s` is white space: what a trimmed string looks like. */
  predicate IsTrimmed(s: string) {
    |s| == 0 || (!IsSpace(s[0]) && !IsSpace(s[|s| - 1]))
  }

  /** The index of the first character at or after `k` that is not white
      space, or `|s|`. */
  function SpaceEnd(s: string, k: nat): (n: nat)
    requires k <= |s|
    ensures k <= n <= |s|
    ensures forall j :: k <= j < n ==> IsSpace(s[j])
    ensures n == |s| || !IsSpace(s[n])
    decreases |s| - k
  {
    if k < |s| && IsSpace(s[k]) then SpaceEnd(s, k + 1) else k
  }

  /** The index just after the last character before `k` that is not white
      space, or 0. */
  function SpaceStart(s: string, k: nat): (n: nat)
    requires k <= |s|
    ensures n <= k
    ensures forall j :: n <= j < k ==> IsSpace(s[j])
    ensures n == 0 || !IsSpace(s[n - 1])
  {
    if k > 0 && IsSpace(s[k - 1]) then SpaceStart(s, k - 1) else k
  }

  /** Leading white space removed (`trimStart`); also the first step of
      `parseInt` and `parseFloat`. */
  function TrimStart(s: string): (r: string)
    ensures |r| <= |s| && r == s[|s| - |r|..]
    ensures AllSpace(s[..|s| - |r|])
    ensures |r| == 0 || !IsSpace(r[0])
  {
    s[SpaceEnd(s, 0)..]
  }

  /** Trailing white space removed (`trimEnd`). */
  function TrimEnd(s: string): (r: string)
    ensures |r| <= |s| && r == s[..|r|]
    ensures AllSpace(s[|r|..])
    ensures |r| == 0 || !IsSpace(r[|r| - 1])
  {
    s[..SpaceStart(s, |s|)]
  }

  /** `r` is the slice of `s` starting at `i` with only white space on
      either side of it. */
  predicate SpaceAround(s: string, i: int, r: string) {
    0 <= i <= |s| - |r| && r == s[i..i + |r|]
    && AllSpace(s[..i]) && AllSpace(s[i + |r|..])
  }

  /** `String.prototype.trim`: the text between the leading and the trailing
      white space. */
  function Trim(s: string): (r: string)
    ensures IsTrimmed(r)
    ensures exists i :: SpaceAround(s, i, r)
  {
    var t := TrimStart(s);
    var r := TrimEnd(t);
    var i := |s| - |t|;
    assert SpaceAround(s, i, r) by {
      assert s[i + |r|..] == t[|r|..];
    }
    r
  }

  /** Trimming removes nothing from a string that is already trimmed, and
      nothing else: the trimmed strings are exactly the fixed points. */
  lemma TrimFixedPoints(s: string)
    ensures Trim(s) == s <==> IsTrimmed(s)
  {
    if IsTrimmed(s) && |s| > 0 {
      assert TrimStart(s) == s;
      assert TrimEnd(s) == s;
    }
  }

  lemma TrimIdempotent(s: string)
    ensures Trim(Trim(s)) == Trim(s)
  {
    TrimFixedPoints(Trim(s));
  }

  /** A string trims to the empty string exactly when it is all white space,
      which is when JavaScript treats the trimmed text as falsy. */
  lemma TrimEmpty(s: string)
    ensures Trim(s) == "" <==> AllSpace(s)
  {
    var t := TrimStart(s);
    TrimStartEmpty(s);
    TrimEndEmpty(t);
    if |t| > 0 {
      assert !IsSpace(t[0]);
    }
  }

  lemma TrimStartEmpty(s: string)
    ensures TrimStart(s) == "" <==> AllSpace(s)
  {
    assert s[..|s|] == s;
  }

  lemma TrimEndEmpty(s: string)
    ensures TrimEnd(s) == "" <==> AllSpace(s)
  {
    assert s[0..] == s;
  }

  /** Trimming a string that is white space around a trimmed core yields the
      core. */
  lemma TrimAround(a: string, core: string, b: string)
    requires AllSpace(a) && AllSpace(b) && IsTrimmed(core) && |core| > 0
    ensures Trim(a + core + b) == core
  {
    AppendAssoc(a, core, b);
    assert (core + b)[0] == core[0];
    TrimStartSpaces(a, core + b);
    TrimEndSpaces(core, b);
  }

  /** White space removed from the front of `a + t` is exactly `a` when
      `t` starts with a character that is not white space. */
  lemma TrimStartSpaces(a: string, t: string)
    requires AllSpace(a) && |t| > 0 && !IsSpace(t[0])
    ensures TrimStart(a + t) == t
  {
    var s := a + t;
    assert s[|a|] == t[0];
    SuffixOfAppend(a, t);
  }

  /** White space removed from the back of `t + b` is exactly `b` when `t`
      ends with a character that is not white space. */
  lemma TrimEndSpaces(t: string, b: string)
    requires AllSpace(b) && |t| > 0 && !IsSpace(t[|t| - 1])
    ensures TrimEnd(t + b) == t
  {
    var s := t + b;
    assert s[|t| - 1] == t[|t| - 1];
    PrefixOfAppend(t, b);
  }

  /** `toLowerCase` on one character, for the ASCII letters. */
  function LowerChar(c: char): char {
    if 'A' <= c <= 'Z' then (c as int - 'A' as int + 'a' as int) as char else c
  }

  function ToLower(s: string): string {
    seq(|s|, i requires 0 <= i < |s| => LowerChar(s[i]))
  }

  /** Index of the first `c` in `s`, or `|s|` when there is none. */
  function IndexOf(s: string, c: char): (i: nat)
    ensures i <= |s| && c !in s[..i]
    ensures i < |s| ==> s[i] == c
    ensures i == |s| ==> c !in s
  {
    if |s| == 0 then 0
    else if s[0] == c then 0
    else
      var j := IndexOf(s[1..], c);
      assert s[..j + 1] == [s[0]] + s[1..][..j];
      1 + j
  }

  /** `s.replace(c, rep)` with a one-character string pattern: only the first
      occurrence of `c` is replaced; without one the string is unchanged. */
  function ReplaceFirst(s: string, c: char, rep: string): (r: string)
    ensures c !in s ==> r == s
    ensures c in s ==> exists i :: 0 <= i < |s| && s[i] == c && c !in s[..i]
                                   && r == s[..i] + rep + s[i + 1..]
  {
    var i := IndexOf(s, c);
    if i == |s| then s else s[..i] + rep + s[i + 1..]
  }

  /** Replacing the first `c` in text whose first `c` follows `a`. */
  lemma ReplaceFirstAt(a: string, c: char, b: string, rep: string)
    requires c !in a
    ensures ReplaceFirst(a + [c] + b, c, rep) == a + rep + b
  {
    var s := a + [c] + b;
    var i := IndexOf(s, c);
    assert s[|a|] == c;
    assert i == |a|;
    assert s[..i] == a;
    assert s[i + 1..] == b;
  }
}
