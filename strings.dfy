/**
 * The JavaScript string operations the application relies on, over strings
 * as sequences of characters: prefix and suffix tests, `includes`, the
 * whitespace set of `trim` and of the regular-expression class `\s`, and
 * decimal rendering of numbers inside template literals.
 */
module Strings {

  /** A case mapping such as `toLowerCase` or `toUpperCase`, left abstract. */
  type CaseMap = string -> string

  predicate StartsWith(s: string, prefix: string) {
    |prefix| <= |s| && s[..|prefix|] == prefix
  }

  predicate EndsWith(s: string, suffix: string) {
    |suffix| <= |s| && s[|s| - |suffix|..] == suffix
  }

  /** `s.includes(q)`: `q` occurs in `s` at some offset (the empty string occurs everywhere). */
  predicate Includes(s: string, q: string) {
    exists i :: 0 <= i <= |s| && StartsWith(s[i..], q)
  }

  /** ECMAScript LineTerminator: LF, CR, LINE SEPARATOR, PARAGRAPH SEPARATOR. */
  predicate IsLineTerminator(c: char) {
    c == '\n' || c == '\r' || c == '\U{2028}' || c == '\U{2029}'
  }

  /** ECMAScript WhiteSpace or LineTerminator: what `trim` removes and what `\s` matches. */
  predicate IsJsWhitespace(c: char) {
    || IsLineTerminator(c)
    || c == '\t' || c == '\U{000B}' || c == '\U{000C}' || c == ' '
    || c == '\U{00A0}' || c == '\U{FEFF}' || c == '\U{1680}'
    || ('\U{2000}' <= c <= '\U{200A}')
    || c == '\U{202F}' || c == '\U{205F}' || c == '\U{3000}'
  }

  predicate AllWhitespace(s: string) {
    forall i :: 0 <= i < |s| ==> IsJsWhitespace(s[i])
  }

  /** Neither the first nor the last character is whitespace. */
  predicate Trimmed(s: string) {
    s == [] || (!IsJsWhitespace(s[0]) && !IsJsWhitespace(s[|s| - 1]))
  }

  /** The end of the run of whitespace that starts at i. */
  function WhitespaceRunEnd(s: string, i: nat): (e: nat)
    requires i <= |s|
    ensures i <= e <= |s|
    ensures forall j :: i <= j < e ==> IsJsWhitespace(s[j])
    ensures e == |s| || !IsJsWhitespace(s[e])
    decreases |s| - i
  {
    if i < |s| && IsJsWhitespace(s[i]) then WhitespaceRunEnd(s, i + 1) else i
  }

  /** The start of the run of whitespace that ends at j, not going below lo. */
  function WhitespaceRunStart(s: string, lo: nat, j: nat): (b: nat)
    requires lo <= j <= |s|
    ensures lo <= b <= j
    ensures forall i :: b <= i < j ==> IsJsWhitespace(s[i])
    ensures b == lo || !IsJsWhitespace(s[b - 1])
    decreases j
  {
    if j > lo && IsJsWhitespace(s[j - 1]) then WhitespaceRunStart(s, lo, j - 1) else j
  }

  /**
   * `s.trim()`: the result is the slice s[k..k + |r|] for some k, everything
   * outside the slice is whitespace, and the result has no whitespace at
   * either end.
   */
  function Trim(s: string): (r: string)
    ensures |r| <= |s|
    ensures Trimmed(r)
    ensures exists k :: 0 <= k <= |s| - |r| && s[k..k + |r|] == r
                        && AllWhitespace(s[..k]) && AllWhitespace(s[k + |r|..])
  {
    var a := WhitespaceRunEnd(s, 0);
    var b := WhitespaceRunStart(s, a, |s|);
    assert AllWhitespace(s[..a]) by {
      forall i | 0 <= i < a ensures IsJsWhitespace(s[..a][i]) {
        assert s[..a][i] == s[i];
      }
    }
    assert AllWhitespace(s[b..]) by {
      forall i | 0 <= i < |s| - b ensures IsJsWhitespace(s[b..][i]) {
        assert s[b..][i] == s[b + i];
      }
    }
    s[a..b]
  }

  lemma TrimOfTrimmed(s: string)
    requires Trimmed(s)
    ensures Trim(s) == s
  {
  }

  predicate IsDigit(c: char) {
    '0' <= c <= '9'
  }

  predicate AllDigits(s: string) {
    forall i :: 0 <= i < |s| ==> IsDigit(s[i])
  }

  function DigitChar(d: nat): (c: char)
    requires d < 10
    ensures IsDigit(c) && c as int - '0' as int == d
  {
    ('0' as int + d) as char
  }

  /** The number a string of decimal digits denotes (`Number(s)` for such strings). */
  function DigitsValue(s: string): nat
    requires AllDigits(s)
  {
    if s == [] then 0 else 10 * DigitsValue(s[..|s| - 1]) + (s[|s| - 1] as int - '0' as int)
  }

  /** The decimal rendering of a natural number, as a template literal prints it. */
  function Decimal(n: nat): (r: string)
    ensures |r| > 0 && AllDigits(r)
    ensures r[0] == '0' ==> n == 0
  {
    if n < 10 then [DigitChar(n)] else Decimal(n / 10) + [DigitChar(n % 10)]
  }

  /** The decimal rendering of an integer, with a leading "-" when it is negative. */
  function SignedDecimal(n: int): (r: string)
    ensures n >= 0 ==> r == Decimal(n)
    ensures n < 0 ==> r == "-" + Decimal(-n)
  {
    if n >= 0 then Decimal(n) else "-" + Decimal(-n)
  }

  /** Reading back a rendered number gives the number. */
  lemma {:induction false} DecimalRoundTrip(n: nat)
    ensures DigitsValue(Decimal(n)) == n
  {
    if n >= 10 {
      DecimalRoundTrip(n / 10);
      var d := Decimal(n);
      assert d[..|d| - 1] == Decimal(n / 10);
    }
  }

  /** Distinct numbers render to distinct strings. */
  lemma DecimalInjective(m: nat, n: nat)
    requires Decimal(m) == Decimal(n)
    ensures m == n
  {
    DecimalRoundTrip(m);
    DecimalRoundTrip(n);
  }
}
