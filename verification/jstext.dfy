/**
 The few JavaScript string primitives the calculator relies on, stated over
 Dafny strings: character classes, `slice`, `indexOf`/`lastIndexOf`/`search`,
 and the NaN tests `isNaN(parseInt(t))` and `isNaN(t)` on strings of at most
 one character.
 */
module JsText {

  /** An ASCII decimal digit: the only characters `parseInt` reads in radix 10. */
  predicate IsDigit(c: char) {
    '0' <= c <= '9'
  }

  // The four binary operators, the character class the operator regex matches.
  const Operators: set<char> := {'+', '-', '*', '/'}

  predicate IsOperator(c: char) {
    c in Operators
  }

  /** ECMAScript StrWhiteSpaceChar (WhiteSpace or LineTerminator, sections 12.2
      and 12.3 of ECMA-262): the characters `Number(...)` skips around a numeral. */
  predicate IsWhiteSpace(c: char) {
    || c == '\t' || c == '\n' || c == '\U{000B}' || c == '\U{000C}' || c == '\r'
    || c == ' ' || c == '\U{00A0}' || c == '\U{1680}' || '\U{2000}' <= c <= '\U{200A}'
    || c == '\U{2028}' || c == '\U{2029}' || c == '\U{202F}' || c == '\U{205F}'
    || c == '\U{3000}' || c == '\U{FEFF}'
  }

  function Max(a: int, b: int): (m: int) {
    if a < b then b else a
  }

  /** A `slice` position: negative positions count back from the end, and the
      result is clamped to the string. */
  function Clamp(p: int, n: nat): (q: nat)
    ensures q <= n
    ensures 0 <= p <= n ==> q == p
    ensures -(n as int) <= p < 0 ==> q as int == n as int + p
  {
    if p < 0 then (if n + p < 0 then 0 else n + p)
    else if p > n then n
    else p
  }

  /** `s.slice(start, end)`. */
  function Slice(s: string, start: int, end: int): (t: string)
    ensures |t| <= |s|
    ensures 0 <= start <= end <= |s| ==> t == s[start..end]
    ensures 0 < |s| && start == -1 && end == |s| ==> t == [s[|s| - 1]]
    ensures 0 < |s| && start == 0 && end == -1 ==> t == s[..|s| - 1]
    ensures |s| == 0 ==> t == ""
  {
    var from := Clamp(start, |s|);
    var to := Clamp(end, |s|);
    if to <= from then "" else s[from..to]
  }

  /** Position of the first character of `s` that belongs to `cs`, or -1:
      `s.search` with a character-class regex, `s.indexOf(c)` for `{c}`. */
  function IndexOfAny(s: string, cs: set<char>): (i: int)
    ensures -1 <= i < |s|
    ensures 0 <= i ==> s[i] in cs
    ensures forall j :: 0 <= j < |s| && (i == -1 || j < i) ==> s[j] !in cs
  {
    if |s| == 0 then -1
    else if s[0] in cs then 0
    else
      var k := IndexOfAny(s[1..], cs);
      assert forall j :: 1 <= j < |s| ==> s[j] == s[1..][j - 1];
      if k == -1 then -1 else k + 1
  }

  /** Position of the last character of `s` that belongs to `cs`, or -1:
      `s.lastIndexOf(c)` for `{c}`. */
  function LastIndexOfAny(s: string, cs: set<char>): (i: int)
    ensures -1 <= i < |s|
    ensures 0 <= i ==> s[i] in cs
    ensures forall j :: i < j < |s| ==> s[j] !in cs
  {
    if |s| == 0 then -1
    else if s[|s| - 1] in cs then |s| - 1
    else LastIndexOfAny(s[..|s| - 1], cs)
  }

  function IndexOf(s: string, c: char): (i: int) {
    IndexOfAny(s, {c})
  }

  function LastIndexOf(s: string, c: char): (i: int) {
    LastIndexOfAny(s, {c})
  }

  predicate StartsWith(s: string, c: char) {
    0 < |s| && s[0] == c
  }

  predicate EndsWith(s: string, c: char) {
    0 < |s| && s[|s| - 1] == c
  }

  /** `isNaN(parseInt(t))` for a string of at most one character: `parseInt`
      skips leading white space and one sign, then needs at least one digit,
      so a lone character yields a number exactly when it is a digit. */
  predicate ParseIntIsNaN(t: string)
    requires |t| <= 1
  {
    |t| == 0 || !IsDigit(t[0])
  }

  /** `isNaN(t)` for a string of at most one character: `Number(t)` is 0 for
      the empty string and for white space alone, a digit's value for a digit,
      and NaN for everything else. */
  predicate NumberIsNaN(t: string)
    requires |t| <= 1
  {
    |t| == 1 && !IsDigit(t[0]) && !IsWhiteSpace(t[0])
  }
}
