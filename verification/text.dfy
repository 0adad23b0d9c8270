/**
 Blank-ness and trimming of strings, as used by the task service
 (`string.IsNullOrWhiteSpace`, `string.Trim()`) and by the browser client
 (`String.prototype.trim`).

 Every definition and lemma is generic in the whitespace class `ws`: the
 properties proved here hold whatever characters count as whitespace. The
 two concrete classes the system uses are given at the end of the module.
 */
module Text {

  /** Every character of `s` is whitespace (vacuously true of ""). */
  predicate IsBlank(s: string, ws: char -> bool) {
    BlankBetween(s, ws, 0, |s|)
  }

  /** Every character of `s` at a position in `[lo, hi)` is whitespace. */
  predicate BlankBetween(s: string, ws: char -> bool, lo: int, hi: int) {
    forall p :: lo <= p < hi && 0 <= p < |s| ==> ws(s[p])
  }

  /** `s[i..j]` is what remains of `s` once whitespace is stripped from both ends:
      `s[..i]` and `s[j..]` are blank, and a non-empty `s[i..j]` starts and ends
      with a non-whitespace character. */
  ghost predicate Framed(s: string, ws: char -> bool, i: int, j: int) {
    && 0 <= i <= j <= |s|
    && BlankBetween(s, ws, 0, i)
    && BlankBetween(s, ws, j, |s|)
    && (i == j || (!ws(s[i]) && !ws(s[j - 1])))
  }

  /** The first position at or after `from` that does not hold whitespace, or
      `|s|` when there is none. */
  function SkipWsForward(s: string, ws: char -> bool, from: nat): (i: nat)
    requires from <= |s|
    ensures from <= i <= |s|
    ensures BlankBetween(s, ws, from, i)
    ensures i == |s| || !ws(s[i])
    decreases |s| - from
  {
    if from < |s| && ws(s[from]) then SkipWsForward(s, ws, from + 1) else from
  }

  /** The least position `j <= to` such that `s[j..to]` is all whitespace. */
  function SkipWsBackward(s: string, ws: char -> bool, to: nat): (j: nat)
    requires to <= |s|
    ensures j <= to
    ensures BlankBetween(s, ws, j, to)
    ensures j == 0 || !ws(s[j - 1])
  {
    if to > 0 && ws(s[to - 1]) then SkipWsBackward(s, ws, to - 1) else to
  }

  /** `s` with leading and trailing whitespace removed: the slice of `s` that
      `Framed` describes. It is empty exactly when `s` is blank. */
  function Trim(s: string, ws: char -> bool): (r: string)
    ensures exists i, j :: Framed(s, ws, i, j) && r == s[i..j]
    ensures r == [] <==> IsBlank(s, ws)
  {
    var i := SkipWsForward(s, ws, 0);
    if i == |s| then
      assert Framed(s, ws, i, i);
      []
    else
      var j := SkipWsBackward(s, ws, |s|);
      assert i < j;
      assert Framed(s, ws, i, j);
      assert !IsBlank(s, ws) by { assert !ws(s[i]); }
      s[i..j]
  }

  /** The framing of a string is unique, so `Framed` is an independent definition
      of trimming: whatever slice is framed is the slice `Trim` returns. */
  lemma TrimUnique(s: string, ws: char -> bool, i: int, j: int)
    requires Framed(s, ws, i, j)
    ensures Trim(s, ws) == s[i..j]
  {
  }

  /** Trimming is idempotent. */
  lemma TrimIdempotent(s: string, ws: char -> bool)
    ensures Trim(Trim(s, ws), ws) == Trim(s, ws)
  {
  }

  /** A string that is not blank trims to a non-empty, non-blank string: the
      property the task service relies on to keep every stored description
      non-blank. */
  lemma TrimNonBlank(s: string, ws: char -> bool)
    requires !IsBlank(s, ws)
    ensures |Trim(s, ws)| > 0 && !IsBlank(Trim(s, ws), ws)
  {
  }

  /** Whitespace as `System.Char.IsWhiteSpace` classifies it, which is what
      `string.IsNullOrWhiteSpace` and the argument-less `string.Trim()` of .NET use:
      U+0009 to U+000D, U+0085, and the Unicode separator categories Zs, Zl and Zp. */
  predicate IsDotNetWs(c: char) {
    || ('\t' <= c <= '\r')
    || c == ' '
    || c == '\U{0085}'
    || c == '\U{00A0}'
    || c == '\U{1680}'
    || ('\U{2000}' <= c <= '\U{200A}')
    || c == '\U{2028}'
    || c == '\U{2029}'
    || c == '\U{202F}'
    || c == '\U{205F}'
    || c == '\U{3000}'
  }

  /** Whitespace as ECMAScript's `String.prototype.trim` strips it: the WhiteSpace
      productions (TAB, VT, FF, ZWNBSP U+FEFF and category Zs) together with the
      LineTerminator productions (LF, CR, U+2028, U+2029). It differs from the
      .NET class by admitting U+FEFF and not U+0085. */
  predicate IsJsWs(c: char) {
    || c == '\t'
    || c == '\n'
    || c == '\U{000B}'
    || c == '\U{000C}'
    || c == '\r'
    || c == ' '
    || c == '\U{00A0}'
    || c == '\U{1680}'
    || ('\U{2000}' <= c <= '\U{200A}')
    || c == '\U{2028}'
    || c == '\U{2029}'
    || c == '\U{202F}'
    || c == '\U{205F}'
    || c == '\U{3000}'
    || c == '\U{FEFF}'
  }
}
