/** Character classes shared by the calculator, the evaluator and the formatter. */
module Chars {

  /** An ASCII decimal digit (the digits the calculator's keypad produces). */
  predicate IsDigit(c: char) {
    '0' <= c <= '9'
  }

  /** The four binary operators `+ - * /`. */
  predicate IsOperator(c: char) {
    c == '+' || c == '-' || c == '*' || c == '/'
  }

  /** An operator or the decimal point: the characters `operator` overwrites. */
  predicate IsOperatorOrDot(c: char) {
    IsOperator(c) || c == '.'
  }

  /** The code point ranges, inclusive, that java.lang.Character.isWhitespace accepts: the ASCII
      controls TAB, LF, VT, FF, CR and FS, GS, RS, US, the space, and the Unicode space, line and
      paragraph separators other than the no-break spaces U+00A0, U+2007 and U+202F. */
  const WhitespaceRanges: seq<(int, int)> := [
    (0x09, 0x0D), (0x1C, 0x20), (0x1680, 0x1680), (0x2000, 0x2006), (0x2008, 0x200A),
    (0x2028, 0x2029), (0x205F, 0x205F), (0x3000, 0x3000)]

  /** `n` lies in one of the ranges. */
  predicate InRanges(n: int, ranges: seq<(int, int)>) {
    ranges != [] && (ranges[0].0 <= n <= ranges[0].1 || InRanges(n, ranges[1..]))
  }

  /** java.lang.Character.isWhitespace. */
  predicate IsWhitespace(c: char) {
    InRanges(c as int, WhitespaceRanges)
  }

  /** A code point outside every range is in none of them. */
  lemma {:induction false} OutsideRanges(n: int, ranges: seq<(int, int)>)
    requires forall k :: 0 <= k < |ranges| ==> n < ranges[k].0 || ranges[k].1 < n
    ensures !InRanges(n, ranges)
  {
    if ranges != [] {
      OutsideRanges(n, ranges[1..]);
    }
  }

  /** Digits, points and operators are not whitespace. */
  lemma NotWhitespace(c: char)
    requires IsDigit(c) || IsOperatorOrDot(c)
    ensures !IsWhitespace(c)
  {
    OutsideRanges(c as int, WhitespaceRanges);
  }

  predicate AllDigits(s: string) {
    forall i :: 0 <= i < |s| ==> IsDigit(s[i])
  }

  function DigitValue(c: char): (d: nat)
    requires IsDigit(c)
    ensures d < 10
  {
    c as int - '0' as int
  }

  function DigitChar(d: nat): (c: char)
    requires d < 10
    ensures IsDigit(c) && DigitValue(c) == d
  {
    ('0' as int + d) as char
  }
}
