/*
 * Characters as the C library classifies them in the "C" locale (isspace,
 * isdigit), and the value of a string of decimal digits. Python 2's str
 * methods use the same classes for byte strings.
 */
module CText {

  predicate IsDigit(c: char)
  {
    '0' <= c <= '9'
  }

  /** Space, tab, newline, carriage return, vertical tab and form feed. */
  predicate IsSpace(c: char)
  {
    c == ' ' || c == '\t' || c == '\n' || c == '\r' || c == '\U{B}' || c == '\U{C}'
  }

  function Digit(c: char): (r: nat)
    requires IsDigit(c)
    ensures r < 10
  {
    c as int - '0' as int
  }

  /** The digit character for a value below 10. */
  function DigitChar(v: nat): (c: char)
    requires v < 10
    ensures IsDigit(c) && Digit(c) == v
  {
    ('0' as int + v) as char
  }

  predicate AllDigits(d: string)
  {
    forall i :: 0 <= i < |d| ==> IsDigit(d[i])
  }

  /** Leading white space skipped, as strtol and atoi do. */
  function SkipSpaces(s: string): (r: string)
    ensures |r| <= |s| && (r != [] ==> !IsSpace(r[0]))
  {
    if s != [] && IsSpace(s[0]) then SkipSpaces(s[1..]) else s
  }

  /** The value of a string of decimal digits, the last one least significant. */
  function DecimalValue(d: string): nat
    requires AllDigits(d)
  {
    if d == [] then 0 else DecimalValue(d[..|d| - 1]) * 10 + Digit(d[|d| - 1])
  }
}
