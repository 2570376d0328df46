/**
 * Character classes used by the lexer, restricted to ASCII, and the decimal
 * numerals behind `u32::to_string` and `u32::from_str_radix(_, 10)`.
 */
module Chars {

  import opened Wrappers

  /** Rust's `u32`. */
  type u32 = x: int | 0 <= x < 0x1_0000_0000

  const U32Max: int := 0xFFFF_FFFF

  /** `char::is_whitespace` on ASCII: space, tab, line feed, vertical tab, form feed, carriage return. */
  predicate IsWhitespace(c: char) {
    c == ' ' || '\t' <= c <= '\r'
  }

  /** `char::is_digit(10)`. */
  predicate IsDigit(c: char) {
    '0' <= c <= '9'
  }

  /** `char::is_alphabetic` on ASCII. */
  predicate IsAlphabetic(c: char) {
    'a' <= c <= 'z' || 'A' <= c <= 'Z'
  }

  /** `char::is_alphanumeric` on ASCII. */
  predicate IsAlphanumeric(c: char) {
    IsAlphabetic(c) || IsDigit(c)
  }

  /** A character that may start an identifier: a letter or `_`. */
  predicate IsIdentifierStart(c: char) {
    c == '_' || IsAlphabetic(c)
  }

  /** `char::to_uppercase` on ASCII: lower-case letters map to upper case, everything else is kept. */
  function ToUpper(c: char): (u: char)
    ensures IsAlphabetic(u) <==> IsAlphabetic(c)
    ensures 'A' <= u <= 'Z' <==> IsAlphabetic(c)
    ensures 'a' <= c <= 'z' ==> u as int == c as int - 32
    ensures !('a' <= c <= 'z') ==> u == c
  {
    if 'a' <= c <= 'z' then (c as int - 32) as char else c
  }

  /** `str::to_uppercase` on ASCII strings. */
  function Uppercase(s: string): string
  {
    seq(|s|, i requires 0 <= i < |s| => ToUpper(s[i]))
  }

  predicate AllDigits(s: string) {
    forall i :: 0 <= i < |s| ==> IsDigit(s[i])
  }

  function DigitValue(c: char): (d: nat)
    requires IsDigit(c)
    ensures d < 10
  {
    c as int - '0' as int
  }

  function DigitChar(d: nat): (c: char)
    requires d < 10
    ensures IsDigit(c) && DigitValue(c) == d
  {
    ('0' as int + d) as char
  }

  /** The number a run of decimal digits denotes, most significant digit first. */
  function DigitsValue(s: string): nat
    requires AllDigits(s)
  {
    if s == [] then 0 else DigitsValue(s[..|s| - 1]) * 10 + DigitValue(s[|s| - 1])
  }

  /** `to_string` of a non-negative integer: its shortest decimal spelling. */
  function DecimalString(n: nat): (s: string)
    ensures |s| > 0 && AllDigits(s)
    ensures |s| > 1 ==> s[0] != '0'
  {
    if n < 10 then [DigitChar(n)] else DecimalString(n / 10) + [DigitChar(n % 10)]
  }

  /** Reading back the decimal spelling of `n` gives `n`. */
  lemma {:induction false} DecimalRoundTrip(n: nat)
    ensures DigitsValue(DecimalString(n)) == n
  {
    if n >= 10 {
      var s := DecimalString(n);
      assert s[..|s| - 1] == DecimalString(n / 10);
      DecimalRoundTrip(n / 10);
    }
  }

  /** `u32::from_str_radix(s, 10)` on a non-empty digit string: the value, or nothing when it exceeds `u32::MAX`. */
  function FromDecimal(s: string): Option<u32>
    requires |s| > 0 && AllDigits(s)
  {
    var n := DigitsValue(s);
    if n <= U32Max then Some(n) else None
  }
}
