/**
  Decimal integer text: the `isInteger` test (the pattern `^-?\d+$`), base-10
  parsing as `parseInt(s, 10)` does it on text that passed that test, and the
  decimal rendering JavaScript uses when it turns a number into text.
 */
module Decimal {
  import Text

  /** `\d` in a JavaScript regular expression: an ASCII decimal digit. */
  predicate IsDigit(c: char) {
    '0' <= c <= '9'
  }

  predicate AllDigits(d: string) {
    forall k :: 0 <= k < |d| ==> IsDigit(d[k])
  }

  /** `\d+`: one or more digits. */
  predicate IsDigits(d: string) {
    |d| > 0 && AllDigits(d)
  }

  /** `isInteger`: the whole of `s` matches `-?\d+`, an optional single minus sign followed
      by one or more digits and nothing else. */
  predicate IsInteger(s: string) {
    IsDigits(s) || (|s| > 0 && s[0] == '-' && IsDigits(s[1..]))
  }

  /** What `isInteger` accepts, character by character: a non-empty text whose first
      character is a digit, or a minus sign followed by at least one more character, and
      whose every later character is a digit; so no `+`, `.`, exponent or space anywhere. */
  lemma IntegerCharacters(s: string)
    ensures IsInteger(s) <==>
              && |s| > 0
              && (IsDigit(s[0]) || (s[0] == '-' && |s| > 1))
              && (forall k :: 1 <= k < |s| ==> IsDigit(s[k]))
  {
    if |s| > 0 {
      assert forall k :: 1 <= k < |s| ==> s[1..][k - 1] == s[k];
    }
  }

  function DigitValue(c: char): (n: nat)
    requires IsDigit(c)
    ensures n < 10
  {
    (c as int) - ('0' as int)
  }

  function DigitChar(n: nat): (c: char)
    requires n < 10
    ensures IsDigit(c) && DigitValue(c) == n
  {
    (('0' as int) + n) as char
  }

  /** The base-10 value of a digit string, most significant digit first; leading zeros add nothing. */
  function DigitsValue(d: string): nat
    requires AllDigits(d)
  {
    if d == [] then 0 else 10 * DigitsValue(d[..|d| - 1]) + DigitValue(d[|d| - 1])
  }

  /** `parseInt(s, 10)` on text that `isInteger` accepted. */
  function ParseInteger(s: string): int
    requires IsInteger(s)
  {
    if s[0] == '-' then -(DigitsValue(s[1..]) as int) else DigitsValue(s)
  }

  /** The shortest decimal rendering of a natural number: its digits, with no leading zero
      (0 itself is the single digit "0"). */
  function RenderNat(n: nat): (d: string)
    ensures IsDigits(d) && DigitsValue(d) == n
    ensures d[0] == '0' ==> n == 0
    ensures |d| > 1 ==> d[0] != '0'
  {
    if n < 10 then [DigitChar(n)] else RenderNat(n / 10) + [DigitChar(n % 10)]
  }

  /** `String(n)` for an integer: a minus sign in front of a negative value's magnitude. */
  function Render(n: int): (s: string)
    ensures IsInteger(s)
  {
    if n < 0 then
      var d := RenderNat(-n);
      assert ("-" + d)[1..] == d;
      "-" + d
    else RenderNat(n)
  }

  /** Parsing is the inverse of rendering: every integer renders to text that `isInteger`
      accepts and that parses back to the same integer. */
  lemma ParseRender(n: int)
    ensures IsInteger(Render(n)) && ParseInteger(Render(n)) == n
  {
    if n < 0 {
      assert Render(n)[1..] == RenderNat(-n);
    }
  }

  /** A run of zeros has value zero. */
  lemma {:induction false} ZerosValue(zeros: string)
    requires forall k :: 0 <= k < |zeros| ==> zeros[k] == '0'
    ensures AllDigits(zeros) && DigitsValue(zeros) == 0
    decreases |zeros|
  {
    if zeros != [] {
      ZerosValue(zeros[..|zeros| - 1]);
    }
  }

  /** Leading zeros do not change the parsed value ("007" reads as 7). */
  lemma {:induction false} LeadingZeros(zeros: string, d: string)
    requires forall k :: 0 <= k < |zeros| ==> zeros[k] == '0'
    requires AllDigits(d)
    ensures AllDigits(zeros + d) && DigitsValue(zeros + d) == DigitsValue(d)
    decreases |d|
  {
    ZerosValue(zeros);
    if d == [] {
      assert zeros + d == zeros;
    } else {
      var s := zeros + d;
      assert s[..|s| - 1] == zeros + d[..|d| - 1];
      LeadingZeros(zeros, d[..|d| - 1]);
    }
  }

  /** Text that `isInteger` accepts is a single token: it holds no whitespace at all. */
  lemma IntegerHasNoWhitespace(s: string)
    requires IsInteger(s)
    ensures Text.NoWhitespace(s)
  {
    forall k | 0 <= k < |s| ensures !Text.IsWhitespace(s[k]) {
      if k > 0 { assert s[k] == s[1..][k - 1]; }
    }
  }
}
