/** Decimal digits: the `\d` class of a JavaScript regular expression, the
    maximal run of digits at a position, and the decimal rendering of a
    number that a template literal such as `${index + 1}` produces. */
module Text {

  predicate IsDigit(c: char) {
    '0' <= c <= '9'
  }

  /** A non-empty string of decimal digits only. */
  predicate IsDigits(s: string) {
    |s| > 0 && forall k :: 0 <= k < |s| ==> IsDigit(s[k])
  }

  /** The longest run of digits of `s` that starts at position `j`. */
  function DigitRun(s: string, j: nat): (r: string)
    requires j <= |s|
    ensures j + |r| <= |s| && r == s[j..j + |r|]
    ensures forall k :: 0 <= k < |r| ==> IsDigit(r[k])
    ensures j + |r| == |s| || !IsDigit(s[j + |r|])
    decreases |s| - j
  {
    if j < |s| && IsDigit(s[j]) then [s[j]] + DigitRun(s, j + 1) else []
  }

  function DigitChar(d: nat): (c: char)
    requires d < 10
    ensures IsDigit(c)
  {
    (('0' as int) + d) as char
  }

  function DigitValue(c: char): (d: nat)
    requires IsDigit(c)
    ensures d < 10
  {
    (c as int) - ('0' as int)
  }

  /** The decimal notation of `n`, as JavaScript converts a non-negative
      integer to a string: digits only, and no leading zero. */
  function DecimalString(n: nat): (r: string)
    ensures IsDigits(r)
    ensures r[0] == '0' ==> r == "0"
    decreases n
  {
    if n < 10 then [DigitChar(n)] else DecimalString(n / 10) + [DigitChar(n % 10)]
  }

  /** The number a string of digits denotes. */
  function DecimalValue(s: string): nat
    requires forall k :: 0 <= k < |s| ==> IsDigit(s[k])
    decreases |s|
  {
    if s == [] then 0 else 10 * DecimalValue(s[..|s| - 1]) + DigitValue(s[|s| - 1])
  }

  /** Reading back the decimal notation of a number gives that number. */
  lemma {:induction false} DecimalRoundTrip(n: nat)
    ensures DecimalValue(DecimalString(n)) == n
    decreases n
  {
    if n >= 10 {
      var s := DecimalString(n);
      assert s[..|s| - 1] == DecimalString(n / 10);
      DecimalRoundTrip(n / 10);
    }
  }

  /** A run of digits at position `j` that is followed by a non-digit (or by
      the end of `s`) is the digit run at `j`. */
  lemma {:induction false} DigitRunIs(s: string, j: nat, d: string)
    requires j + |d| <= |s| && s[j..j + |d|] == d
    requires forall k :: 0 <= k < |d| ==> IsDigit(d[k])
    requires j + |d| == |s| || !IsDigit(s[j + |d|])
    ensures DigitRun(s, j) == d
    decreases |d|
  {
    if d != [] {
      assert s[j] == d[0];
      assert s[j + 1..j + 1 + |d[1..]|] == d[1..];
      DigitRunIs(s, j + 1, d[1..]);
    }
  }
}
