/** Decimal digit strings: reading them (Python's `int(s)`) and writing them (`f"{n}"`, `f"{n:02}"`). */
module Decimal {

  predicate IsDigit(ch: char) {
    '0' <= ch <= '9'
  }

  predicate AllDigits(s: string) {
    forall i :: 0 <= i < |s| ==> IsDigit(s[i])
  }

  function DigitValue(ch: char): nat
    requires IsDigit(ch)
  {
    ch as int - '0' as int
  }

  function DigitChar(d: nat): (ch: char)
    requires d < 10
    ensures IsDigit(ch) && DigitValue(ch) == d
  {
    ('0' as int + d) as char
  }

  /** The number a string of decimal digits denotes; the empty string denotes 0. */
  function Value(s: string): nat
    requires AllDigits(s)
  {
    if |s| == 0 then 0 else 10 * Value(s[..|s| - 1]) + DigitValue(s[|s| - 1])
  }

  /** A string of at most two digits denotes a number below 100. */
  lemma ValueOfTwoDigits(s: string)
    requires AllDigits(s) && |s| <= 2
    ensures Value(s) < 100
  {
    if |s| == 2 {
      assert Value(s[..1]) == DigitValue(s[0]);
    }
  }

  /** The shortest decimal rendering of `n`, with no leading zero. */
  function Show(n: nat): (r: string)
    ensures AllDigits(r) && 1 <= |r|
    ensures Value(r) == n
    ensures |r| > 1 ==> r[0] != '0'
    ensures n < 10 <==> |r| == 1
    ensures 10 <= n < 100 <==> |r| == 2
    decreases n
  {
    if n < 10 then [DigitChar(n)]
    else
      var prefix := Show(n / 10);
      var r := prefix + [DigitChar(n % 10)];
      assert r[..|r| - 1] == prefix;
      r
  }

  /** `f"{n:02}"`: zero-padded to at least two characters. */
  function Pad2(n: nat): (r: string)
    ensures AllDigits(r) && Value(r) == n
    ensures n < 100 ==> |r| == 2
    ensures n >= 100 ==> r == Show(n)
  {
    if n < 10 then
      var r := "0" + Show(n);
      assert r[..1] == "0";
      r
    else Show(n)
  }

  /** Below 100, the padded rendering is the tens digit and the units digit. */
  lemma Pad2Digits(n: nat)
    requires n < 100
    ensures Pad2(n) == [DigitChar(n / 10), DigitChar(n % 10)]
  {
    if n >= 10 {
      assert Show(n / 10) == [DigitChar(n / 10)];
    }
  }
}
