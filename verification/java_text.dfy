/**
 The pieces of Java's text handling the timecode code relies on: decimal
 rendering of an `int` (string concatenation, `Long.toString`), the `%02d`
 format, and reading back a run of ASCII digits (`Integer.valueOf`).
 */
module JavaText {

  predicate IsDigit(c: char) {
    '0' <= c <= '9'
  }

  predicate AllDigits(s: string) {
    forall i :: 0 <= i < |s| ==> IsDigit(s[i])
  }

  function DigitValue(c: char): (d: int)
    requires IsDigit(c)
    ensures 0 <= d < 10
  {
    c as int - '0' as int
  }

  function DigitChar(d: int): (c: char)
    requires 0 <= d < 10
    ensures IsDigit(c) && DigitValue(c) == d
  {
    ('0' as int + d) as char
  }

  /** The decimal digits of a non-negative number, without leading zeros. */
  function NatToString(n: nat): (s: string)
    ensures |s| >= 1 && AllDigits(s)
    ensures |s| > 1 ==> s[0] != '0'
    ensures n < 10 <==> |s| == 1
    decreases n
  {
    if n < 10 then [DigitChar(n)] else NatToString(n / 10) + [DigitChar(n % 10)]
  }

  /** How Java renders an `int` in string concatenation and `Long.toString`. */
  function IntToString(n: int): (s: string)
    ensures |s| >= 1
    ensures n >= 0 <==> AllDigits(s)
    ensures n < 0 <==> s[0] == '-'
  {
    if n < 0 then
      var s := "-" + NatToString(-n);
      assert !IsDigit(s[0]);
      s
    else
      NatToString(n)
  }

  /** The number a run of decimal digits denotes (leading zeros allowed). */
  function DigitsValue(s: string): nat
    requires AllDigits(s)
    decreases |s|
  {
    if |s| == 0 then 0 else DigitsValue(s[..|s| - 1]) * 10 + DigitValue(s[|s| - 1])
  }

  /** Reading back the rendering of a number gives that number. */
  lemma {:induction false} DigitsValueOfNatToString(n: nat)
    ensures DigitsValue(NatToString(n)) == n
    decreases n
  {
    var s := NatToString(n);
    if n >= 10 {
      DigitsValueOfNatToString(n / 10);
      assert s[..|s| - 1] == NatToString(n / 10);
    }
  }

  /** The same for any `int`, so that callers need not split on the sign. */
  lemma DigitsValueOfIntToString(n: int)
    ensures n >= 0 ==> DigitsValue(IntToString(n)) == n
  {
    if n >= 0 {
      DigitsValueOfNatToString(n);
    }
  }

  /** Java's `String.format("%02d", n)`: zero-padded to two characters, the pad going after a sign. */
  function Format02d(n: int): (s: string)
    ensures 0 <= n < 100 ==> |s| == 2 && AllDigits(s) && DigitsValue(s) == n
    ensures n >= 10 || n < 0 ==> s == IntToString(n)
  {
    if 0 <= n < 10 then
      var s := "0" + NatToString(n);
      assert s[..1] == "0" && ""[..0] == "";
      assert DigitsValue("0") == 0;
      s
    else
      DigitsValueOfIntToString(n);
      IntToString(n)
  }
}
