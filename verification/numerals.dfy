/**
 Decimal numerals: `str(n)` for a natural number, and reading the digits
 back, which recovers the number.
 */
module Numerals {

  predicate IsDigit(c: char)
  {
    '0' <= c <= '9'
  }

  function DigitChar(d: int): (c: char)
    requires 0 <= d < 10
    ensures IsDigit(c)
  {
    ('0' as int + d) as char
  }

  function DigitValue(c: char): int
  {
    c as int - '0' as int
  }

  /** `str(n)`: the decimal digits of `n`, most significant first, with no
      leading zero. */
  function ToDecimal(n: nat): (r: string)
    ensures 1 <= |r|
    ensures forall i :: 0 <= i < |r| ==> IsDigit(r[i])
    ensures r[0] == '0' ==> n == 0
    decreases n
  {
    if n < 10 then [DigitChar(n)] else ToDecimal(n / 10) + [DigitChar(n % 10)]
  }

  /** The number a string of decimal digits denotes. */
  function FromDecimal(s: string): int
    decreases |s|
  {
    if |s| == 0 then 0 else FromDecimal(s[..|s| - 1]) * 10 + DigitValue(s[|s| - 1])
  }

  /** Reading back the digits of `str(n)` gives `n`. */
  lemma {:induction false} FromToDecimal(n: nat)
    ensures FromDecimal(ToDecimal(n)) == n
    decreases n
  {
    if n >= 10 {
      var r := ToDecimal(n);
      assert r[..|r| - 1] == ToDecimal(n / 10);
      FromToDecimal(n / 10);
    }
  }

  /** Numbers from 10 to 99 have two digits, numbers from 100 to 999 three. */
  lemma DecimalLength(n: nat)
    ensures 10 <= n < 100 ==> |ToDecimal(n)| == 2
    ensures 100 <= n < 1000 ==> |ToDecimal(n)| == 3
  {
    if 10 <= n {
      assert |ToDecimal(n)| == |ToDecimal(n / 10)| + 1;
      if 100 <= n {
        assert |ToDecimal(n / 10)| == |ToDecimal(n / 100)| + 1;
      }
    }
  }
}
