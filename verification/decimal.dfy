/** Decimal rendering of the date components of a storage path: Python's
    `str(year)` and the zero-padded `f"{month:02d}"`, together with the
    parser that inverts them. */
module Decimal {

  predicate IsDigit(c: char) {
    '0' <= c <= '9'
  }

  predicate AllDigits(s: string) {
    forall i :: 0 <= i < |s| ==> IsDigit(s[i])
  }

  function DigitChar(d: nat): (c: char)
    requires d < 10
    ensures IsDigit(c)
  {
    ('0' as int + d) as char
  }

  function DigitValue(c: char): (d: nat)
    requires IsDigit(c)
    ensures d < 10
  {
    c as int - '0' as int
  }

  /** `str(n)`: shortest decimal numeral, no sign, no leading zero. */
  function Dec(n: nat): (s: string)
    ensures 1 <= |s|
    ensures AllDigits(s)
    ensures n > 0 ==> s[0] != '0'
    decreases n
  {
    if n < 10 then [DigitChar(n)] else Dec(n / 10) + [DigitChar(n % 10)]
  }

  /** The value of a numeral, most significant digit first. */
  function Parse(s: string): nat
    requires AllDigits(s)
  {
    if |s| == 0 then 0 else 10 * Parse(s[..|s| - 1]) + DigitValue(s[|s| - 1])
  }

  /** `f"{m:02d}"` for `0 <= m < 100`: always exactly two digits. */
  function PadTwo(m: nat): (s: string)
    requires m < 100
    ensures |s| == 2
    ensures AllDigits(s)
  {
    [DigitChar(m / 10), DigitChar(m % 10)]
  }

  lemma {:induction false} ParseDec(n: nat)
    ensures Parse(Dec(n)) == n
    decreases n
  {
    if n >= 10 {
      var s := Dec(n);
      assert s[..|s| - 1] == Dec(n / 10);
      ParseDec(n / 10);
    }
  }

  lemma ParsePadTwo(m: nat)
    requires m < 100
    ensures Parse(PadTwo(m)) == m
  {
    var s := PadTwo(m);
    assert s[..1][..0] == [];
    assert Parse(s[..1]) == m / 10;
    assert Parse(s) == 10 * (m / 10) + m % 10;
  }

  /** Distinct numbers have distinct numerals. */
  lemma DecInjective(a: nat, b: nat)
    ensures Dec(a) == Dec(b) ==> a == b
  {
    ParseDec(a);
    ParseDec(b);
  }
}
