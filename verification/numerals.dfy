/**
 * Decimal numerals: Python's `int(s)` on a version component, and the
 * decimal text an f-string gives a natural number.
 */
module Numerals {
  import opened Optional

  predicate IsDigit(c: char) {
    '0' <= c <= '9'
  }

  predicate AllDigits(s: string) {
    forall i :: 0 <= i < |s| ==> IsDigit(s[i])
  }

  /** The value of a run of ASCII digits, most significant first. */
  function DigitsValue(s: string): nat
    requires AllDigits(s)
  {
    if |s| == 0 then 0
    else 10 * DigitsValue(s[..|s| - 1]) + (s[|s| - 1] as int - '0' as int)
  }

  /**
   * Python's `int(s)`: an optional sign and at least one ASCII digit; `None`
   * where `int` raises `ValueError`.
   */
  function ParseInt(s: string): (n: Option<int>)
    ensures n.Some? ==>
              |s| > 0 && (if s[0] == '+' || s[0] == '-' then |s| > 1 && AllDigits(s[1..]) else AllDigits(s))
    ensures |s| > 0 && AllDigits(s) ==> n == Some(DigitsValue(s))
    ensures |s| > 1 && (s[0] == '+' || s[0] == '-') && AllDigits(s[1..]) ==>
              n == Some(if s[0] == '-' then -(DigitsValue(s[1..]) as int) else DigitsValue(s[1..]))
  {
    if |s| > 0 && (s[0] == '+' || s[0] == '-') then
      var digits := s[1..];
      if |digits| > 0 && AllDigits(digits) then
        var magnitude: int := DigitsValue(digits);
        Some(if s[0] == '-' then -magnitude else magnitude)
      else None
    else if |s| > 0 && AllDigits(s) then Some(DigitsValue(s))
    else None
  }

  function DigitChar(d: nat): (c: char)
    requires d < 10
    ensures IsDigit(c) && c as int - '0' as int == d
  {
    ('0' as int + d) as char
  }

  /** `f'{n}'` for a natural number: its shortest decimal numeral. */
  function Decimal(n: nat): (s: string)
    ensures |s| > 0 && AllDigits(s)
    ensures DigitsValue(s) == n
    ensures s[0] == '0' ==> n == 0
    ensures |s| > 1 ==> s[0] != '0'
  {
    if n < 10 then [DigitChar(n)]
    else
      var init := Decimal(n / 10);
      var s := init + [DigitChar(n % 10)];
      assert s[..|s| - 1] == init;
      s
  }

  /** Reading back the decimal text of a natural number gives the number. */
  lemma DecimalParses(n: nat)
    ensures ParseInt(Decimal(n)) == Some(n)
  {
    var s := Decimal(n);
    assert IsDigit(s[0]);
  }
}
