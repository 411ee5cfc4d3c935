/**
 * Decimal text for integers: Python's `str(n)` for an `int`, as an f-string
 * renders it, and `int(s)` on a string of ASCII digits with an optional sign.
 */
module Decimal {
  import opened Wrappers

  predicate IsDigit(c: char)
  {
    '0' <= c <= '9'
  }

  /** A non-empty run of ASCII digits. */
  predicate IsDigits(s: string)
  {
    |s| > 0 && forall i | 0 <= i < |s| :: IsDigit(s[i])
  }

  /** The value of a run of digits, most significant first. */
  function DigitsValue(s: string): nat
    requires forall i | 0 <= i < |s| :: IsDigit(s[i])
    decreases |s|
  {
    if s == [] then 0
    else
      assert IsDigit(s[|s| - 1]);
      DigitsValue(s[..|s| - 1]) * 10 + (s[|s| - 1] as int - '0' as int)
  }

  /** The digits of a natural number, without leading zeros ("0" for zero). */
  function NatDigits(n: nat): (s: string)
    ensures IsDigits(s)
    ensures |s| > 1 ==> s[0] != '0'
    decreases n
  {
    var last := ['0' + (n % 10) as char];
    if n < 10 then last else NatDigits(n / 10) + last
  }

  /** `str(n)`: a minus sign before the digits of a negative number. */
  function Show(n: int): (s: string)
    ensures n >= 0 ==> IsDigits(s)
    ensures n < 0 ==> |s| > 1 && s[0] == '-' && IsDigits(s[1..])
    ensures forall i | 0 <= i < |s| :: IsDigit(s[i]) || s[i] == '-'
  {
    if n < 0 then "-" + NatDigits(-n) else NatDigits(n)
  }

  /** An optional sign followed by at least one ASCII digit. */
  predicate IsNumeral(s: string)
  {
    IsDigits(s) || (|s| > 1 && (s[0] == '-' || s[0] == '+') && IsDigits(s[1..]))
  }

  /**
   * `int(s)` on a string: the value of an optional sign followed by ASCII
   * digits, and None for every other text. Python raises ValueError on most
   * of those, but also accepts surrounding whitespace, digit-group
   * underscores and non-ASCII decimal digits, which are not modelled.
   */
  function Parse(s: string): (r: Option<int>)
    ensures r.Some? <==> IsNumeral(s)
    ensures IsDigits(s) ==> r == Some(DigitsValue(s))
    ensures |s| > 1 && s[0] == '-' && IsDigits(s[1..]) ==> r == Some(0 - DigitsValue(s[1..]) as int)
    ensures |s| > 1 && s[0] == '+' && IsDigits(s[1..]) ==> r == Some(DigitsValue(s[1..]))
  {
    if IsDigits(s) then Some(DigitsValue(s))
    else if |s| > 1 && s[0] == '-' && IsDigits(s[1..]) then Some(0 - DigitsValue(s[1..]) as int)
    else if |s| > 1 && s[0] == '+' && IsDigits(s[1..]) then Some(DigitsValue(s[1..]))
    else None
  }

  lemma {:induction false} NatDigitsValue(n: nat)
    ensures DigitsValue(NatDigits(n)) == n
    decreases n
  {
    var last := ['0' + (n % 10) as char];
    if n >= 10 {
      var s := NatDigits(n / 10) + last;
      assert s[..|s| - 1] == NatDigits(n / 10);
      NatDigitsValue(n / 10);
    }
  }

  /** Reading back what `str(n)` wrote gives `n`. */
  lemma ParseShow(n: int)
    ensures Parse(Show(n)) == Some(n)
  {
    if n < 0 {
      var d := NatDigits(-n);
      var s := "-" + d;
      assert Show(n) == s;
      assert s[0] == '-' && s[1..] == d;
      assert !IsDigits(s) by {
        assert !IsDigit(s[0]);
      }
      NatDigitsValue(-n);
      assert Parse(s) == Some(0 - DigitsValue(d) as int);
    } else {
      NatDigitsValue(n);
    }
  }

  /** Different numbers are written differently. */
  lemma ShowInjective(m: int, n: int)
    requires Show(m) == Show(n)
    ensures m == n
  {
    ParseShow(m);
    ParseShow(n);
  }
}
