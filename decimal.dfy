/** Decimal rendering of integers as Python's `str(int)` and the `:02d` format
    specifier produce it, with a parser that inverts it. */
module Decimal {
  import opened Wrappers

  predicate IsDigit(c: char) {
    '0' <= c <= '9'
  }

  /** Every character is a digit (stated from the end, as `ValueOf` reads). */
  predicate AllDigits(s: string) {
    s == [] || (AllDigits(s[..|s| - 1]) && IsDigit(s[|s| - 1]))
  }

  function DigitChar(d: nat): (c: char)
    requires d < 10
    ensures IsDigit(c)
  {
    ('0' as int + d) as char
  }

  function DigitValue(c: char): (d: nat)
    requires IsDigit(c)
    ensures d < 10
  {
    c as int - '0' as int
  }

  /** `str(n)` for a non-negative integer: the shortest decimal numeral, no leading zero. */
  function Show(n: nat): (s: string)
    ensures 1 <= |s|
    ensures |s| > 1 ==> s[0] != '0'
    ensures n < 10 <==> |s| == 1
    ensures n < 100 ==> |s| <= 2
  {
    if n < 10 then [DigitChar(n)] else Show(n / 10) + [DigitChar(n % 10)]
  }

  /** The number a string of digits denotes (leading zeros allowed). */
  function ValueOf(s: string): nat
    requires AllDigits(s)
  {
    if s == [] then 0 else ValueOf(s[..|s| - 1]) * 10 + DigitValue(s[|s| - 1])
  }

  /** Parses a non-empty string of digits; anything else is rejected. */
  function Parse(s: string): (r: Option<nat>)
    ensures r.Some? <==> 1 <= |s| && AllDigits(s)
  {
    if 1 <= |s| && AllDigits(s) then Some(ValueOf(s)) else None
  }

  /** `format(n, "02d")`: the numeral of `n`, left-padded with zeros to width two. */
  function Pad2(n: nat): (s: string)
    ensures 2 <= |s|
    ensures n < 100 ==> |s| == 2
  {
    if n < 10 then "0" + Show(n) else Show(n)
  }

  lemma {:induction false} ShowDigits(n: nat)
    ensures AllDigits(Show(n))
  {
    if n >= 10 {
      ShowDigits(n / 10);
      var s := Show(n);
      assert s[..|s| - 1] == Show(n / 10);
    }
  }

  lemma Pad2Digits(n: nat)
    ensures AllDigits(Pad2(n))
  {
    ShowDigits(n);
    if n < 10 {
      var s := Pad2(n);
      assert s[..1] == "0" && s[..1][..0] == [];
    }
  }

  lemma Pad2RoundTrip(n: nat)
    ensures Parse(Pad2(n)) == Some(n)
  {
    ShowRoundTrip(n);
    Pad2Digits(n);
    if n < 10 {
      var s := Pad2(n);
      assert s[..1] == "0" && s[..1][..0] == [] && ValueOf(s[..1]) == 0;
      assert s[1] == Show(n)[0] && DigitValue(s[1]) == n;
    }
  }

  lemma {:induction false} ShowRoundTrip(n: nat)
    ensures Parse(Show(n)) == Some(n)
  {
    var s := Show(n);
    ShowDigits(n);
    if n < 10 {
      assert s[..0] == [] && DigitValue(s[0]) == n;
      assert ValueOf(s) == n;
    } else {
      ShowRoundTrip(n / 10);
      assert s[..|s| - 1] == Show(n / 10);
      assert DigitValue(s[|s| - 1]) == n % 10;
    }
  }

  /** Distinct numbers are shown differently. */
  lemma ShowInjective(a: nat, b: nat)
    requires Show(a) == Show(b)
    ensures a == b
  {
    ShowRoundTrip(a);
    ShowRoundTrip(b);
  }
}
