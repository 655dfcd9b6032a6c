/** Decimal digit strings: what `int(s)` reads and what `str(n)` writes. */
module Decimal {

  /** An ASCII decimal digit, the only kind the model accepts (see `\d` and `int()`). */
  predicate IsDigit(c: char) {
    '0' <= c <= '9'
  }

  predicate IsDigits(s: string) {
    forall i :: 0 <= i < |s| ==> IsDigit(s[i])
  }

  /** A non-empty run of digits: what `int()` accepts and `\d+` matches. */
  predicate IsNumber(s: string) {
    |s| > 0 && IsDigits(s)
  }

  function DigitValue(c: char): (d: nat)
    requires IsDigit(c)
    ensures d < 10
  {
    c as int - '0' as int
  }

  function DigitChar(d: nat): (c: char)
    requires d < 10
    ensures IsDigit(c) && DigitValue(c) == d
  {
    ('0' as int + d) as char
  }

  /** `int(s)` for a string of digits, read left to right; the empty string reads as 0. */
  function Value(s: string): (n: nat)
    requires IsDigits(s)
  {
    if |s| == 0 then 0 else Value(s[..|s| - 1]) * 10 + DigitValue(s[|s| - 1])
  }

  /** `str(n)` for a natural number: digits, no leading zero. */
  function Render(n: nat): (s: string)
    ensures IsNumber(s)
    ensures |s| > 1 ==> s[0] != '0'
  {
    if n < 10 then [DigitChar(n)] else Render(n / 10) + [DigitChar(n % 10)]
  }

  /** Reading back the decimal rendering of `n` gives `n`. */
  lemma {:induction false} ValueRender(n: nat)
    ensures Value(Render(n)) == n
  {
    if n >= 10 {
      var s := Render(n);
      assert s[..|s| - 1] == Render(n / 10);
      ValueRender(n / 10);
    }
  }

  /** A number without a leading zero is at least 10 once it has two digits. */
  lemma {:induction false} ValueLowerBound(s: string)
    requires IsNumber(s) && s[0] != '0'
    ensures Value(s) >= 1
    ensures |s| > 1 ==> Value(s) >= 10
  {
    if |s| > 1 {
      ValueLowerBound(s[..|s| - 1]);
    }
  }

  /** Rendering the value of a digit string without a leading zero gives the string back. */
  lemma {:induction false} RenderValue(s: string)
    requires IsNumber(s)
    requires |s| == 1 || s[0] != '0'
    ensures Render(Value(s)) == s
  {
    if |s| > 1 {
      var p := s[..|s| - 1];
      ValueLowerBound(s);
      ValueLowerBound(p);
      var n := Value(s);
      assert n / 10 == Value(p) && n % 10 == DigitValue(s[|s| - 1]);
      RenderValue(p);
      assert s == p + [s[|s| - 1]];
    }
  }

  /** Leading zeros do not change the value: `int("042") == 42`. */
  lemma {:induction false} ValueLeadingZero(s: string)
    requires IsDigits(s)
    ensures Value("0" + s) == Value(s)
  {
    if |s| > 0 {
      var t := "0" + s;
      assert t[..|t| - 1] == "0" + s[..|s| - 1];
      ValueLeadingZero(s[..|s| - 1]);
    }
  }
}
