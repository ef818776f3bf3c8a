/** Decimal printing, as the `%u` and `%.8d` conversions do it. */
module Decimal {

  predicate IsDigit(c: char) { '0' <= c <= '9' }

  function Digit(d: nat): (c: char)
    requires d < 10
    ensures IsDigit(c) && c as int - '0' as int == d
  {
    ('0' as int + d) as char
  }

  predicate AllDigits(s: string) { forall i :: 0 <= i < |s| ==> IsDigit(s[i]) }

  function Print(n: nat): (s: string)
    ensures AllDigits(s) && |s| > 0
  {
    if n < 10 then [Digit(n)] else Print(n / 10) + [Digit(n % 10)]
  }

  function Zeros(n: nat): (s: string)
    ensures AllDigits(s) && |s| == n
  {
    if n == 0 then "" else "0" + Zeros(n - 1)
  }

  /** At least `width` digits. */
  function PrintPadded(n: nat, width: nat): (s: string)
    ensures AllDigits(s) && |s| >= width
  {
    var digits := Print(n);
    Zeros(if |digits| < width then width - |digits| else 0) + digits
  }

  /** The number a string of digits denotes. */
  function Value(s: string): nat
    requires AllDigits(s)
  {
    if s == "" then 0 else Value(s[..|s| - 1]) * 10 + (s[|s| - 1] as int - '0' as int)
  }

  lemma {:induction false} PrintThenValue(n: nat)
    ensures Value(Print(n)) == n
  {
    if n >= 10 {
      PrintThenValue(n / 10);
      assert Print(n)[..|Print(n)| - 1] == Print(n / 10);
    } else {
      assert Print(n)[..0] == "";
    }
  }

  lemma {:induction false} LeadingZero(s: string)
    requires AllDigits(s)
    ensures Value("0" + s) == Value(s)
  {
    var t := "0" + s;
    if s == "" {
      assert t[..0] == "";
    } else {
      LeadingZero(s[..|s| - 1]);
      assert t[..|t| - 1] == "0" + s[..|s| - 1];
    }
  }

  lemma {:induction false} PaddedThenValue(zeros: nat, s: string)
    requires AllDigits(s)
    ensures Value(Zeros(zeros) + s) == Value(s)
  {
    if zeros == 0 {
      assert Zeros(0) + s == s;
    } else {
      PaddedThenValue(zeros - 1, s);
      assert Zeros(zeros) + s == "0" + (Zeros(zeros - 1) + s);
      LeadingZero(Zeros(zeros - 1) + s);
    }
  }

  /** Different numbers print differently, padded or not. */
  lemma PrintInjective(m: nat, n: nat)
    requires Print(m) == Print(n)
    ensures m == n
  {
    PrintThenValue(m);
    PrintThenValue(n);
  }

  /** Padding does not change the number. */
  lemma PaddedValue(n: nat, width: nat)
    ensures Value(PrintPadded(n, width)) == n
  {
    PrintThenValue(n);
    PaddedThenValue(|PrintPadded(n, width)| - |Print(n)|, Print(n));
  }

  lemma PrintPaddedInjective(m: nat, n: nat, width: nat)
    requires PrintPadded(m, width) == PrintPadded(n, width)
    ensures m == n
  {
    hide PrintPadded;
    PaddedValue(m, width);
    PaddedValue(n, width);
  }
}
