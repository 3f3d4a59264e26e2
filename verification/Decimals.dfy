/** Decimal numerals: std::to_string, and what std::stoll makes of digits. */
module Decimals {
  import opened Strings

  const LLONG_MAX: int := 0x7FFF_FFFF_FFFF_FFFF

  predicate IsDigit(c: char) {
    '0' <= c <= '9'
  }

  predicate AllDigits(s: string) {
    forall i :: 0 <= i < |s| ==> IsDigit(s[i])
  }

  function Digit(d: nat): (c: char)
    requires d < 10
    ensures IsDigit(c) && c as nat - '0' as nat == d
  {
    '0' + d as char
  }

  function Natural(n: nat): string {
    if n < 10 then [Digit(n)] else Natural(n / 10) + [Digit(n % 10)]
  }

  /** std::to_string. */
  function Decimal(n: int): string {
    if n < 0 then "-" + Natural(-n) else Natural(n)
  }

  function Value(s: string): nat
    requires AllDigits(s)
  {
    if s == "" then 0 else 10 * Value(s[..|s| - 1]) + (s[|s| - 1] as nat - '0' as nat)
  }

  /** stoll on digits: None stands for the exception about a number that does not fit. */
  function StoLl(digits: string): Option<int>
    requires AllDigits(digits)
  {
    if Value(digits) > LLONG_MAX then None else Some(Value(digits))
  }

  lemma {:induction false} NaturalReads(n: nat)
    ensures Natural(n) != "" && AllDigits(Natural(n)) && Value(Natural(n)) == n
    ensures if n == 0 then Natural(n) == "0" else Natural(n)[0] != '0'
  {
    if n >= 10 {
      NaturalReads(n / 10);
      assert Natural(n)[..|Natural(n)| - 1] == Natural(n / 10);
    } else {
      assert Natural(n)[..0] == "";
    }
  }

  /** The first digit counts most. */
  lemma {:induction false} ReadAsWritten(s: string, t: string)
    requires AllDigits(s) && AllDigits(t)
    ensures Value(s + t) == Value(s) * Power(|t|) + Value(t)
    decreases |t|
  {
    if t == "" {
      assert s + t == s;
    } else {
      var init := t[..|t| - 1];
      ReadAsWritten(s, init);
      assert (s + t)[..|s + t| - 1] == s + init;
      Scaled(Value(s), Power(|init|), Value(init), t[|t| - 1] as nat - '0' as nat);
    }
  }

  function Power(n: nat): nat {
    if n == 0 then 1 else 10 * Power(n - 1)
  }

  lemma Scaled(a: nat, p: nat, b: nat, d: nat)
    ensures 10 * (a * p + b) + d == a * (10 * p) + (10 * b + d)
  {
  }
}
