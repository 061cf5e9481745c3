/** Decimal numerals: printing and their value. */
module Decimal {

  predicate IsDigit(c: char) {
    '0' <= c <= '9'
  }

  predicate AllDigits(ds: string) {
    forall k :: 0 <= k < |ds| ==> IsDigit(ds[k])
  }

  function Digit(c: char): (d: nat)
    ensures IsDigit(c) ==> d <= 9
  {
    if IsDigit(c) then c as int - '0' as int else 0
  }

  /** The value of a decimal numeral. */
  function Value(ds: string): nat {
    if ds == [] then 0 else Value(ds[..|ds| - 1]) * 10 + Digit(ds[|ds| - 1])
  }

  function DigitChar(d: nat): (c: char)
    requires d <= 9
    ensures IsDigit(c) && Digit(c) == d
  {
    (d + '0' as int) as char
  }

  /** The numeral of `n` without leading zeros, as printf prints it. */
  function Print(n: nat): (ds: string)
    ensures |ds| >= 1 && AllDigits(ds)
    ensures ds[0] == '0' <==> n == 0
    ensures n == 0 ==> ds == "0"
  {
    if n < 10 then [DigitChar(n)] else Print(n / 10) + [DigitChar(n % 10)]
  }

  lemma {:induction false} ValueOfPrint(n: nat)
    ensures Value(Print(n)) == n
  {
    if n < 10 {
      assert Print(n)[..0] == [];
    } else {
      ValueOfPrint(n / 10);
      assert Print(n)[..|Print(n)| - 1] == Print(n / 10);
    }
  }

  /** Appending digits never makes a numeral smaller. */
  lemma {:induction false} ValueGrows(s: string, a: nat, b: nat, c: nat)
    requires a <= b <= c <= |s|
    ensures Value(s[a..b]) <= Value(s[a..c])
    decreases c
  {
    if b < c {
      ValueGrows(s, a, b, c - 1);
      assert s[a..c][..c - a - 1] == s[a..c - 1];
    }
  }

  lemma ValueSnoc(s: string, a: nat, b: nat)
    requires a <= b < |s|
    ensures Value(s[a..b + 1]) == Value(s[a..b]) * 10 + Digit(s[b])
  {
    assert s[a..b + 1][..b - a] == s[a..b];
  }

  lemma ValueOne(s: string, a: nat)
    requires a < |s|
    ensures Value(s[a..a + 1]) == Digit(s[a])
  {
    assert s[a..a + 1] == [s[a]] && [s[a]][..0] == [];
  }

  function Pow10(n: nat): nat {
    if n == 0 then 1 else 10 * Pow10(n - 1)
  }

  /** The number of digits bounds the value. */
  lemma {:induction false} BelowPow10(ds: string)
    requires AllDigits(ds)
    ensures Value(ds) < Pow10(|ds|)
  {
    if ds != [] { BelowPow10(ds[..|ds| - 1]); }
  }

  lemma {:induction false} Pow10Grows(m: nat, n: nat)
    requires m <= n
    ensures Pow10(m) <= Pow10(n)
    decreases n
  {
    if m < n { Pow10Grows(m, n - 1); }
  }
}
