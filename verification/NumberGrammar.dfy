/** Numbers as section 6 of RFC 8259 spells them, and which of them this reader takes. */
module NumberGrammar {
  import opened Decimal

  /** The four parts of a number's text; all but the second may be empty. */
  datatype Parts = Parts(minus: string, digits: string, frac: string, exp: string)

  predicate IsDigits(w: string) {
    w != "" && forall k :: 0 <= k < |w| ==> '0' <= w[k] <= '9'
  }

  predicate IsInt(w: string) {
    IsDigits(w) && (w[0] == '0' ==> |w| == 1)
  }

  predicate IsFrac(w: string) {
    w == "" || (w[0] == '.' && IsDigits(w[1..]))
  }

  /** What stands before the digits of an exponent. */
  predicate IsMark(w: string) {
    w in {"e", "E", "e+", "E+", "e-", "E-"}
  }

  /** The mark of an exponent, and what is behind it. */
  function Mark(w: string): string {
    if |w| > 1 && (w[1] == '+' || w[1] == '-') then w[..2] else if w != "" then w[..1] else ""
  }

  function Power(w: string): string {
    w[|Mark(w)|..]
  }

  predicate IsExp(w: string) {
    w == "" || (IsMark(Mark(w)) && IsDigits(Power(w)))
  }

  predicate IsNumber(n: Parts) {
    (n.minus == "" || n.minus == "-") && IsInt(n.digits) && IsFrac(n.frac) && IsExp(n.exp)
  }

  function Spelled(n: Parts): string {
    n.minus + n.digits + n.frac + n.exp
  }

  /** It is no integer of 64 bits. */
  predicate NeedsDouble(n: Parts) {
    n.frac != "" || n.exp != "" ||
    Value(n.digits) > if n.minus == "-" then 0x8000_0000_0000_0000 else 0xFFFF_FFFF_FFFF_FFFF
  }

  function LeadingZeros(w: string): (z: nat)
    ensures z <= |w|
  {
    if w == "" || w[0] != '0' then 0 else 1 + LeadingZeros(w[1..])
  }

  /** How many digits of the fraction it takes, from the `m`-th on, to reach 2^53. */
  function Reach(digits: string, frac: string, m: nat): (r: nat)
    requires m <= |frac|
    ensures m <= r <= |frac|
    decreases |frac| - m
  {
    if m == |frac| || Value(digits + frac[..m]) >= 0x20_0000_0000_0000 then m else Reach(digits, frac, m + 1)
  }

  /** The number of significant digits up to there: the first digit of an integer part does not count. */
  function Significant(digits: string, frac: string): int
    requires digits != ""
  {
    var m := Reach(digits, frac, 0);
    if digits == "0" then m - LeadingZeros(frac[..m]) else |digits| + m - 1
  }

  /** How many digits of the fraction count: those before 2^53 is reached, and then up to seventeen significant ones. */
  function Counting(digits: string, frac: string): nat
    requires digits != ""
  {
    var m, sig := Reach(digits, frac, 0), Significant(digits, frac);
    var n := if sig < 17 then m + (17 - sig) else m;
    if n < |frac| then n else |frac|
  }

  /** The largest exponent is 308 and one more for each digit of the fraction that counts. */
  function LargestPower(n: Parts): nat
    requires IsNumber(n)
  {
    if NeedsDouble(n.(frac := "", exp := "")) || n.frac == "" then 308 else 308 + Counting(n.digits, n.frac[1..])
  }

  predicate TooLarge(n: Parts)
    requires IsNumber(n)
  {
    n.exp != "" && Mark(n.exp) != "e-" && Mark(n.exp) != "E-" && Value(Power(n.exp)) > LargestPower(n)
  }

  /** A number that is kept as a double. */
  ghost predicate DoubleText(text: string) {
    exists n :: IsNumber(n) && text == Spelled(n) && NeedsDouble(n) && !TooLarge(n)
  }
}
