/** RapidJSON's ParseNumber with its loops. The accumulators are 32 and 64 bits wide; the method
    keeps their wrap-around explicit and proves that it never happens. */
module JsonNumberReader {
  import opened Decimal
  import opened JsonStream
  import opened JsonNumber

  /** The guard of both accumulation loops: `limit` and `last` are the largest magnitude
      without, and its, last digit. */
  predicate Full(limit: nat, last: char, v: nat, c: char) {
    v >= limit && (v != limit || c > last)
  }

  /** The guard is exact: a digit is refused when and only when the longer numeral is too large. */
  lemma FullIsExact(limit: nat, last: char, max: nat, v: nat, c: char)
    requires IsDigit(last) && IsDigit(c) && max == limit * 10 + (last as int - '0' as int)
    ensures Full(limit, last, v, c) <==> v * 10 + Digit(c) > max
  {
  }

  /** One digit into an accumulator of 32 or 64 bits, which would wrap. */
  method TakeDigit(v: nat, c: char, wide: bool) returns (r: nat)
    requires IsDigit(c) && v * 10 + Digit(c) < (if wide then TWO_64 else TWO_32)
    ensures r == v * 10 + Digit(c)
  {
    var sum := v * 10 + (c as int - '0' as int);
    if wide { r := sum % TWO_64; } else { r := sum % TWO_32; }
  }

  /** The integer part, digit by digit in 32 and then 64 bits, as ParseNumber accumulates it
      from the first digit, which is not a zero. */
  method Accumulate(s: string, p1: nat, minus: bool)
      returns (i: nat, i64: nat, use64: bool, useDouble: bool, sig: nat, q: nat)
    requires p1 < |s| && IsDigit(s[p1]) && s[p1] != '0'
    ensures q == DigitsEnd(s, p1)
    ensures useDouble == TooWide(minus, Value(s[p1..q]))
    ensures !useDouble ==> (if use64 then i64 else i) == Value(s[p1..q]) && sig == q - p1 - 1
    ensures useDouble ==> use64 && sig >= 17
    ensures use64 <==> Value(s[p1..q]) > Max32(minus)
  {
    hide Value, DigitsEnd;
    ghost var end := DigitsEnd(s, p1);
    ValueOne(s, p1);
    DigitsEndStep(s, p1);
    i64, useDouble := 0, false;
    i, q, use64 := Fill(s, p1, p1 + 1, Digit(s[p1]), minus, false);
    sig := q - p1 - 1;
    if use64 {
      ValueGrows(s, p1, q + 1, end);
      i64, q, useDouble := Fill(s, p1, q, i, minus, true);
      sig := q - p1 - 1;
      if useDouble {
        ManyDigits(s, p1, q);
        ValueGrows(s, p1, q + 1, end);
        q := TakeDigits(s, q);
      }
    }
  }

  /** The accumulation loop of either width: it stops at the end of the digits, or before the
      digit that would be too much. */
  method Fill(s: string, p1: nat, start: nat, first: nat, minus: bool, wide: bool)
      returns (i: nat, q: nat, full: bool)
    requires p1 < start <= |s| && DigitsEnd(s, start) == DigitsEnd(s, p1)
    requires first == Value(s[p1..start]) <= Max(minus, wide)
    ensures start <= q <= |s| && DigitsEnd(s, q) == DigitsEnd(s, p1)
    ensures i == Value(s[p1..q]) <= Max(minus, wide)
    ensures full ==> IsDigit(Peek(s, q)) && i >= Max(minus, wide) / 10 && Value(s[p1..q + 1]) > Max(minus, wide)
    ensures !full ==> q == DigitsEnd(s, p1)
  {
    hide Value, DigitsEnd, Digit, Full;
    var last := if minus then '8' else '5';
    var limit := if wide then (if minus then 0xCCC_CCCC_CCCC_CCCC else 0x1999_9999_9999_9999)
                 else if minus then 214748364 else 429496729;
    ghost var max := Max(minus, wide);
    i, q, full := first, start, false;
    while IsDigit(Peek(s, q)) && !full
      invariant start <= q <= |s| && DigitsEnd(s, q) == DigitsEnd(s, p1)
      invariant i == Value(s[p1..q]) <= max
      invariant full ==> IsDigit(Peek(s, q)) && i >= limit && Value(s[p1..q + 1]) > max
      decreases |s| - q, !full
    {
      ValueSnoc(s, p1, q);
      DigitsEndStep(s, q);
      FullIsExact(limit, last, max, i, s[q]);
      if Full(limit, last, i, s[q]) {
        full := true;
      } else {
        i := TakeDigit(i, s[q], wide);
        q := q + 1;
      }
    }
    DigitsEndStep(s, q);
  }

  lemma DigitsEndStep(s: string, q: nat)
    requires q <= |s|
    ensures DigitsEnd(s, q) == if IsDigit(Peek(s, q)) then DigitsEnd(s, q + 1) else q
  {
  }

  /** A numeral that outgrew the 64-bit loop has at least eighteen digits. */
  lemma ManyDigits(s: string, a: nat, b: nat)
    requires a <= |s| && a <= b <= DigitsEnd(s, a)
    requires Value(s[a..b]) >= 0xCCC_CCCC_CCCC_CCCC
    ensures b - a >= 18
  {
    var ds := s[a..b];
    assert forall k :: 0 <= k < b - a ==> ds[k] == s[a..DigitsEnd(s, a)][k];
    BelowPow10(ds);
    assert Pow10(10) == 10_000_000_000;
    assert Pow10(17) == 100_000_000_000_000_000;
    if |ds| < 18 { Pow10Grows(|ds|, 17); }
  }

  /** The digits whose value goes into a double. */
  method TakeDigits(s: string, start: nat) returns (q: nat)
    requires start <= |s|
    ensures q == DigitsEnd(s, start)
  {
    q := start;
    while IsDigit(Peek(s, q))
      invariant start <= q <= |s| && DigitsEnd(s, q) == DigitsEnd(s, start)
      decreases |s| - q
    {
      q := q + 1;
    }
  }

  /** ParseNumber. */
  method ParseNumber(src: Source, p: nat) returns (r: Number)
    requires p <= |src.text|
    ensures r == NumberAt(src, p)
  {
    hide FractionAt, Value;
    var s := src.text;
    var minus := Peek(s, p) == '-';
    var p1 := if minus then p + 1 else p;
    var i, i64, use64, useDouble, sig, q := 0, 0, false, false, 0, p1 + 1;
    if Peek(s, p1) == '0' {
      ValueOne(s, p1);
    } else if IsDigit(Peek(s, p1)) {
      i, i64, use64, useDouble, sig, q := Accumulate(s, p1, minus);
    } else {
      return NotNumber(ValueInvalid, p1);
    }
    r := ParseFraction(src, p, p1, minus, if use64 then i64 else i, use64, useDouble, sig, q);
  }

  /** From the end of the integer part on. */
  method ParseFraction(src: Source, p: nat, p1: nat, minus: bool, v: nat, use64: bool, useDouble: bool, sig: nat,
      p2: nat)
      returns (r: Number)
    requires p <= p1 < p2 <= |src.text|
    requires useDouble == TooWide(minus, Value(src.text[p1..p2]))
    requires if useDouble then use64 && sig >= 17 else v == Value(src.text[p1..p2]) && sig == p2 - p1 - 1
    requires use64 <==> Value(src.text[p1..p2]) > Max32(minus)
    ensures r == Report(src, p, FractionAt(src.text, p, minus, p1, p2))
  {
    hide ExponentAt, Value;
    var s := src.text;
    var q, wide, shift := p2, useDouble, 0;
    if Peek(s, q) == '.' {
      q := q + 1;
      if !IsDigit(Peek(s, q)) {
        return NotNumber(NumberMissFraction, q);
      }
      if wide {
        q, shift := DoubleDigits(s, q, TWO_53, sig);
      } else {
        q, shift := FractionDigits(s, q, v, sig);
      }
      wide := true;
    }
    if wide {
      WideForgets(src, p, minus, v, Value(s[p1..p2]), q, shift);
    }
    r := ParseExponent(src, p, minus, v, use64, q, wide, shift);
  }

  /** What needs floating point is reported whatever the integer part was. */
  lemma WideForgets(src: Source, p: nat, minus: bool, v: nat, w: nat, p3: nat, shift: nat)
    requires p < p3 <= |src.text|
    ensures Report(src, p, ExponentAt(src.text, p, minus, v, p3, true, shift)) ==
            Report(src, p, ExponentAt(src.text, p, minus, w, p3, true, shift))
  {
  }

  /** The fraction: digits enter the significand while it is below 2^53, then the double while
      fewer than seventeen digits are significant. */
  method FractionDigits(s: string, start: nat, significand: nat, digits: nat) returns (q: nat, shift: nat)
    requires start < |s| && IsDigit(s[start])
    ensures q == DigitsEnd(s, start)
    ensures shift == PointShift(s[start..q], significand, digits)
  {
    var i64: nat, sig: nat := significand, digits;
    q, shift := start, 0;
    ghost var end := DigitsEnd(s, start);
    while IsDigit(Peek(s, q)) && i64 < TWO_53
      invariant start <= q <= end && DigitsEnd(s, q) == end
      invariant PointShift(s[start..end], significand, digits) == shift + PointShift(s[q..end], i64, sig)
      decreases end - q
    {
      assert s[q..end][1..] == s[q + 1..end];
      i64 := i64 * 10 + Digit(s[q]);
      shift, q := shift + 1, q + 1;
      if i64 != 0 { sig := sig + 1; }
    }
    var more;
    q, more := DoubleDigits(s, q, i64, sig);
    shift := shift + more;
  }

  method DoubleDigits(s: string, start: nat, i64: nat, digits: nat) returns (q: nat, shift: nat)
    requires start <= |s| && (start < DigitsEnd(s, start) ==> i64 >= TWO_53)
    ensures q == DigitsEnd(s, start)
    ensures shift == PointShift(s[start..q], i64, digits)
  {
    var sig: nat := digits;
    q, shift := start, 0;
    ghost var end := DigitsEnd(s, start);
    while IsDigit(Peek(s, q))
      invariant start <= q <= end && DigitsEnd(s, q) == end
      invariant PointShift(s[start..end], i64, digits) == shift + PointShift(s[q..end], i64, sig)
      decreases end - q
    {
      assert s[q..end][1..] == s[q + 1..end];
      if sig < 17 { shift, sig := shift + 1, sig + 1; }
      else { assert q + 1 < end ==> PointShift(s[q + 1..end], i64, sig) == 0; }
      q := q + 1;
    }
  }

  /** From the end of the digits on. */
  method ParseExponent(src: Source, p: nat, minus: bool, v: nat, use64: bool, p3: nat, wide: bool, shift: nat)
      returns (r: Number)
    requires p < p3 <= |src.text|
    requires !wide ==> (use64 <==> v > Max32(minus)) && v <= Max64(minus)
    ensures r == Report(src, p, ExponentAt(src.text, p, minus, v, p3, wide, shift))
  {
    var s := src.text;
    var q, double := p3, wide;
    if Peek(s, q) == 'e' || Peek(s, q) == 'E' {
      double := true;
      var expMinus := Peek(s, q + 1) == '-';
      q := if Peek(s, q + 1) == '+' || expMinus then q + 2 else q + 1;
      if !IsDigit(Peek(s, q)) {
        return NotNumber(NumberMissExponent, q);
      }
      if expMinus {
        q := TakeDigits(s, q);
      } else {
        var tooBig;
        q, tooBig := ExponentDigits(s, q, 308 + shift);
        if tooBig {
          return NotNumber(NumberTooBig, p);
        }
      }
    }
    var text := s[p..q];
    if src.flags.numbersAsStrings {
      r := Number(RawNumber(text), q);
    } else if double {
      r := if src.overflows(text) then NotNumber(NumberTooBig, p) else Number(Double(text), q);
    } else if use64 {
      r := Number(if minus then Int64(0 - v) else Uint64(v), q);
    } else {
      r := Number(if minus then Int(0 - v) else Uint(v), q);
    }
  }

  /** A positive exponent, given up as soon as it exceeds the largest useful one. */
  method ExponentDigits(s: string, start: nat, maxExp: nat) returns (q: nat, tooBig: bool)
    requires start < |s| && IsDigit(s[start]) && maxExp >= 308
    ensures tooBig == (Value(s[start..DigitsEnd(s, start)]) > maxExp)
    ensures !tooBig ==> q == DigitsEnd(s, start)
  {
    ghost var end := DigitsEnd(s, start);
    var exp := Digit(s[start]);
    ValueOne(s, start);
    q, tooBig := start + 1, false;
    while IsDigit(Peek(s, q)) && !tooBig
      invariant start < q <= end && DigitsEnd(s, q) == end
      invariant exp == Value(s[start..q]) && tooBig == (exp > maxExp)
      decreases end - q
    {
      ValueSnoc(s, start, q);
      exp := exp * 10 + Digit(s[q]);
      q := q + 1;
      tooBig := exp > maxExp;
    }
    ValueGrows(s, start, q, end);
  }
}
