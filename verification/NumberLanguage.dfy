/** The reader's number literals are the numbers of the grammar: which one is read at a place, what is
    missing where there is none, and which are too large. */
module NumberLanguage {
  import opened Common
  import opened Decimal
  import opened JsonStream
  import opened JsonNumber
  import opened NumberGrammar

  // ---- what a place holds ---------------------------------------------------------------------

  predicate DigitAt(s: string, p: nat) {
    '0' <= Peek(s, p) <= '9'
  }

  /** A number stands at `p`, and what is behind it cannot belong to it. */
  predicate Reads(s: string, p: nat, n: Parts) {
    IsNumber(n) && Stands(s, p, Spelled(n)) && Stops(n, Peek(s, p + |Spelled(n)|))
  }

  /** With this character the number does not go on. */
  predicate Stops(n: Parts, c: char) {
    (!('0' <= c <= '9') || (n.digits == "0" && n.frac == "" && n.exp == "")) &&
    (n.exp == "" ==> c != 'e' && c != 'E' && (n.frac == "" ==> c != '.'))
  }

  /** No digit behind the minus, or at the start. */
  predicate MissesDigits(s: string, p: nat, off: nat) {
    off == (if Peek(s, p) == '-' then p + 1 else p) && !DigitAt(s, off)
  }

  /** A point and no digit behind it. */
  predicate MissesFraction(s: string, p: nat, off: nat, n: Parts) {
    IsNumber(n) && n.frac == "" && n.exp == "" &&
    Stands(s, p, Spelled(n) + ".") && off == p + |Spelled(n)| + 1 && !DigitAt(s, off)
  }

  /** An exponent's mark and no digit behind it. */
  predicate MissesExponent(s: string, p: nat, off: nat, n: Parts, mark: string) {
    IsNumber(n) && n.exp == "" && IsMark(mark) &&
    Stands(s, p, Spelled(n) + mark) && off == p + |Spelled(n)| + |mark| && !DigitAt(s, off) &&
    (|mark| == 1 ==> Peek(s, off) != '+' && Peek(s, off) != '-')
  }

  /** Why and where no number is read. */
  ghost predicate Misses(s: string, p: nat, code: ErrorCode, off: nat) {
    match code
    case ValueInvalid => MissesDigits(s, p, off)
    case NumberMissFraction => exists n :: MissesFraction(s, p, off, n)
    case NumberMissExponent => exists n, mark :: MissesExponent(s, p, off, n, mark)
    case NumberTooBig => off == p && exists n :: Reads(s, p, n) && TooLarge(n)
    case _ => false
  }

  /** What the reader makes of a number. */
  predicate Denotes(p: nat, n: Parts, l: Literal)
    requires IsNumber(n)
  {
    !TooLarge(n) && l == Literal(n.minus == "-", Value(n.digits), NeedsDouble(n), p + |Spelled(n)|)
  }

  // ---- the parts ------------------------------------------------------------------------------

  lemma {:induction false} RunOfDigits(s: string, p: nat, w: string)
    requires Stands(s, p, w) && AllDigits(w) && !IsDigit(Peek(s, p + |w|))
    ensures DigitsEnd(s, p) == p + |w| && s[p..p + |w|] == w
    decreases |w|
  {
    StandsAsSlice(s, p, w);
    if w != [] {
      assert s[p] == w[0];
      assert [w[0]] + w[1..] == w;
      StandsConcat(s, p, [w[0]], w[1..]);
      RunOfDigits(s, p + 1, w[1..]);
    }
  }

  /** An exponent of the grammar and the one that is read. */
  lemma PowerIs(s: string, p: nat, minus: bool, v: nat, q: nat, power: string, negative: bool, shift: nat)
    requires Stands(s, q, power) && IsDigits(power) && !DigitAt(s, q + |power|)
    ensures PowerAt(s, p, minus, v, q, negative, shift) ==
            if !negative && Value(power) > 308 + shift then NoLiteral(NumberTooBig, p)
            else Literal(minus, v, true, q + |power|)
  {
    hide Value;
    RunOfDigits(s, q, power);
    assert s[q] == power[0];
  }

  lemma ExponentIs(s: string, p: nat, minus: bool, v: nat, q: nat, exp: string, wide: bool, shift: nat)
    requires p < q && Stands(s, q, exp) && IsExp(exp)
    requires if exp == "" then Peek(s, q) != 'e' && Peek(s, q) != 'E' else !DigitAt(s, q + |exp|)
    ensures ExponentAt(s, p, minus, v, q, wide, shift) ==
            if exp == "" then Literal(minus, v, wide, q)
            else if Mark(exp) != "e-" && Mark(exp) != "E-" && Value(Power(exp)) > 308 + shift
            then NoLiteral(NumberTooBig, p)
            else Literal(minus, v, true, q + |exp|)
  {
    hide Value, PowerAt;
    if exp != "" {
      var mark, power := Mark(exp), Power(exp);
      assert exp == mark + power;
      StandsConcat(s, q, mark, power);
      MarkStands(s, q, exp);
      PowerIs(s, p, minus, v, q + |mark|, power, mark == "e-" || mark == "E-", shift);
    }
  }

  /** The mark's characters, and that it goes on with a digit. */
  lemma MarkStands(s: string, q: nat, exp: string)
    requires exp != "" && IsExp(exp) && Stands(s, q, exp)
    ensures Peek(s, q) == 'e' || Peek(s, q) == 'E'
    ensures |Mark(exp)| == if Peek(s, q + 1) == '+' || Peek(s, q + 1) == '-' then 2 else 1
    ensures Peek(s, q + 1) == '-' <==> Mark(exp) == "e-" || Mark(exp) == "E-"
  {
    assert s[q] == exp[0] && s[q + 1] == exp[1];
  }

  // ---- how many digits of a fraction count ----------------------------------------------------

  lemma {:induction false} ShiftWide(ds: string, v: nat, sig: nat)
    requires v >= TWO_53
    ensures PointShift(ds, v, sig) == if sig < 17 && sig + |ds| > 17 then 17 - sig else if sig < 17 then |ds| else 0
    decreases |ds|
  {
    if ds != "" && sig < 17 { ShiftWide(ds[1..], v, sig + 1); }
  }

  /** The significant digits when `m` of the fraction are read. */
  function SignificantAt(digits: string, frac: string, m: nat): int
    requires digits != "" && m <= |frac|
  {
    if digits == "0" then m - LeadingZeros(frac[..m]) else |digits| + m - 1
  }

  /** From the `m`-th digit of the fraction on. */
  lemma {:induction false} ShiftFrom(digits: string, frac: string, m: nat)
    requires IsInt(digits) && AllDigits(frac) && m <= |frac| && Reach(digits, frac, 0) == Reach(digits, frac, m)
    requires SignificantAt(digits, frac, m) >= 0
    ensures m + PointShift(frac[m..], Value(digits + frac[..m]), SignificantAt(digits, frac, m)) ==
            Counting(digits, frac)
    decreases |frac| - m
  {
    hide Value, LeadingZeros;
    var v := Value(digits + frac[..m]);
    if m == |frac| {
    } else if v >= TWO_53 {
      ShiftWide(frac[m..], v, SignificantAt(digits, frac, m));
    } else {
      OneDigitMore(digits, frac, m);
      assert frac[m..][1..] == frac[m + 1..];
      ShiftFrom(digits, frac, m + 1);
    }
  }

  lemma {:induction false} ZerosOfOneMore(w: string, c: char)
    ensures LeadingZeros(w + [c]) == if LeadingZeros(w) == |w| && c == '0' then |w| + 1 else LeadingZeros(w)
  {
    if w == "" {
      assert w + [c] == [c] && [c][1..] == "";
    } else {
      assert (w + [c])[1..] == w[1..] + [c];
      ZerosOfOneMore(w[1..], c);
    }
  }

  lemma {:induction false} ZeroIsAllZeros(w: string)
    requires AllDigits(w)
    ensures Value(w) == 0 <==> LeadingZeros(w) == |w|
  {
    if w != "" {
      var v := w[..|w| - 1];
      ZeroIsAllZeros(v);
      assert w == v + [w[|w| - 1]];
      ZerosOfOneMore(v, w[|w| - 1]);
    }
  }

  lemma OneDigitMore(digits: string, frac: string, m: nat)
    requires IsInt(digits) && AllDigits(frac) && m < |frac| && SignificantAt(digits, frac, m) >= 0
    ensures Value(digits + frac[..m + 1]) == Value(digits + frac[..m]) * 10 + Digit(frac[m])
    ensures SignificantAt(digits, frac, m + 1) ==
            SignificantAt(digits, frac, m) + if Value(digits + frac[..m + 1]) != 0 then 1 else 0
  {
    hide LeadingZeros;
    var w := digits + frac[..m + 1];
    assert w == digits + frac[..m] + [frac[m]];
    ZeroIsAllZeros(w);
    assert frac[..m + 1] == frac[..m] + [frac[m]];
    ZerosOfOneMore(frac[..m], frac[m]);
    ZerosInFront(digits, frac[..m + 1]);
  }

  lemma ZerosInFront(digits: string, w: string)
    requires IsInt(digits)
    ensures LeadingZeros(digits + w) == if digits == "0" then 1 + LeadingZeros(w) else 0
  {
    if digits == "0" { assert (digits + w)[1..] == w; }
  }

  lemma CountingIs(digits: string, frac: string)
    requires IsInt(digits) && AllDigits(frac)
    ensures PointShift(frac, Value(digits), |digits| - 1) == Counting(digits, frac)
  {
    assert frac[0..] == frac && digits + frac[..0] == digits;
    ShiftFrom(digits, frac, 0);
  }

  // ---- a number of the grammar is what is read ------------------------------------------------

  /** Behind the fraction. */
  lemma TailIs(s: string, p: nat, n: Parts, q: nat, wide: bool, shift: nat)
    requires p < q && IsNumber(n) && Stands(s, q, n.exp) && 308 + shift == LargestPower(n)
    requires wide == NeedsDouble(n.(exp := ""))
    requires if n.exp == "" then Peek(s, q) != 'e' && Peek(s, q) != 'E' else !DigitAt(s, q + |n.exp|)
    ensures ExponentAt(s, p, n.minus == "-", Value(n.digits), q, wide, shift) ==
            if TooLarge(n) then NoLiteral(NumberTooBig, p)
            else Literal(n.minus == "-", Value(n.digits), NeedsDouble(n), q + |n.exp|)
  {
    hide Value, ExponentAt, Counting, LargestPower, Stands, Mark, Power, IsExp;
    ExponentIs(s, p, n.minus == "-", Value(n.digits), q, n.exp, wide, shift);
  }

  lemma FractionIs(s: string, p: nat, n: Parts, q: nat)
    requires IsNumber(n) && q == p + |n.minus| && Stands(s, q, n.digits + n.frac + n.exp)
    requires Stops(n, Peek(s, q + |n.digits + n.frac + n.exp|))
    ensures FractionAt(s, p, n.minus == "-", q, q + |n.digits|) ==
            if TooLarge(n) then NoLiteral(NumberTooBig, p)
            else Literal(n.minus == "-", Value(n.digits), NeedsDouble(n), p + |Spelled(n)|)
  {
    hide Value, ExponentAt, PointShift, Counting, TooLarge, Stands, IsExp;
    StandsConcat(s, q, n.digits + n.frac, n.exp);
    StandsConcat(s, q, n.digits, n.frac);
    StandsAsSlice(s, q, n.digits);
    var p2, p3 := q + |n.digits|, q + |n.digits + n.frac|;
    if n.exp != "" { MarkStands(s, p3, n.exp); }
    if n.frac == "" {
      TailIs(s, p, n, p2, TooWide(n.minus == "-", Value(n.digits)), 0);
    } else {
      PointIs(s, p, n, q);
    }
  }

  lemma PointIs(s: string, p: nat, n: Parts, q: nat)
    requires IsNumber(n) && n.frac != "" && q == p + |n.minus|
    requires Stands(s, q, n.digits) && Stands(s, q + |n.digits|, n.frac) && Stands(s, q + |n.digits + n.frac|, n.exp)
    requires Stops(n, Peek(s, q + |n.digits + n.frac + n.exp|))
    ensures FractionAt(s, p, n.minus == "-", q, q + |n.digits|) ==
            if TooLarge(n) then NoLiteral(NumberTooBig, p)
            else Literal(n.minus == "-", Value(n.digits), NeedsDouble(n), p + |Spelled(n)|)
  {
    hide Value, ExponentAt, PointShift, Counting, TooLarge, Stands, IsExp, DigitsEnd;
    var p2, p3 := q + |n.digits|, q + |n.digits + n.frac|;
    StandsAsSlice(s, q, n.digits);
    if n.exp != "" { MarkStands(s, p3, n.exp); }
    PointRuns(s, p2, n.frac);
    CountingIs(n.digits, n.frac[1..]);
    var shift := if TooWide(n.minus == "-", Value(n.digits)) then 0 else Counting(n.digits, n.frac[1..]);
    TailIs(s, p, n, p3, true, shift);
  }

  /** A point and the digits behind it. */
  lemma PointRuns(s: string, q: nat, frac: string)
    requires frac != "" && IsFrac(frac) && Stands(s, q, frac) && !DigitAt(s, q + |frac|)
    ensures AllDigits(frac[1..]) && Peek(s, q) == '.' && IsDigit(Peek(s, q + 1))
    ensures DigitsEnd(s, q + 1) == q + |frac| && s[q + 1..q + |frac|] == frac[1..]
  {
    hide DigitsEnd, Stands;
    assert ['.'] + frac[1..] == frac;
    StandsConcat(s, q, ['.'], frac[1..]);
    FirstStands(s, q, ['.']);
    FirstStands(s, q + 1, frac[1..]);
    RunOfDigits(s, q + 1, frac[1..]);
  }

  /** A number is read as what it denotes, or is too large. */
  lemma NumberIs(s: string, p: nat, n: Parts)
    requires p <= |s| && Reads(s, p, n)
    ensures if TooLarge(n) then LiteralAt(s, p) == NoLiteral(NumberTooBig, p) else Denotes(p, n, LiteralAt(s, p))
  {
    hide LiteralAt, Value, FractionAt, Counting, Stops, Stands, TooLarge, IsExp, IsFrac, NeedsDouble;
    var q := p + |n.minus|;
    assert Spelled(n) == n.minus + (n.digits + n.frac + n.exp);
    StandsConcat(s, p, n.minus, n.digits + n.frac + n.exp);
    StandsConcat(s, q, n.digits + n.frac, n.exp);
    StandsConcat(s, q, n.digits, n.frac);
    if n.digits != "0" { NotDigitBehind(s, q + |n.digits|, n); }
    DigitsStand(s, p, n.minus, n.digits);
    FractionIs(s, p, n, q);
  }

  /** Where the digits of a number's integer part start and end. */
  lemma DigitsStand(s: string, p: nat, minus: string, digits: string)
    requires (minus == "" || minus == "-") && IsInt(digits) && Stands(s, p, minus) && Stands(s, p + |minus|, digits)
    requires digits != "0" ==> !IsDigit(Peek(s, p + |minus| + |digits|))
    ensures p + |minus| + |digits| <= |s| && digits != "" && s[p + |minus|..p + |minus| + |digits|] == digits
    ensures LiteralAt(s, p) == FractionAt(s, p, minus == "-", p + |minus|, p + |minus| + |digits|)
  {
    hide DigitsEnd, Stands, FractionAt;
    var q := p + |minus|;
    FirstStands(s, q, digits);
    StandsAsSlice(s, q, digits);
    if minus == "-" { FirstStands(s, p, minus); }
    if digits[0] != '0' { RunOfDigits(s, q, digits); }
  }

  lemma NotDigitBehind(s: string, q: nat, n: Parts)
    requires IsNumber(n) && Stands(s, q, n.frac) && Stands(s, q + |n.frac|, n.exp)
    requires n.digits != "0" && Stops(n, Peek(s, q + |n.frac| + |n.exp|))
    ensures !IsDigit(Peek(s, q))
  {
    if n.frac != "" { assert s[q] == n.frac[0]; }
    else if n.exp != "" { MarkStands(s, q, n.exp); }
  }

  // ---- where there is none --------------------------------------------------------------------

  lemma NoDigitsIs(s: string, p: nat, off: nat)
    requires p <= |s| && MissesDigits(s, p, off)
    ensures LiteralAt(s, p) == NoLiteral(ValueInvalid, off)
  {
  }

  /** An integer part before a character that is no digit. */
  lemma WholeIs(s: string, p: nat, minus: string, digits: string, c: string)
    requires (minus == "" || minus == "-") && IsInt(digits) && Stands(s, p, minus + digits + c)
    requires c != "" && !IsDigit(c[0])
    ensures p + |minus| + |digits| <= |s| && digits != "" && s[p + |minus|..p + |minus| + |digits|] == digits
    ensures LiteralAt(s, p) == FractionAt(s, p, minus == "-", p + |minus|, p + |minus| + |digits|)
    ensures Peek(s, p + |minus| + |digits|) == c[0] && Stands(s, p + |minus| + |digits|, c)
  {
    hide DigitsEnd, Stands, IsInt, LiteralAt, FractionAt;
    StandsConcat(s, p, minus + digits, c);
    StandsConcat(s, p, minus, digits);
    FirstStands(s, p + |minus| + |digits|, c);
    DigitsStand(s, p, minus, digits);
  }

  lemma NoFractionIs(s: string, p: nat, off: nat, n: Parts)
    requires MissesFraction(s, p, off, n)
    ensures p <= |s| && LiteralAt(s, p) == NoLiteral(NumberMissFraction, off)
  {
    hide LiteralAt, Value, DigitsEnd, Stands, IsInt;
    assert Spelled(n) == n.minus + n.digits;
    WholeIs(s, p, n.minus, n.digits, ".");
  }

  lemma NoPowerIs(s: string, p: nat, minus: bool, v: nat, q: nat, mark: string, wide: bool, shift: nat)
    requires p < q && IsMark(mark) && Stands(s, q, mark) && !DigitAt(s, q + |mark|)
    requires |mark| == 1 ==> Peek(s, q + 1) != '+' && Peek(s, q + 1) != '-'
    ensures ExponentAt(s, p, minus, v, q, wide, shift) == NoLiteral(NumberMissExponent, q + |mark|)
  {
    assert s[q] == mark[0] && (|mark| == 2 ==> s[q + 1] == mark[1]);
  }

  lemma NoExponentIs(s: string, p: nat, off: nat, n: Parts, mark: string)
    requires MissesExponent(s, p, off, n, mark)
    ensures p <= |s| && LiteralAt(s, p) == NoLiteral(NumberMissExponent, off)
  {
    hide LiteralAt, Value, DigitsEnd, Stands, ExponentAt, PointShift, IsInt, IsDigits, IsFrac, IsMark;
    var q, v := p + |n.minus| + |n.digits|, Value(n.digits);
    var wide := TooWide(n.minus == "-", v);
    assert Spelled(n) == n.minus + n.digits + n.frac;
    Assoc(n.minus + n.digits, n.frac, mark);
    FirstOfRest(n.frac, mark);
    WholeIs(s, p, n.minus, n.digits, n.frac + mark);
    StandsConcat(s, q, n.frac, mark);
    FirstStands(s, q + |n.frac|, mark);
    if n.frac == "" {
      NoPowerIs(s, p, n.minus == "-", v, q, mark, wide, 0);
    } else {
      PointRuns(s, q, n.frac);
      var shift := if wide then 0 else PointShift(n.frac[1..], v, |n.digits| - 1);
      NoPowerIs(s, p, n.minus == "-", v, q + |n.frac|, mark, true, shift);
    }
  }

  lemma FirstOfRest(frac: string, mark: string)
    requires IsFrac(frac) && IsMark(mark)
    ensures mark != "" && !IsDigit(mark[0]) && mark[0] != '.' && !IsDigit((frac + mark)[0])
  {
  }

  // ---- every place is one of these ------------------------------------------------------------

  lemma DigitsHere(s: string, q: nat)
    requires q <= |s| && IsDigit(Peek(s, q))
    ensures IsDigits(s[q..DigitsEnd(s, q)]) && q < DigitsEnd(s, q) <= |s| && !DigitAt(s, DigitsEnd(s, q))
  {
    DigitsEndIs(s, q);
  }

  /** The integer part that stands at `p`. */
  lemma IntHere(s: string, p: nat) returns (q: nat, r: nat)
    requires p <= |s| && IsDigit(Peek(s, DigitsStart(s, p)))
    ensures p <= q < r <= |s| && (s[p..q] == "" || s[p..q] == "-") && IsInt(s[q..r])
    ensures s[q..r] == "0" || !DigitAt(s, r)
    ensures LiteralAt(s, p) == FractionAt(s, p, s[p..q] == "-", q, r)
  {
    hide DigitsEnd, FractionAt;
    q := DigitsStart(s, p);
    DigitsHere(s, q);
    r := if s[q] == '0' then q + 1 else DigitsEnd(s, q);
    assert s[p..q] == if Peek(s, p) == '-' then "-" else "";
    if s[q] == '0' { assert s[q..r] == "0"; }
  }

  /** The fraction that stands at `r`, empty if there is no point. */
  lemma FractionHere(s: string, r: nat) returns (t: nat)
    requires r <= |s| && (Peek(s, r) == '.' ==> IsDigit(Peek(s, r + 1)))
    ensures r <= t <= |s| && IsFrac(s[r..t])
    ensures if Peek(s, r) == '.' then t == DigitsEnd(s, r + 1) && t > r && !DigitAt(s, t) else t == r
  {
    hide DigitsEnd;
    t := r;
    if Peek(s, r) == '.' {
      DigitsHere(s, r + 1);
      t := DigitsEnd(s, r + 1);
      assert s[r..t][1..] == s[r + 1..t];
    }
  }

  /** The mark of an exponent. */
  lemma MarkHere(s: string, t: nat) returns (mark: string)
    requires Peek(s, t) == 'e' || Peek(s, t) == 'E'
    ensures IsMark(mark) && Stands(s, t, mark)
    ensures |mark| == if Peek(s, t + 1) == '+' || Peek(s, t + 1) == '-' then 2 else 1
  {
    var signed := Peek(s, t + 1) == '+' || Peek(s, t + 1) == '-';
    mark := if signed then [s[t], s[t + 1]] else [s[t]];
  }

  lemma PowerHere(s: string, t: nat, mark: string) returns (exp: string)
    requires IsMark(mark) && Stands(s, t, mark) && DigitAt(s, t + |mark|)
    requires |mark| == if Peek(s, t + 1) == '+' || Peek(s, t + 1) == '-' then 2 else 1
    ensures exp != "" && IsExp(exp) && Stands(s, t, exp) && !DigitAt(s, t + |exp|)
  {
    var u := t + |mark|;
    DigitsHere(s, u);
    exp := s[t..DigitsEnd(s, u)];
    SliceStands(s, t, DigitsEnd(s, u));
    StandsAsSlice(s, t, mark);
    MarkOf(s, t, mark, DigitsEnd(s, u));
  }

  lemma MarkOf(s: string, t: nat, mark: string, end: nat)
    requires IsMark(mark) && Stands(s, t, mark) && t + |mark| < end <= |s| && IsDigit(s[t + |mark|])
    requires |mark| == if Peek(s, t + 1) == '+' || Peek(s, t + 1) == '-' then 2 else 1
    ensures Mark(s[t..end]) == mark && Power(s[t..end]) == s[t + |mark|..end]
  {
    var exp := s[t..end];
    assert exp[1] == s[t + 1];
    assert exp[..|mark|] == s[t..t + |mark|];
    StandsAsSlice(s, t, mark);
    assert exp[|mark|..] == s[t + |mark|..end];
  }

  lemma SpelledStands(s: string, p: nat, n: Parts, tail: string)
    requires Placed(s, p, n) && Stands(s, p + |Spelled(n)|, tail)
    ensures Stands(s, p, Spelled(n)) && Stands(s, p, Spelled(n) + tail)
  {
    hide Stands;
    StandsJoin(s, p, n.minus, n.digits);
    StandsJoin(s, p, n.minus + n.digits, n.frac);
    StandsJoin(s, p, n.minus + n.digits + n.frac, n.exp);
    StandsJoin(s, p, Spelled(n), tail);
  }

  /** All of the parts stand one behind the other. */
  predicate Placed(s: string, p: nat, n: Parts) {
    Stands(s, p, n.minus) && Stands(s, p + |n.minus|, n.digits) &&
    Stands(s, p + |n.minus| + |n.digits|, n.frac) && Stands(s, p + |n.minus| + |n.digits| + |n.frac|, n.exp)
  }

  /** Behind the fraction: an exponent, none, or one without digits. */
  lemma ExponentHere(s: string, p: nat, n: Parts, c: nat) returns (m: Parts)
    requires IsNumber(n) && n.exp == "" && Placed(s, p, n) && c == p + |Spelled(n)|
    requires (n.frac == "" ==> Peek(s, c) != '.') && ((n.frac == "" && n.digits == "0") || !DigitAt(s, c))
    ensures Reads(s, p, m) || exists mark :: MissesExponent(s, p, c + |mark|, n, mark)
  {
    hide Stands, DigitsEnd, IsExp, IsMark, IsFrac, IsInt;
    m := n;
    if Peek(s, c) == 'e' || Peek(s, c) == 'E' {
      var mark := MarkHere(s, c);
      if !DigitAt(s, c + |mark|) {
        SpelledStands(s, p, n, mark);
        assert MissesExponent(s, p, c + |mark|, n, mark) by { SignOrNot(s, c, mark); }
        return;
      }
      var exp := PowerHere(s, c, mark);
      m := n.(exp := exp);
    }
    StandsAsSlice(s, c, m.exp);
    NothingStands(s, p + |Spelled(m)|);
    SpelledStands(s, p, m, "");
  }

  lemma SignOrNot(s: string, c: nat, mark: string)
    requires |mark| == if Peek(s, c + 1) == '+' || Peek(s, c + 1) == '-' then 2 else 1
    ensures |mark| == 1 ==> Peek(s, c + |mark|) != '+' && Peek(s, c + |mark|) != '-'
  {
  }

  /** There is a number, or something is missing. */
  lemma ReadsOrMisses(s: string, p: nat) returns (n: Parts)
    requires p <= |s|
    ensures Reads(s, p, n) || exists code, off :: code != NumberTooBig && Misses(s, p, code, off)
  {
    hide LiteralAt, FractionAt, Stands, DigitsEnd, IsExp, IsMark, IsFrac, IsInt, Reads, MissesExponent, MissesFraction,
         MissesDigits;
    hide Misses;
    var q := DigitsStart(s, p);
    if !IsDigit(Peek(s, q)) {
      NoDigits(s, p);
      return Parts("", "", "", "");
    }
    var a, b := IntHere(s, p);
    n := Parts(s[p..a], s[a..b], "", "");
    WholePlaced(s, p, a, b);
    if Peek(s, b) == '.' && !IsDigit(Peek(s, b + 1)) {
      PointAlone(s, p, b, n);
      MissesPart(s, p, b + 1, n, "");
      return;
    }
    var c := FractionHere(s, b);
    var m := n.(frac := s[b..c]);
    SliceStands(s, b, c);
    NothingStands(s, c);
    n := ExponentHere(s, p, m, c);
    if !Reads(s, p, n) {
      var mark :| MissesExponent(s, p, c + |mark|, m, mark);
      MissesPart(s, p, c + |mark|, m, mark);
    }
  }

  lemma NoDigits(s: string, p: nat)
    requires p <= |s| && !IsDigit(Peek(s, DigitsStart(s, p)))
    ensures Misses(s, p, ValueInvalid, DigitsStart(s, p))
  {
  }

  lemma MissesPart(s: string, p: nat, off: nat, n: Parts, mark: string)
    ensures MissesFraction(s, p, off, n) ==> Misses(s, p, NumberMissFraction, off)
    ensures MissesExponent(s, p, off, n, mark) ==> Misses(s, p, NumberMissExponent, off)
  {
    hide MissesFraction, MissesExponent;
  }

  lemma WholePlaced(s: string, p: nat, a: nat, b: nat)
    requires p <= a <= b <= |s| && (s[p..a] == "" || s[p..a] == "-") && IsInt(s[a..b])
    ensures var n := Parts(s[p..a], s[a..b], "", ""); IsNumber(n) && Placed(s, p, n) && p + |Spelled(n)| == b
  {
    hide Stands;
    SliceStands(s, p, a);
    SliceStands(s, a, b);
    NothingStands(s, b);
  }

  lemma PointAlone(s: string, p: nat, b: nat, n: Parts)
    requires IsNumber(n) && n.frac == "" && n.exp == "" && Placed(s, p, n) && b == p + |Spelled(n)|
    requires Peek(s, b) == '.' && !IsDigit(Peek(s, b + 1))
    ensures MissesFraction(s, p, b + 1, n)
  {
    hide Stands;
    SliceStands(s, b, b + 1);
    assert s[b..b + 1] == ".";
    SpelledStands(s, p, n, ".");
  }

  // ---- the theorem ----------------------------------------------------------------------------

  /** What is read at a place, and why nothing is, exactly. */
  lemma LiteralIs(s: string, p: nat, l: Literal)
    requires p <= |s|
    ensures LiteralAt(s, p) == l <==>
            match l
            case Literal(_, _, _, _) => exists n :: Reads(s, p, n) && Denotes(p, n, l)
            case NoLiteral(code, off) => Misses(s, p, code, off)
  {
    hide LiteralAt, Reads, MissesDigits, MissesFraction, MissesExponent, TooLarge, Value, Spelled, NeedsDouble;
    var n := ReadsOrMisses(s, p);
    forall m | Reads(s, p, m)
      ensures IsNumber(m)
      ensures if TooLarge(m) then LiteralAt(s, p) == NoLiteral(NumberTooBig, p) else Denotes(p, m, LiteralAt(s, p))
    {
      ReadsIsNumber(s, p, m);
      NumberIs(s, p, m);
    }
    forall code, off | Misses(s, p, code, off) ensures LiteralAt(s, p) == NoLiteral(code, off) {
      MissesIs(s, p, code, off);
    }
  }

  lemma ReadsIsNumber(s: string, p: nat, n: Parts)
    requires Reads(s, p, n)
    ensures IsNumber(n)
  {
  }

  lemma MissesIs(s: string, p: nat, code: ErrorCode, off: nat)
    requires p <= |s| && Misses(s, p, code, off)
    ensures LiteralAt(s, p) == NoLiteral(code, off)
  {
    hide LiteralAt, MissesDigits, MissesFraction, MissesExponent;
    match code
    case ValueInvalid => NoDigitsIs(s, p, off);
    case NumberMissFraction =>
      var n :| MissesFraction(s, p, off, n);
      NoFractionIs(s, p, off, n);
    case NumberMissExponent =>
      var n, mark :| MissesExponent(s, p, off, n, mark);
      NoExponentIs(s, p, off, n, mark);
    case NumberTooBig =>
      var n :| Reads(s, p, n) && TooLarge(n);
      NumberIs(s, p, n);
    case _ =>
  }

  // ---- a literal wherever it stands ---------------------------------------------------------

  /** A character with which no literal goes on. */
  predicate Breaks(c: char) {
    !('0' <= c <= '9') && c != '.' && c != 'e' && c != 'E'
  }

  /** The number that was read at a place. */
  lemma NumberThere(s: string, p: nat) returns (n: Parts)
    requires p <= |s| && LiteralAt(s, p).Literal?
    ensures Reads(s, p, n) && Denotes(p, n, LiteralAt(s, p))
  {
    hide LiteralAt, Denotes;
    LiteralIs(s, p, LiteralAt(s, p));
    n :| Reads(s, p, n) && Denotes(p, n, LiteralAt(s, p));
  }

  /** A literal is the same wherever it stands. */
  lemma LiteralSame(s: string, p: nat, t: string, q: nat, w: string)
    requires Stands(s, p, w) && Stands(t, q, w) && Breaks(Peek(t, q + |w|))
    requires LiteralAt(s, p).Literal? && LiteralAt(s, p).end == p + |w|
    ensures LiteralAt(t, q) == LiteralAt(s, p).(end := q + |w|)
  {
    hide LiteralAt, TooLarge, NeedsDouble, Value, Spelled, Stands, IsNumber;
    var n := NumberThere(s, p);
    StandsAsSlice(s, p, w);
    StandsAsSlice(s, p, Spelled(n));
    StandsAsSlice(t, q, w);
    NumberIs(t, q, n);
  }

  /** The text of a double is read, alone, as a literal that needs floating point, and no other text is. */
  lemma DoubleTextIff(text: string)
    ensures DoubleText(text) <==>
            var l := LiteralAt(text, 0); l.Literal? && l.wide && l.end == |text|
  {
    hide LiteralAt, Value, Spelled, Stands, IsNumber, TooLarge, NeedsDouble;
    WholeStands(text);
    if DoubleText(text) {
      var n :| IsNumber(n) && text == Spelled(n) && NeedsDouble(n) && !TooLarge(n);
      NumberIs(text, 0, n);
    } else if LiteralAt(text, 0).Literal? {
      var n := NumberThere(text, 0);
      StandsAsSlice(text, 0, Spelled(n));
      assert text[0..|text|] == text;
    }
  }

  /** No longer text from there is a number. */
  lemma LongestMatch(s: string, p: nat, n: Parts, m: Parts)
    requires Reads(s, p, n) && IsNumber(m) && Stands(s, p, Spelled(m))
    ensures |Spelled(m)| <= |Spelled(n)|
  {
    hide Stands, IsDigits, IsFrac, IsExp, Stops;
    Split(s, p, n);
    Split(s, p, m);
    SameMinus(s, p, n, m);
    var q := p + |n.minus|;
    NoMoreDigits(s, q, n, m.digits);
    if |m.digits| < |n.digits| {
      NothingBehindDigits(s, q + |m.digits|, m, s[q + |m.digits|]);
    } else {
      var r := q + |n.digits|;
      NoMoreFraction(s, r, n, m);
      if |m.frac| == |n.frac| { NoMoreExponent(s, r + |n.frac|, n, m.exp); }
    }
  }

  lemma Split(s: string, p: nat, n: Parts)
    requires IsNumber(n) && Stands(s, p, Spelled(n))
    ensures Placed(s, p, n)
  {
    StandsConcat(s, p, n.minus + n.digits + n.frac, n.exp);
    StandsConcat(s, p, n.minus + n.digits, n.frac);
    StandsConcat(s, p, n.minus, n.digits);
  }

  lemma SameMinus(s: string, p: nat, n: Parts, m: Parts)
    requires IsNumber(n) && IsNumber(m) && Placed(s, p, n) && Placed(s, p, m)
    ensures n.minus == m.minus
  {
    hide Stands;
    FirstStands(s, p, n.minus + n.digits) by { StandsJoin(s, p, n.minus, n.digits); }
    FirstStands(s, p, m.minus + m.digits) by { StandsJoin(s, p, m.minus, m.digits); }
  }

  lemma NoMoreDigits(s: string, q: nat, n: Parts, digits: string)
    requires IsNumber(n) && Stands(s, q, n.digits) && Stands(s, q + |n.digits|, n.frac)
    requires Stands(s, q + |n.digits| + |n.frac|, n.exp)
    requires Stops(n, Peek(s, q + |n.digits| + |n.frac| + |n.exp|))
    requires IsInt(digits) && Stands(s, q, digits)
    ensures |digits| <= |n.digits|
    ensures |digits| < |n.digits| ==> q + |digits| < |s| && IsDigit(s[q + |digits|])
  {
    hide Stands;
    CharStands(s, q, digits, 0);
    CharStands(s, q, n.digits, 0);
    CharStands(s, q, digits, |n.digits|);
    CharStands(s, q, n.digits, |digits|);
    if n.digits != "0" { NotDigitBehind(s, q + |n.digits|, n); }
  }

  /** Where a digit or a point follows no exponent stands, and where a digit follows no fraction. */
  lemma NothingBehindDigits(s: string, r: nat, m: Parts, c: char)
    requires IsNumber(m) && Stands(s, r, m.frac) && Stands(s, r + |m.frac|, m.exp)
    requires r < |s| && s[r] == c && IsDigit(c)
    ensures m.frac == "" && m.exp == ""
  {
    CharStands(s, r, m.frac, 0);
    if m.frac == "" && m.exp != "" { MarkStands(s, r, m.exp); }
  }

  lemma NoMoreFraction(s: string, r: nat, n: Parts, m: Parts)
    requires IsNumber(n) && Stands(s, r, n.frac) && Stands(s, r + |n.frac|, n.exp)
    requires IsNumber(m) && Stands(s, r, m.frac) && Stands(s, r + |m.frac|, m.exp)
    requires Stops(n, Peek(s, r + |n.frac| + |n.exp|))
    ensures |m.frac| <= |n.frac| && (|m.frac| < |n.frac| ==> m.exp == "")
  {
    hide Stands, IsExp;
    var t := r + |n.frac|;
    if n.frac != "" { FirstStands(s, r, n.frac); }
    if n.exp != "" { MarkStands(s, t, n.exp); }
    if m.frac != "" { FirstStands(s, r, m.frac); }
    if m.exp != "" { MarkStands(s, r + |m.frac|, m.exp); }
    CharStands(s, r, m.frac, |n.frac|);
    CharStands(s, r, n.frac, |m.frac|);
  }

  lemma NoMoreExponent(s: string, t: nat, n: Parts, exp: string)
    requires IsNumber(n) && Stands(s, t, n.exp) && Stops(n, Peek(s, t + |n.exp|))
    requires IsExp(exp) && Stands(s, t, exp)
    ensures |exp| <= |n.exp|
  {
    hide Stands;
    if exp != "" { MarkStands(s, t, exp); }
    if n.exp != "" { MarkStands(s, t, n.exp); }
    CharStands(s, t, exp, |n.exp|);
    PowerDigit(exp, |n.exp|);
  }

  lemma PowerDigit(exp: string, k: nat)
    requires IsExp(exp)
    ensures |Mark(exp)| <= k < |exp| ==> IsDigit(exp[k])
  {
    if |Mark(exp)| <= k < |exp| { assert exp[k] == Power(exp)[k - |Mark(exp)|]; }
  }
}
