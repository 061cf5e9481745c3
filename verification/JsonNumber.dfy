/** RapidJSON's numbers: which texts are numbers, which of the integer events a literal
    raises and with what value. */
module JsonNumber {
  import opened Decimal
  import opened JsonStream

  const TWO_31 := 0x8000_0000
  const TWO_32 := 0x1_0000_0000
  const TWO_53 := 0x20_0000_0000_0000
  const TWO_63 := 0x8000_0000_0000_0000
  const TWO_64 := 0x1_0000_0000_0000_0000

  /** A literal: its sign, the value of its integer part, and whether it needs floating point. */
  datatype Literal = Literal(minus: bool, v: nat, wide: bool, end: nat) | NoLiteral(code: ErrorCode, off: nat)

  datatype Number = Number(event: Event, end: nat) | NotNumber(code: ErrorCode, off: nat)

  /** The end of the run of digits that starts at `p`. */
  function DigitsEnd(s: string, p: nat): (q: nat)
    requires p <= |s|
    ensures p <= q <= |s| && !IsDigit(Peek(s, q)) && AllDigits(s[p..q])
    decreases |s| - p
  {
    if IsDigit(Peek(s, p)) then
      var q := DigitsEnd(s, p + 1);
      assert forall k :: 0 < k < q - p ==> s[p..q][k] == s[p + 1..q][k - 1];
      q
    else p
  }

  /** The event for an integer literal: the narrowest type that holds it, 32 bits before 64,
      or none when it needs floating point. */
  function IntegerEvent(minus: bool, v: nat, text: string): (e: Event)
    ensures !e.Double? ==>
      && (e.Int? || e.Uint? || e.Int64? || e.Uint64?)
      && e.i == (if minus then 0 - v else v)
  {
    if minus then
      if v <= Max32(minus) then Int(0 - v) else if v <= Max64(minus) then Int64(0 - v) else Double(text)
    else
      if v <= Max32(minus) then Uint(v) else if v <= Max64(minus) then Uint64(v) else Double(text)
  }

  /** The largest magnitudes of 32-bit and of 64-bit integers of each sign. */
  function Max32(minus: bool): nat {
    if minus then TWO_31 else TWO_32 - 1
  }

  function Max64(minus: bool): nat {
    if minus then TWO_63 else TWO_64 - 1
  }

  function Max(minus: bool, wide: bool): nat {
    if wide then Max64(minus) else Max32(minus)
  }

  /** Whether a literal of magnitude `v` needs floating point. */
  predicate TooWide(minus: bool, v: nat) {
    v > Max64(minus)
  }

  /** How many of the fraction's digits `ds` move the decimal point, given the significand so
      far and its number of significant digits. */
  function PointShift(ds: string, significand: nat, sig: nat): nat {
    if ds == [] then 0
    else if significand < TWO_53 then
      var next := significand * 10 + Digit(ds[0]);
      1 + PointShift(ds[1..], next, if next != 0 then sig + 1 else sig)
    else if sig < 17 then 1 + PointShift(ds[1..], significand, sig + 1)
    else 0
  }

  /** Where the digits of the literal at `p` start. */
  function DigitsStart(s: string, p: nat): nat {
    if Peek(s, p) == '-' then p + 1 else p
  }

  /** The literal that starts at `p`, or the error and its place. */
  function LiteralAt(s: string, p: nat): (r: Literal)
    requires p <= |s|
    ensures if r.Literal? then p < r.end <= |s| else r.code != Termination
  {
    var minus := Peek(s, p) == '-';
    var p1 := DigitsStart(s, p);
    if !IsDigit(Peek(s, p1)) then NoLiteral(ValueInvalid, p1)
    else
      var p2 := if s[p1] == '0' then p1 + 1 else DigitsEnd(s, p1);
      FractionAt(s, p, minus, p1, p2)
  }

  function FractionAt(s: string, p: nat, minus: bool, p1: nat, p2: nat): (r: Literal)
    requires p <= p1 < p2 <= |s|
    ensures if r.Literal? then p2 <= r.end <= |s| else r.code != Termination
  {
    var v := Value(s[p1..p2]);
    if Peek(s, p2) != '.' then ExponentAt(s, p, minus, v, p2, TooWide(minus, v), 0)
    else if !IsDigit(Peek(s, p2 + 1)) then NoLiteral(NumberMissFraction, p2 + 1)
    else
      var p3 := DigitsEnd(s, p2 + 1);
      var shift := if TooWide(minus, v) then 0 else PointShift(s[p2 + 1..p3], v, p2 - p1 - 1);
      ExponentAt(s, p, minus, v, p3, true, shift)
  }

  function ExponentAt(s: string, p: nat, minus: bool, v: nat, p3: nat, wide: bool, shift: nat): (r: Literal)
    requires p < p3 <= |s|
    ensures if r.Literal? then p3 <= r.end <= |s| else r.code != Termination
  {
    if Peek(s, p3) != 'e' && Peek(s, p3) != 'E' then Literal(minus, v, wide, p3)
    else
      var sign := Peek(s, p3 + 1);
      if sign == '+' || sign == '-' then PowerAt(s, p, minus, v, p3 + 2, sign == '-', shift)
      else PowerAt(s, p, minus, v, p3 + 1, false, shift)
  }

  /** The digits of an exponent. */
  function PowerAt(s: string, p: nat, minus: bool, v: nat, p4: nat, negative: bool, shift: nat): (r: Literal)
    ensures if r.Literal? then p4 < r.end <= |s| else r.code != Termination
  {
    if !IsDigit(Peek(s, p4)) then NoLiteral(NumberMissExponent, p4)
    else
      var p5 := DigitsEnd(s, p4);
      if !negative && Value(s[p4..p5]) > 308 + shift then NoLiteral(NumberTooBig, p)
      else Literal(minus, v, true, p5)
  }

  /** What is reported for a literal: only a double depends on the floating-point conversion. */
  function Report(src: Source, p: nat, l: Literal): (r: Number)
    requires if l.Literal? then p < l.end <= |src.text| else l.code != Termination
    ensures if r.Number? then p < r.end <= |src.text| else r.code != Termination
  {
    match l
    case NoLiteral(code, off) => NotNumber(code, off)
    case Literal(minus, v, wide, end) =>
      var text := src.text[p..end];
      if src.flags.numbersAsStrings then Number(RawNumber(text), end)
      else if wide then
        if src.overflows(text) then NotNumber(NumberTooBig, p) else Number(Double(text), end)
      else Number(IntegerEvent(minus, v, text), end)
  }

  /** The number that starts at `p`, or the error and its place. */
  function NumberAt(src: Source, p: nat): (r: Number)
    requires p <= |src.text|
    ensures if r.Number? then p < r.end <= |src.text| else r.code != Termination
  {
    Report(src, p, LiteralAt(src.text, p))
  }

  predicate IsInteger(e: Event) {
    e.Int? || e.Uint? || e.Int64? || e.Uint64?
  }

  /** An integer is reported exactly for a plain numeral in the range of 64 bits, with its exact value,
      and in 32 bits exactly if it fits. */
  lemma IntegersAreExact(src: Source, p: nat)
    requires p <= |src.text| && NumberAt(src, p).Number?
    ensures
      var r, p1, minus := NumberAt(src, p), DigitsStart(src.text, p), Peek(src.text, p) == '-';
      p1 < r.end <= |src.text| &&
      var ds := src.text[p1..r.end];
      var n := if minus then 0 - Value(ds) else Value(ds);
      && (IsInteger(r.event) <==> !src.flags.numbersAsStrings && AllDigits(ds) && -TWO_63 <= n < TWO_64)
      && (IsInteger(r.event) ==> r.event.i == n)
      && (IsInteger(r.event) ==> (r.event.Int? || r.event.Uint? <==> -TWO_31 <= n < TWO_32))
      && (IsInteger(r.event) ==> (r.event.Int? || r.event.Int64? <==> minus))
  {
    hide Value, DigitsEnd, FractionAt, Report, TooWide;
    var s, p1, minus := src.text, DigitsStart(src.text, p), Peek(src.text, p) == '-';
    var l := LiteralAt(s, p);
    ReportKinds(src, p, l);
    var p2 := if s[p1] == '0' then p1 + 1 else DigitsEnd(s, p1);
    DigitsEndIs(s, p1);
    PlainOrNot(s, p, minus, p1, p2);
    ValueBound(minus, Value(s[p1..p2]));
    if l.end > p2 {
      assert !IsDigit(s[p1..l.end][p2 - p1]);
    }
  }

  /** A number that goes on behind its integer part is no integer. */
  lemma PlainOrNot(s: string, p: nat, minus: bool, p1: nat, p2: nat)
    requires p <= p1 < p2 <= |s| && FractionAt(s, p, minus, p1, p2).Literal?
    ensures
      var r, v := FractionAt(s, p, minus, p1, p2), Value(s[p1..p2]);
      (r.end == p2 ==> r == Literal(minus, v, TooWide(minus, v), p2)) &&
      (r.end > p2 ==> !IsDigit(s[p2]) && r.wide)
  {
    hide Value, PointShift, TooWide;
  }

  /** A literal that does not need floating point fits into 64 bits. */
  lemma NarrowFits(s: string, p: nat)
    requires p <= |s| && LiteralAt(s, p).Literal? && !LiteralAt(s, p).wide
    ensures !TooWide(LiteralAt(s, p).minus, LiteralAt(s, p).v)
  {
    hide Value, DigitsEnd, TooWide;
  }

  lemma ValueBound(minus: bool, v: nat)
    ensures TooWide(minus, v) <==> !(-TWO_63 <= (if minus then 0 - v else v) < TWO_64)
  {
  }

  /** An integer is reported exactly for a literal that does not need floating point, with its value. */
  lemma ReportKinds(src: Source, p: nat, l: Literal)
    requires (if l.Literal? then p < l.end <= |src.text| else l.code != Termination) && Report(src, p, l).Number?
    ensures l.Literal? && Report(src, p, l).end == l.end
    ensures
      var e := Report(src, p, l).event;
      var n := if l.minus then 0 - l.v else l.v;
      && (IsInteger(e) <==> !src.flags.numbersAsStrings && !l.wide && -TWO_63 <= n < TWO_64)
      && (IsInteger(e) ==> e.i == n && (e.Int? || e.Uint? <==> -TWO_31 <= n < TWO_32))
      && (IsInteger(e) ==> (e.Int? || e.Int64? <==> l.minus))
  {
  }

  /** A number is reported by one of the number events. */
  lemma NumberKinds(src: Source, p: nat)
    requires p <= |src.text| && NumberAt(src, p).Number?
    ensures var e := NumberAt(src, p).event; e.RawNumber? || e.Double? || IsInteger(e)
  {
    hide LiteralAt;
  }

  lemma DigitsEndIs(s: string, p: nat)
    requires p < |s| && IsDigit(s[p])
    ensures p < DigitsEnd(s, p) <= |s| && AllDigits(s[p..DigitsEnd(s, p)]) && AllDigits(s[p..p + 1])
  {
  }
}
