/** Reading undoes writing: what the writers put for a value, in either layout, is a text of the grammar
    that means the value; so both readers, under every flag, read it back. */
module JsonRoundTrip {
  import opened Common
  import Decimal
  import opened JsonStream
  import JsonNumber
  import JsonString
  import opened JsonReader
  import opened JsonText
  import opened NumberGrammar
  import opened JsonGrammar
  import JsonMachine
  import JsonTokens
  import JsonLanguage
  import JsonParses

  // ---- white space ------------------------------------------------------------------------------

  predicate AllBlank(w: string) {
    forall k :: 0 <= k < |w| ==> IsBlank(w[k])
  }

  function Blanks(w: string): seq<Piece> {
    if w == "" then [] else [Blank(w[0])] + Blanks(w[1..])
  }

  lemma {:induction false} BlanksAreGap(flags: Flags, w: string)
    requires AllBlank(w)
    ensures IsGap(flags, Blanks(w)) && GapText(Blanks(w)) == w
  {
    if w != "" {
      BlanksAreGap(flags, w[1..]);
      assert Blanks(w)[1..] == Blanks(w[1..]);
    }
  }

  lemma {:induction false} BreaksAreBlank(f: Format, depth: nat)
    requires ValidFormat(f)
    ensures AllBlank(Break(f, depth)) && AllBlank(ArrayBreak(f, depth))
    ensures AllBlank(AfterComma(f) + ArrayBreak(f, depth)) && AllBlank(AfterColon(f))
  {
  }

  // ---- leaves -----------------------------------------------------------------------------------

  /** How one character is written. */
  lemma {:induction false} CharOf(flags: Flags, c: char) returns (k: Char)
    ensures IsChar(flags, k) && CharText(k) == JsonString.Escape(c) && CharMeaning(k) == [c]
  {
    match JsonString.EscapeLetter(c) {
      case None => k := Plain(c);
      case Some(letter) =>
        if letter == 'u' {
          k := ControlOf(flags, c);
        } else {
          k := JsonGrammar.Char.Escape(letter);
        }
    }
  }

  lemma {:induction false} ControlOf(flags: Flags, c: char) returns (k: Char)
    requires c as int < 32
    ensures IsChar(flags, k) && CharMeaning(k) == [c]
    ensures CharText(k) == ['\\', 'u', '0', '0', JsonString.HexDigit(c as int / 16), JsonString.HexDigit(c as int % 16)]
  {
    var w := ['0', '0', JsonString.HexDigit(c as int / 16), JsonString.HexDigit(c as int % 16)];
    k := Unit(w);
    DigitIs(c as int / 16);
    DigitIs(c as int % 16);
    assert Hex4Value(w) == c as int;
  }

  lemma {:induction false} DigitIs(d: nat)
    requires d < 16
    ensures IsHex(JsonString.HexDigit(d)) && HexDigitValue(JsonString.HexDigit(d)) == d
  {
  }

  lemma {:induction false} CharsOf(flags: Flags, t: string) returns (cs: seq<Char>)
    ensures AreChars(flags, cs) && CharsText(cs) == JsonString.EscapeAll(t) && CharsMeaning(cs) == t
    decreases |t|
  {
    hide IsChar, CharText, CharMeaning, JsonString.Escape;
    cs := [];
    if t != "" {
      var c := CharOf(flags, t[0]);
      var rest := CharsOf(flags, t[1..]);
      cs := [c] + rest;
      assert cs[1..] == rest && [t[0]] + t[1..] == t;
    }
  }

  lemma {:induction false} QuotedOf(flags: Flags, t: string) returns (cs: seq<Char>)
    ensures AreChars(flags, cs) && QuotedText(cs) == JsonString.Quote(t) && CharsMeaning(cs) == t
  {
    hide IsChar, CharsText, CharsMeaning, JsonString.EscapeAll;
    cs := CharsOf(flags, t);
    Assoc(['\"'], CharsText(cs), ['\"']);
  }

  /** Every string, control characters and NUL included, is read back wherever its quoted text stands. */
  lemma {:induction false} StringBack(s: string, p: nat, flags: Flags, t: string)
    requires Stands(s, p, JsonString.Quote(t))
    ensures Peek(s, p) == '\"'
    ensures JsonString.Scan(s, p + 1, flags.escapedApostrophe, "") == JsonString.Scanned(t, p + |JsonString.Quote(t)|)
  {
    hide Stands, CharsText, CharsMeaning, AreChars, JsonString.Scan, JsonString.EscapeAll;
    var cs := QuotedOf(flags, t);
    StandsConcat(s, p, "\"", CharsText(cs) + "\"");
    FirstStands(s, p, "\"");
    JsonTokens.CharsScan(s, flags, p + 1, "", cs);
    assert "" + t == t;
  }

  /** No spelling of a character is shorter than the writer's, whose hexadecimal digits are capital. */
  lemma {:induction false} EscapeIsShortest(flags: Flags, c: char, k: Char)
    requires IsChar(flags, k) && CharMeaning(k) == [c]
    ensures |JsonString.Escape(c)| <= |CharText(k)|
    ensures var w := JsonString.Escape(c);
            |w| == 6 ==> w[..4] == "\\u00" && !('a' <= w[4] <= 'f') && !('a' <= w[5] <= 'f')
  {
    hide CharText, CharMeaning, IsChar, JsonString.Escape;
    EscapeLength(c);
    if k.Escape? || k.Plain? { ShortOrPlain(flags, c, k); } else { LongIsSix(flags, k); }
  }

  lemma EscapeLength(c: char)
    ensures var w := JsonString.Escape(c);
            |w| <= 6 && (|w| == 6 ==> w[..4] == "\\u00" && !('a' <= w[4] <= 'f') && !('a' <= w[5] <= 'f'))
  {
  }

  lemma ShortOrPlain(flags: Flags, c: char, k: Char)
    requires IsChar(flags, k) && CharMeaning(k) == [c] && (k.Escape? || k.Plain?)
    ensures |JsonString.Escape(c)| <= |CharText(k)|
  {
  }

  lemma LongIsSix(flags: Flags, k: Char)
    requires IsChar(flags, k) && (k.Unit? || k.Pair?)
    ensures |CharText(k)| >= 6
  {
  }

  /** An integer's numeral. */
  lemma {:induction false} IntegerOf(src: Source, n: int) returns (t: Parts)
    requires -JsonNumber.TWO_63 <= n < JsonNumber.TWO_64
    ensures IsNumeral(src, t) && Spelled(t) == NumberText(n) &&
            NumeralMeaning(src.flags, t) == LiteralEvent(src.flags, n)
  {
    hide Decimal.Value, Decimal.Print;
    var m: nat := if n < 0 then -n else n;
    t := Parts(if n < 0 then "-" else "", Decimal.Print(m), "", "");
    assert Spelled(t) == NumberText(n);
    Decimal.ValueOfPrint(m);
  }

  lemma {:induction false} DoubleOf(src: Source, text: string) returns (t: Parts)
    requires DoubleText(text) && !src.overflows(text)
    ensures IsNumeral(src, t) && Spelled(t) == text
    ensures NumeralMeaning(src.flags, t) == if src.flags.numbersAsStrings then RawNumber(text) else Double(text)
  {
    t :| IsNumber(t) && text == Spelled(t) && NeedsDouble(t) && !TooLarge(t);
  }

  /** The literal of a 64-bit integer is read as that integer. */
  lemma {:induction false} NumberBack(src: Source, p: nat, n: int)
    requires Stands(src.text, p, NumberText(n)) && JsonParses.Ends(Peek(src.text, p + |NumberText(n)|))
    requires -JsonNumber.TWO_63 <= n < JsonNumber.TWO_64
    ensures JsonNumber.NumberAt(src, p) == JsonNumber.Number(LiteralEvent(src.flags, n), p + |NumberText(n)|)
  {
    hide NumberText, LiteralEvent, Spelled, NumeralMeaning, Stands;
    var t := IntegerOf(src, n);
    JsonParses.NumeralReads(src, p, t);
  }

  /** A number that needs floating point is read as the same text. */
  lemma {:induction false} DoubleBack(src: Source, p: nat, text: string)
    requires DoubleText(text) && !src.overflows(text)
    requires Stands(src.text, p, text) && JsonParses.Ends(Peek(src.text, p + |text|))
    ensures
      var e := if src.flags.numbersAsStrings then RawNumber(text) else Double(text);
      JsonNumber.NumberAt(src, p) == JsonNumber.Number(e, p + |text|)
  {
    hide Spelled, NumeralMeaning, Stands;
    var t := DoubleOf(src, text);
    JsonParses.NumeralReads(src, p, t);
  }

  // ---- values -----------------------------------------------------------------------------------

  /** The spelling of a value is one of the grammar, and means the value. */
  lemma {:induction false} TreeOf(src: Source, f: Format, depth: nat, v: Json) returns (t: Syntax)
    requires ValidFormat(f) && Readable(src, v)
    ensures IsValue(src, t) && ValueText(t) == Text(f, depth, v) && Meaning(src.flags, t) == Events(src.flags, v)
    decreases v, 3
  {
    hide IsNumeral, AreChars, QuotedText, Spelled, NumeralMeaning, LiteralEvent, DoubleText, JsonString.Quote;
    match v {
      case JNull => t := Name("null");
      case JBool(b) => t := Name(if b then "true" else "false");
      case JNumber(n) =>
        var p := IntegerOf(src, n);
        t := Numeral(p);
      case JDouble(text) =>
        var p := DoubleOf(src, text);
        t := Numeral(p);
      case JString(str) =>
        var cs := QuotedOf(src.flags, str);
        t := Quoted(cs);
      case JArray(es) => t := ListOf(src, f, depth, es);
      case JObject(ms) => t := RecordOf(src, f, depth, ms);
    }
  }

  // ---- arrays -----------------------------------------------------------------------------------

  /** The text of the elements from the first of `es` on, and of the end of their array. */
  function FromElement(f: Format, depth: nat, es: seq<Json>): string
    requires es != []
  {
    Text(f, depth + 1, es[0]) + BehindElement(f, depth, es[1..])
  }

  function BehindElement(f: Format, depth: nat, es: seq<Json>): string {
    Elems(f, depth + 1, es, false) + ArrayEnd(f, depth, false)
  }

  lemma {:induction false} BehindElementCons(f: Format, depth: nat, es: seq<Json>)
    ensures BehindElement(f, depth, es) ==
      if es == [] then ArrayEnd(f, depth, false) else ElemSep(f, depth + 1, false) + FromElement(f, depth, es)
  {
    hide ElemSep, Text, ArrayEnd;
    if es != [] {
      var sep, t, r, e := ElemSep(f, depth + 1, false), Text(f, depth + 1, es[0]), Elems(f, depth + 1, es[1..], false),
        ArrayEnd(f, depth, false);
      Assoc(sep, t + r, e);
      Assoc(t, r, e);
    }
  }

  lemma {:induction false} ArrayText(f: Format, depth: nat, es: seq<Json>)
    requires es != []
    ensures Text(f, depth, JArray(es)) == "[" + ArrayBreak(f, depth + 1) + FromElement(f, depth, es)
  {
    hide ArrayBreak, ArrayEnd;
    var sep, t, r, e := ArrayBreak(f, depth + 1), Text(f, depth + 1, es[0]), Elems(f, depth + 1, es[1..], false),
      ArrayEnd(f, depth, false);
    assert Elems(f, depth + 1, es, true) == sep + (t + r) by { assert "" + sep == sep; }
    calc {
      Text(f, depth, JArray(es));
      "[" + (sep + (t + r)) + e;
      { Assoc("[", sep + (t + r), e); Assoc(sep, t + r, e); Assoc(t, r, e); }
      "[" + (sep + (t + (r + e)));
      { Assoc("[", sep, t + (r + e)); }
      "[" + sep + (t + (r + e));
    }
  }

  lemma {:induction false} ListOf(src: Source, f: Format, depth: nat, es: seq<Json>) returns (t: Syntax)
    requires ValidFormat(f) && Readable(src, JArray(es))
    ensures IsValue(src, t) && ValueText(t) == Text(f, depth, JArray(es))
    ensures Meaning(src.flags, t) == Events(src.flags, JArray(es))
    decreases es, 1
  {
    hide Text, FromElement, FromItem, ItemsMeaning, ElemEvents, IsItem, Readable;
    hide GapText, IsGap, IsEnd, EndText, ArrayBreak, AllBlank, Blanks, AfterComma, Break;
    if es == [] {
      t := List([], End(false, []));
      EmptyList(src, f, depth);
    } else {
      SizeFits(src, es, []);
      BreaksAreBlank(f, depth + 1);
      var items := ItemsOf(src, f, depth, es, ArrayBreak(f, depth + 1));
      t := List(items, End(false, []));
      ArrayText(f, depth, es);
      BlanksAreGap(src.flags, ArrayBreak(f, depth + 1));
      Assoc("[", ArrayBreak(f, depth + 1), FromElement(f, depth, es));
      Assoc([StartArray], ElemEvents(src.flags, es), [EndArray(|es|)]);
      NoEnd(src.flags);
    }
  }

  lemma {:induction false} NoEnd(flags: Flags)
    ensures IsEnd(flags, false, End(false, [])) && IsEnd(flags, true, End(false, [])) && IsGap(flags, [])
    ensures EndText(End(false, [])) == "" && GapText([]) == ""
  {
  }

  lemma {:induction false} SizeFits(src: Source, es: seq<Json>, ms: seq<Member>)
    ensures Readable(src, JArray(es)) ==> |es| < 0x1_0000_0000 && forall k :: 0 <= k < |es| ==> Readable(src, es[k])
    ensures Readable(src, JObject(ms)) ==>
            |ms| < 0x1_0000_0000 && forall k :: 0 <= k < |ms| ==> Readable(src, ms[k].value)
  {
  }

  lemma {:induction false} EmptyList(src: Source, f: Format, depth: nat)
    ensures var t := List([], End(false, []));
            IsValue(src, t) && ValueText(t) == Text(f, depth, JArray([])) &&
            Meaning(src.flags, t) == Events(src.flags, JArray([]))
  {
  }

  lemma {:induction false} EmptyRecord(src: Source, f: Format, depth: nat)
    ensures var t := Record([], End(false, []));
            IsValue(src, t) && ValueText(t) == Text(f, depth, JObject([])) &&
            Meaning(src.flags, t) == Events(src.flags, JObject([]))
  {
  }

  /** The items for elements, with the blanks `sep` before the first. */
  lemma {:induction false} ItemsOf(src: Source, f: Format, depth: nat, es: seq<Json>, sep: string)
      returns (items: seq<Item>)
    requires ValidFormat(f) && es != [] && AllBlank(sep) && forall k :: 0 <= k < |es| ==> Readable(src, es[k])
    ensures |items| == |es| && (forall k :: 0 <= k < |items| ==> IsItem(src, items[k])) &&
            items[0].before == Blanks(sep)
    ensures FromItem(items, End(false, [])) == FromElement(f, depth, es)
    ensures ItemsMeaning(src.flags, items) == ElemEvents(src.flags, es)
    decreases es, 0
  {
    hide Text, ValueText, Meaning, Events, IsValue, Readable, ArrayBreak, AfterComma, AllBlank, ArrayEnd, ElemSep;
    var w, rest, none := Text(f, depth + 1, es[0]), es[1..], End(false, []);
    var t := TreeOf(src, f, depth + 1, es[0]);
    var more, after := [], [];
    NoEnd(src.flags);
    BehindElementCons(f, depth, rest);
    BlanksAreGap(src.flags, sep);
    if rest == [] {
      BreaksAreBlank(f, depth);
      BlanksAreGap(src.flags, ArrayBreak(f, depth));
      after := Blanks(ArrayBreak(f, depth));
      LastItem(f, depth, none);
    } else {
      BreaksAreBlank(f, depth + 1);
      var next := AfterComma(f) + ArrayBreak(f, depth + 1);
      more := ItemsOf(src, f, depth, rest, next);
      BlanksAreGap(src.flags, next);
      NextItem(f, depth, next, FromElement(f, depth, rest));
    }
    items := [Item(Blanks(sep), t, after)] + more;
    assert items[1..] == more;
    forall k | 0 <= k < |items| ensures IsItem(src, items[k]) { if k > 0 { assert items[k] == more[k - 1]; } }
  }

  lemma {:induction false} LastItem(f: Format, depth: nat, none: End)
    requires none == End(false, [])
    ensures ArrayBreak(f, depth) + BehindItem([], none) == ArrayEnd(f, depth, false)
    ensures Break(f, depth) + BehindField([], none) == ObjectEnd(f, depth, false)
  {
    hide ArrayBreak, Break;
    assert BehindItem([], none) == "]" && BehindField([], none) == "}";
  }

  lemma {:induction false} NextItem(f: Format, depth: nat, next: string, w: string)
    requires next == AfterComma(f) + ArrayBreak(f, depth + 1)
    ensures ElemSep(f, depth + 1, false) + w == "" + ("," + (next + w))
  {
    hide ArrayBreak, AfterComma;
    assert ElemSep(f, depth + 1, false) == "," + next;
    Assoc(",", next, w);
  }

  // ---- objects ----------------------------------------------------------------------------------

  /** The text of the members from the first of `ms` on, and of the end of their object. */
  function FromMember(f: Format, depth: nat, ms: seq<Member>): string
    requires ms != []
  {
    JsonString.Quote(ms[0].name) + (":" + AfterColon(f) + FromMemberValue(f, depth, ms))
  }

  function FromMemberValue(f: Format, depth: nat, ms: seq<Member>): string
    requires ms != []
  {
    Text(f, depth + 1, ms[0].value) + BehindMember(f, depth, ms[1..])
  }

  function BehindMember(f: Format, depth: nat, ms: seq<Member>): string {
    JsonText.Members(f, depth + 1, ms, false) + ObjectEnd(f, depth, false)
  }

  lemma {:induction false} MembersCons(f: Format, depth: nat, ms: seq<Member>, first: bool)
    requires ms != []
    ensures JsonText.Members(f, depth + 1, ms, first) + ObjectEnd(f, depth, false) ==
            MemberSep(f, depth + 1, first) + FromMember(f, depth, ms)
  {
    hide MemberSep, Text, ObjectEnd, JsonString.Quote, AfterColon;
    var sep, q, c, t := MemberSep(f, depth + 1, first), JsonString.Quote(ms[0].name), ":" + AfterColon(f),
      Text(f, depth + 1, ms[0].value);
    var r, e := JsonText.Members(f, depth + 1, ms[1..], false), ObjectEnd(f, depth, false);
    Assoc(sep, q + (c + (t + r)), e);
    Assoc(q, c + (t + r), e);
    Assoc(c, t + r, e);
    Assoc(t, r, e);
  }

  lemma {:induction false} BehindMemberCons(f: Format, depth: nat, ms: seq<Member>)
    ensures BehindMember(f, depth, ms) ==
      if ms == [] then ObjectEnd(f, depth, false) else MemberSep(f, depth + 1, false) + FromMember(f, depth, ms)
  {
    hide FromMember, ObjectEnd;
    if ms != [] { MembersCons(f, depth, ms, false); }
  }

  lemma {:induction false} ObjectText(f: Format, depth: nat, ms: seq<Member>)
    requires ms != []
    ensures Text(f, depth, JObject(ms)) == "{" + Break(f, depth + 1) + FromMember(f, depth, ms)
  {
    hide FromMember, ObjectEnd, Break;
    var members, e := JsonText.Members(f, depth + 1, ms, true), ObjectEnd(f, depth, false);
    assert MemberSep(f, depth + 1, true) ==
           Break(f, depth + 1) by { assert "" + Break(f, depth + 1) == Break(f, depth + 1); }
    MembersCons(f, depth, ms, true);
    Assoc("{", members, e);
    Assoc("{", Break(f, depth + 1), FromMember(f, depth, ms));
  }

  lemma {:induction false} RecordOf(src: Source, f: Format, depth: nat, ms: seq<Member>) returns (t: Syntax)
    requires ValidFormat(f) && Readable(src, JObject(ms))
    ensures IsValue(src, t) && ValueText(t) == Text(f, depth, JObject(ms))
    ensures Meaning(src.flags, t) == Events(src.flags, JObject(ms))
    decreases ms, 2
  {
    hide Text, FromMember, FromField, FieldsMeaning, MemberEvents, IsField, Readable;
    hide GapText, IsGap, IsEnd, EndText, Break, AllBlank, Blanks;
    if ms == [] {
      t := Record([], End(false, []));
      EmptyRecord(src, f, depth);
    } else {
      SizeFits(src, [], ms);
      BreaksAreBlank(f, depth + 1);
      var fields := FieldsOf(src, f, depth, ms, Break(f, depth + 1));
      t := Record(fields, End(false, []));
      ObjectText(f, depth, ms);
      BlanksAreGap(src.flags, Break(f, depth + 1));
      Assoc("{", Break(f, depth + 1), FromMember(f, depth, ms));
      Assoc([StartObject], MemberEvents(src.flags, ms), [EndObject(|ms|)]);
      NoEnd(src.flags);
    }
  }

  /** The fields for members, with the blanks `sep` before the first. */
  lemma {:induction false} FieldsOf(src: Source, f: Format, depth: nat, ms: seq<Member>, sep: string)
      returns (fields: seq<Field>)
    requires ValidFormat(f) && ms != [] && AllBlank(sep) && forall k :: 0 <= k < |ms| ==> Readable(src, ms[k].value)
    ensures |fields| == |ms| && (forall k :: 0 <= k < |fields| ==> IsField(src, fields[k])) &&
            fields[0].before == Blanks(sep)
    ensures FromField(fields, End(false, [])) == FromMember(f, depth, ms)
    ensures FieldsMeaning(src.flags, fields) == MemberEvents(src.flags, ms)
    decreases ms, 1
  {
    hide FromMember, FromField, FieldsMeaning, MemberEvents, Readable, Break, AllBlank, BehindMember;
    var rest := ms[1..];
    var more, after := [], [];
    NoEnd(src.flags);
    NothingMeant(src.flags);
    if rest == [] {
      BreaksAreBlank(f, depth);
      after := Blanks(Break(f, depth));
    } else {
      BreaksAreBlank(f, depth + 1);
      more := FieldsOf(src, f, depth, rest, Break(f, depth + 1));
    }
    BehindIs(src, f, depth, rest, after, more);
    var field := FieldOf(src, f, depth, ms, sep, after);
    fields := [field] + more;
    assert fields[1..] == more;
    FieldsCons(src, f, depth, ms, fields);
    forall k | 0 <= k < |fields| ensures IsField(src, fields[k]) { if k > 0 { assert fields[k] == more[k - 1]; } }
  }

  lemma {:induction false} NothingMeant(flags: Flags)
    ensures FieldsMeaning(flags, []) == MemberEvents(flags, [])
  {
  }

  lemma {:induction false} BehindIs(src: Source, f: Format, depth: nat, ms: seq<Member>, after: seq<Piece>,
      more: seq<Field>)
    requires ValidFormat(f)
    requires if ms == [] then after == Blanks(Break(f, depth)) && more == []
             else after == [] && more != [] && more[0].before == Blanks(Break(f, depth + 1)) &&
                  FromField(more, End(false, [])) == FromMember(f, depth, ms)
    ensures IsGap(src.flags, after) && GapText(after) + BehindField(more, End(false, [])) == BehindMember(f, depth, ms)
  {
    hide FromMember, FromField, Break, BehindMember;
    BehindMemberCons(f, depth, ms);
    NoEnd(src.flags);
    BreaksAreBlank(f, depth);
    BreaksAreBlank(f, depth + 1);
    BlanksAreGap(src.flags, Break(f, depth));
    BlanksAreGap(src.flags, Break(f, depth + 1));
    if ms == [] {
      LastItem(f, depth, End(false, []));
    } else {
      NextField(f, depth, FromMember(f, depth, ms));
    }
  }

  lemma {:induction false} NextField(f: Format, depth: nat, w: string)
    ensures MemberSep(f, depth + 1, false) + w == "" + ("," + (Break(f, depth + 1) + w))
  {
    hide Break;
    Assoc(",", Break(f, depth + 1), w);
  }

  /** The field for the first member. */
  lemma {:induction false} FieldOf(src: Source, f: Format, depth: nat, ms: seq<Member>, sep: string, after: seq<Piece>)
      returns (field: Field)
    requires ValidFormat(f) && ms != [] && Readable(src, ms[0].value) && AllBlank(sep) && IsGap(src.flags, after)
    ensures IsField(src, field) && field.before == Blanks(sep) && field.behind == [] && field.after == after
    ensures GapText(field.front) == AfterColon(f) && QuotedText(field.name) == JsonString.Quote(ms[0].name)
    ensures ValueText(field.value) == Text(f, depth + 1, ms[0].value)
    ensures CharsMeaning(field.name) == ms[0].name
    ensures Meaning(src.flags, field.value) == Events(src.flags, ms[0].value)
    decreases ms, 0
  {
    hide Text, ValueText, Meaning, Events, IsValue, Readable, AfterColon, AllBlank, QuotedText, AreChars, CharsMeaning;
    hide JsonString.Quote;
    var cs := QuotedOf(src.flags, ms[0].name);
    var t := TreeOf(src, f, depth + 1, ms[0].value);
    BreaksAreBlank(f, depth);
    BlanksAreGap(src.flags, sep);
    BlanksAreGap(src.flags, AfterColon(f));
    field := Field(Blanks(sep), cs, [], Blanks(AfterColon(f)), t, after);
  }

  lemma {:induction false} FieldsCons(src: Source, f: Format, depth: nat, ms: seq<Member>, fields: seq<Field>)
    requires ms != [] && fields != []
    requires var k := fields[0];
             k.behind == [] && GapText(k.front) == AfterColon(f) &&
               QuotedText(k.name) == JsonString.Quote(ms[0].name) &&
             ValueText(k.value) == Text(f, depth + 1, ms[0].value) && CharsMeaning(k.name) == ms[0].name &&
             Meaning(src.flags, k.value) == Events(src.flags, ms[0].value) &&
             GapText(k.after) + BehindField(fields[1..], End(false, [])) == BehindMember(f, depth, ms[1..]) &&
             FieldsMeaning(src.flags, fields[1..]) == MemberEvents(src.flags, ms[1..])
    ensures FromField(fields, End(false, [])) == FromMember(f, depth, ms)
    ensures FieldsMeaning(src.flags, fields) == MemberEvents(src.flags, ms)
  {
    hide Text, ValueText, Meaning, Events, AfterColon, QuotedText, CharsMeaning, JsonString.Quote, BehindField,
         BehindMember;
    NoEnd(src.flags);
    Assoc(":", AfterColon(f), FromMemberValue(f, depth, ms));
    Assoc([Key(ms[0].name)], Events(src.flags, ms[0].value), MemberEvents(src.flags, ms[1..]));
  }

  /** The reader on the text of a value, wherever it stands, up to a character that ends it. */
  lemma {:induction false} ValueBack(src: Source, f: Format, depth: nat, v: Json, p: nat, evs: seq<Event>)
    requires Willing(src) && ValidFormat(f) && Readable(src, v)
    requires Stands(src.text, p, Text(f, depth, v)) && JsonParses.Ends(Peek(src.text, p + |Text(f, depth, v)|))
    ensures p <= |src.text| && Value(src, p, evs) == Ok(p + |Text(f, depth, v)|, evs + Events(src.flags, v))
  {
    hide Text, Events, Meaning, ValueText, Stands, Value, Readable, IsValue;
    var t := TreeOf(src, f, depth, v);
    JsonParses.EndsFollows(t, Peek(src.text, p + |ValueText(t)|));
    JsonParses.ValueParses(src, p, evs, t);
  }

  // ---- the theorem --------------------------------------------------------------------------

  /** Both readers, under every flag, read the text of a value back as the events of the value. */
  lemma {:induction false} ReadBack(src: Source, f: Format, v: Json)
    requires Willing(src) && ValidFormat(f) && Readable(src, v) && src.text == Text(f, 0, v)
    ensures Parse(src) == Ok(|src.text|, Events(src.flags, v))
    ensures JsonMachine.IterativeParse(src) == Ok(|src.text|, Events(src.flags, v))
  {
    hide Text, JsonMachine.IterativeParse, Parse, Readable, ValueText, Meaning, Events, IsValue;
    var t := TreeOf(src, f, 0, v);
    var d := Document([], t, [], "");
    NoEnd(src.flags);
    assert DocumentText(d) == src.text;
    WholeStands(src.text);
    assert JsonLanguage.Spells(src, d);
    JsonLanguage.AcceptedIffJson(src);
  }
}
