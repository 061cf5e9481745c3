/** Every text of the grammar is parsed, as what it means. */
module JsonParses {
  import opened Common
  import opened JsonStream
  import opened NumberGrammar
  import opened JsonGrammar
  import opened JsonTokens
  import opened JsonReader
  import JsonNumber
  import JsonString
  import NumberLanguage

  /** A character that may follow a value. */
  predicate Ends(c: char) {
    c == ',' || c == ']' || c == '}' || c == '/' || c == '\0' || IsBlank(c)
  }

  /** A value starts with none of these, and with no colon. */
  lemma FirstOfValue(src: Source, t: Syntax)
    requires IsValue(src, t)
    ensures ValueText(t) != "" && !Ends(ValueText(t)[0]) && ValueText(t)[0] != ':'
  {
    hide FromItem, FromField, GapText, CharsText;
    if t.Numeral? { FirstOfNumber(t.parts); }
  }

  lemma FirstOfNumber(n: Parts)
    requires IsNumber(n)
    ensures Spelled(n) != "" && (Spelled(n)[0] == '-' || '0' <= Spelled(n)[0] <= '9')
  {
    hide IsFrac, IsExp;
    assert Spelled(n)[0] == (n.minus + n.digits)[0];
  }

  // ---- leaves -----------------------------------------------------------------------------------

  lemma {:induction false} WordStands(s: string, p: nat, word: string, matched: nat)
    requires Stands(s, p, word) && matched <= |word| && '\0' !in word
    ensures Word(s, p, word, matched) == At(p + |word|)
    decreases |word| - matched
  {
    if matched < |word| { WordStands(s, p, word, matched + 1); }
  }

  lemma NameParses(src: Source, p: nat, evs: seq<Event>, w: string)
    requires Willing(src) && w in {"null", "true", "false"} && Stands(src.text, p, w)
    ensures Value(src, p, evs) == Ok(p + |w|, evs + Meaning(src.flags, Name(w)))
  {
    hide Stands, Word;
    FirstStands(src.text, p, w);
    StandsAsSlice(src.text, p, w);
    WordStands(src.text, p, w, 0);
  }

  lemma QuotedParses(src: Source, p: nat, evs: seq<Event>, cs: seq<Char>, isKey: bool)
    requires Willing(src) && AreChars(src.flags, cs) && Stands(src.text, p, QuotedText(cs))
    ensures p < |src.text| && src.text[p] == '\"'
    ensures StringEvent(src, p, evs, isKey) ==
            Ok(p + |QuotedText(cs)|, evs + [if isKey then Key(CharsMeaning(cs)) else String(CharsMeaning(cs))])
  {
    hide Stands, CharsText, CharsMeaning, JsonString.Scan, AreChars;
    StandsConcat(src.text, p, "\"", CharsText(cs) + "\"");
    FirstStands(src.text, p, "\"");
    CharsScan(src.text, src.flags, p + 1, "", cs);
    assert "" + CharsMeaning(cs) == CharsMeaning(cs);
  }

  lemma NumeralParses(src: Source, p: nat, evs: seq<Event>, n: Parts)
    requires Willing(src) && IsNumeral(src, n) && Stands(src.text, p, Spelled(n))
    requires NumberLanguage.Stops(n, Peek(src.text, p + |Spelled(n)|))
    ensures Value(src, p, evs) == Ok(p + |Spelled(n)|, evs + [NumeralMeaning(src.flags, n)])
  {
    hide Stands, JsonNumber.NumberAt, NumberLanguage.Stops, Spelled, NeedsDouble, TooLarge, IsNumber;
    FirstOfNumber(n);
    FirstStands(src.text, p, Spelled(n));
    NumberIsRead(src, p, n);
  }

  lemma NumberIsRead(src: Source, p: nat, n: Parts)
    requires IsNumeral(src, n) && Stands(src.text, p, Spelled(n))
    requires NumberLanguage.Stops(n, Peek(src.text, p + |Spelled(n)|))
    ensures p <= |src.text|
    ensures JsonNumber.NumberAt(src, p) == JsonNumber.Number(NumeralMeaning(src.flags, n), p + |Spelled(n)|)
  {
    hide Stands, JsonNumber.LiteralAt, NumberLanguage.Stops, Spelled, NeedsDouble, TooLarge, IsNumber;
    StandsAsSlice(src.text, p, Spelled(n));
    FirstOfNumber(n);
    NumberLanguage.NumberIs(src.text, p, n);
    NumeralReported(src, p, n);
  }

  /** Before a character that ends it. */
  lemma NumeralReads(src: Source, p: nat, n: Parts)
    requires IsNumeral(src, n) && Stands(src.text, p, Spelled(n)) && Ends(Peek(src.text, p + |Spelled(n)|))
    ensures p <= |src.text|
    ensures JsonNumber.NumberAt(src, p) == JsonNumber.Number(NumeralMeaning(src.flags, n), p + |Spelled(n)|)
  {
    hide Stands, JsonNumber.NumberAt, Spelled, NeedsDouble, TooLarge, IsNumber;
    NumberIsRead(src, p, n);
  }

  lemma NumeralReported(src: Source, p: nat, n: Parts)
    requires IsNumeral(src, n) && p + |Spelled(n)| <= |src.text| && src.text[p..p + |Spelled(n)|] == Spelled(n)
    requires Spelled(n) != "" && NumberLanguage.Denotes(p, n, JsonNumber.LiteralAt(src.text, p))
    ensures JsonNumber.NumberAt(src, p) == JsonNumber.Number(NumeralMeaning(src.flags, n), p + |Spelled(n)|)
  {
    hide JsonNumber.LiteralAt, Spelled, TooLarge;
  }

  // ---- what follows -----------------------------------------------------------------------------

  /** A number is not followed by what would go on with it. */
  predicate Follows(t: Syntax, c: char) {
    t.Numeral? ==> NumberLanguage.Stops(t.parts, c)
  }

  lemma EndsFollows(t: Syntax, c: char)
    requires Ends(c)
    ensures Follows(t, c)
  {
  }

  lemma FirstOfGap(flags: Flags, g: seq<Piece>, rest: string)
    requires IsGap(flags, g) && rest != ""
    ensures var w := GapText(g) + rest;
            w != "" && (w[0] == rest[0] || IsBlank(w[0]) || w[0] == '/')
  {
    if g != [] { assert GapText(g) != "" && GapText(g)[0] == PieceText(g[0])[0]; }
  }

  /** White space up to a text that does not start with any. */
  lemma GapThen(src: Source, p: nat, g: seq<Piece>, rest: string)
    requires IsGap(src.flags, g) && Stands(src.text, p, GapText(g) + rest)
    requires rest != "" && !IsBlank(rest[0]) && rest[0] != '/'
    ensures var q := p + |GapText(g)|;
            q < |src.text| && SkipFrom(src, p) == At(q) && Stands(src.text, q, rest) && src.text[q] == rest[0]
  {
    hide Stands, Skip;
    StandsConcat(src.text, p, GapText(g), rest);
    FirstStands(src.text, p + |GapText(g)|, rest);
    SkipGap(src.text, src.flags, p, g);
  }

  lemma OneThenGap(src: Source, p: nat, c: string, g: seq<Piece>, rest: string)
    requires |c| == 1 && IsGap(src.flags, g) && Stands(src.text, p, c + (GapText(g) + rest))
    requires rest != "" && !IsBlank(rest[0]) && rest[0] != '/'
    ensures var q := p + 1 + |GapText(g)|;
            q < |src.text| && src.text[p] == c[0] && SkipFrom(src, p + 1) == At(q) &&
            Stands(src.text, q, rest) && src.text[q] == rest[0]
  {
    hide Stands, SkipFrom;
    StandsConcat(src.text, p, c, GapText(g) + rest);
    FirstStands(src.text, p, c);
    GapThen(src, p + 1, g, rest);
  }

  // ---- arrays -----------------------------------------------------------------------------------

  lemma CountIs(n: nat, k: nat)
    ensures Count(n) < 0x1_0000_0000 && (Count(n) + k) % 0x1_0000_0000 == (n + 1 + k) % 0x1_0000_0000
  {
  }

  predicate AreItems(src: Source, items: seq<Item>) {
    forall k :: 0 <= k < |items| ==> IsItem(src, items[k])
  }

  lemma FirstOfItem(src: Source, items: seq<Item>, end: End)
    requires items != [] && IsItem(src, items[0])
    ensures FromItem(items, end) != "" && !Ends(FromItem(items, end)[0])
  {
    hide ValueText, GapText, BehindItem, IsValue;
    FirstOfValue(src, items[0].value);
  }

  /** The value at `p`. */
  lemma {:induction false} ValueParses(src: Source, p: nat, evs: seq<Event>, t: Syntax)
    requires Willing(src) && IsValue(src, t) && Stands(src.text, p, ValueText(t))
    requires Follows(t, Peek(src.text, p + |ValueText(t)|))
    ensures p <= |src.text| && Value(src, p, evs) == Ok(p + |ValueText(t)|, evs + Meaning(src.flags, t))
    decreases t, 3
  {
    hide FromItem, FromField, GapText, Stands, Spelled;
    StandsAsSlice(src.text, p, ValueText(t));
    match t
    case Name(w) => NameParses(src, p, evs, w);
    case Numeral(n) => NumeralParses(src, p, evs, n);
    case Quoted(cs) => QuotedParses(src, p, evs, cs, false);
    case List(items, end) => ListParses(src, p, evs, items, end);
    case Record(fields, end) => RecordParses(src, p, evs, fields, end);
  }

  /** An empty one. */
  lemma ListIsEmpty(src: Source, p: nat, evs: seq<Event>, gap: seq<Piece>)
    requires Willing(src) && IsGap(src.flags, gap) && Stands(src.text, p, "[" + (GapText(gap) + "]"))
    ensures p <= |src.text| &&
            Value(src, p, evs) == Ok(p + |"[" + (GapText(gap) + "]")|, evs + [StartArray] + [EndArray(0)])
  {
    hide GapText, Stands, SkipFrom, Elements;
    OneThenGap(src, p, "[", gap, "]");
  }

  /** The opening bracket of another one. */
  lemma ListOpens(src: Source, p: nat, evs: seq<Event>, gap: seq<Piece>, rest: string)
    requires Willing(src) && IsGap(src.flags, gap) && Stands(src.text, p, "[" + (GapText(gap) + rest))
    requires rest != "" && !Ends(rest[0])
    ensures var q := p + 1 + |GapText(gap)|;
            p <= q <= |src.text| && Stands(src.text, q, rest) &&
            Value(src, p, evs) == Elements(src, q, 0, evs + [StartArray])
  {
    hide GapText, Stands, SkipFrom, Elements;
    OneThenGap(src, p, "[", gap, rest);
  }

  lemma FirstItemIs(src: Source, items: seq<Item>)
    requires items != [] && AreItems(src, items)
    ensures IsGap(src.flags, items[0].before) && IsValue(src, items[0].value)
  {
    hide IsGap, IsValue;
    assert IsItem(src, items[0]);
  }

  lemma {:induction false} ListParses(src: Source, p: nat, evs: seq<Event>, items: seq<Item>, end: End)
    requires Willing(src) && IsEnd(src.flags, items == [], end) && AreItems(src, items)
    requires Stands(src.text, p, ValueText(List(items, end)))
    ensures p <= |src.text| &&
            Value(src, p, evs) == Ok(p + |ValueText(List(items, end))|, evs + Meaning(src.flags, List(items, end)))
    decreases items, 1
  {
    hide FromItem, GapText, Stands, Value, Elements, ItemsMeaning, EndText, IsItem, IsGap;
    if items == [] {
      EndTextIs(end, "]");
      ListIsEmpty(src, p, evs, end.gap);
      NoItems(src.flags, evs);
    } else {
      FirstItemIs(src, items);
      FirstOfItem(src, items, end);
      ListOpens(src, p, evs, items[0].before, FromItem(items, end));
      ItemsParse(src, p + 1 + |GapText(items[0].before)|, 0, evs + [StartArray], items, end);
      var last := [EndArray(|items| % 0x1_0000_0000)];
      Assoc(evs, [StartArray], ItemsMeaning(src.flags, items) + last);
      Assoc(evs + [StartArray], ItemsMeaning(src.flags, items), last);
    }
  }

  lemma NoItems(flags: Flags, evs: seq<Event>)
    ensures evs + [StartArray] + [EndArray(0)] == evs + ([StartArray] + (ItemsMeaning(flags, []) + [EndArray(0)]))
  {
  }

  /** The items from the first one on. */
  lemma {:induction false} ItemsParse(src: Source, p: nat, n: nat, evs: seq<Event>, items: seq<Item>, end: End)
    requires Willing(src) && items != [] && AreItems(src, items) && IsEnd(src.flags, false, end)
    requires Stands(src.text, p, FromItem(items, end))
    ensures p <= |src.text| &&
            Elements(src, p, n, evs) ==
            Ok(p + |FromItem(items, end)|,
               evs + ItemsMeaning(src.flags, items) + [EndArray((n + |items|) % 0x1_0000_0000)])
    decreases items, 0
  {
    hide ValueText, BehindItem, GapText, Stands, Value, AfterElement, Meaning, IsValue, IsEnd;
    var t, after, rest := items[0].value, items[0].after, items[1..];
    assert IsItem(src, items[0]);
    var w := GapText(after) + BehindItem(rest, end);
    StandsAsSlice(src.text, p, FromItem(items, end));
    StandsConcat(src.text, p, ValueText(t), w);
    FirstBehind(src.flags, after, rest, end);
    FirstStands(src.text, p + |ValueText(t)|, w);
    EndsFollows(t, w[0]);
    ValueParses(src, p, evs, t);
    CountIs(n, |rest|);
    BehindParses(src, p + |ValueText(t)|, Count(n), evs + Meaning(src.flags, t), after, rest, end);
    Assoc(evs, Meaning(src.flags, t), ItemsMeaning(src.flags, rest));
  }

  lemma NoGap()
    ensures GapText([]) == ""
  {
  }

  lemma EndTextIs(end: End, c: string)
    ensures EndText(end) + c == if end.comma then "," + (GapText(end.gap) + c) else GapText(end.gap) + c
    ensures end.gap == [] && !end.comma ==> EndText(end) + c == c
  {
  }

  lemma NothingMeant(flags: Flags, evs: seq<Event>)
    ensures evs + ItemsMeaning(flags, []) == evs && evs + FieldsMeaning(flags, []) == evs
  {
  }

  lemma FirstBehind(flags: Flags, after: seq<Piece>, items: seq<Item>, end: End)
    requires IsGap(flags, after) && IsEnd(flags, false, end)
    ensures var w := GapText(after) + BehindItem(items, end); w != "" && Ends(w[0])
  {
    hide GapText, FromItem;
    NoGap();
    FirstOfGap(flags, after, BehindItem(items, end));
  }

  lemma ListEnds(src: Source, q: nat, n: nat, evs: seq<Event>, after: seq<Piece>, end: End)
    requires Willing(src) && IsGap(src.flags, after) && IsEnd(src.flags, false, end)
    requires Stands(src.text, q, GapText(after) + (EndText(end) + "]"))
    ensures q <= |src.text| &&
            AfterElement(src, q, n, evs) == Ok(q + |GapText(after) + (EndText(end) + "]")|, evs + [EndArray(n)])
  {
    hide GapText, Stands, SkipFrom, Elements, EndText;
    EndTextIs(end, "]");
    if end.comma {
      GapThen(src, q, after, "," + (GapText(end.gap) + "]"));
      OneThenGap(src, q + |GapText(after)|, ",", end.gap, "]");
    } else {
      GapThen(src, q, after, "]");
    }
  }

  /** Behind an item: white space, and the other items or the end. */
  lemma {:induction false} BehindParses(src: Source, q: nat, n: nat, evs: seq<Event>, after: seq<Piece>,
      items: seq<Item>, end: End)
    requires Willing(src) && IsGap(src.flags, after) && AreItems(src, items) && IsEnd(src.flags, false, end)
    requires n < 0x1_0000_0000 && Stands(src.text, q, GapText(after) + BehindItem(items, end))
    ensures q <= |src.text| &&
            AfterElement(src, q, n, evs) ==
            Ok(q + |GapText(after) + BehindItem(items, end)|,
               evs + ItemsMeaning(src.flags, items) + [EndArray((n + |items|) % 0x1_0000_0000)])
    decreases items, 1
  {
    hide FromItem, GapText, Stands, SkipFrom, Elements, ItemsMeaning, EndText, IsItem, IsGap;
    if items == [] {
      NothingMeant(src.flags, evs);
      ListEnds(src, q, n, evs, after, end);
    } else {
      var w := "," + (GapText(items[0].before) + FromItem(items, end));
      FirstItemIs(src, items);
      FirstOfItem(src, items, end);
      GapThen(src, q, after, w);
      OneThenGap(src, q + |GapText(after)|, ",", items[0].before, FromItem(items, end));
      ItemsParse(src, q + |GapText(after)| + 1 + |GapText(items[0].before)|, n, evs, items, end);
    }
  }

  // ---- objects ----------------------------------------------------------------------------------

  predicate AreFields(src: Source, fields: seq<Field>) {
    forall k :: 0 <= k < |fields| ==> IsField(src, fields[k])
  }

  /** What follows a name. */
  function BehindName(f: Field, fields: seq<Field>, end: End): string {
    GapText(f.behind) + (":" + (GapText(f.front) + FromFieldValue(f, fields, end)))
  }

  function FromFieldValue(f: Field, fields: seq<Field>, end: End): string {
    ValueText(f.value) + (GapText(f.after) + BehindField(fields, end))
  }

  lemma FieldText(fields: seq<Field>, end: End)
    requires fields != []
    ensures FromField(fields, end) == QuotedText(fields[0].name) + BehindName(fields[0], fields[1..], end)
    ensures FromField(fields, end) != "" && FromField(fields, end)[0] == '\"'
  {
    hide CharsText, GapText, ValueText, BehindField;
  }

  /** An empty one. */
  lemma RecordIsEmpty(src: Source, p: nat, evs: seq<Event>, gap: seq<Piece>)
    requires Willing(src) && IsGap(src.flags, gap) && Stands(src.text, p, "{" + (GapText(gap) + "}"))
    ensures p <= |src.text| &&
            Value(src, p, evs) == Ok(p + |"{" + (GapText(gap) + "}")|, evs + [StartObject] + [EndObject(0)])
  {
    hide GapText, Stands, SkipFrom, Members;
    OneThenGap(src, p, "{", gap, "}");
  }

  /** The opening bracket of another one. */
  lemma RecordOpens(src: Source, p: nat, evs: seq<Event>, gap: seq<Piece>, rest: string)
    requires Willing(src) && IsGap(src.flags, gap) && Stands(src.text, p, "{" + (GapText(gap) + rest))
    requires rest != "" && rest[0] == '\"'
    ensures var q := p + 1 + |GapText(gap)|;
            p <= q <= |src.text| && Stands(src.text, q, rest) &&
            Value(src, p, evs) == Members(src, q, 0, evs + [StartObject])
  {
    hide GapText, Stands, SkipFrom, Members;
    OneThenGap(src, p, "{", gap, rest);
  }

  lemma FirstFieldIs(src: Source, fields: seq<Field>)
    requires fields != [] && AreFields(src, fields)
    ensures IsGap(src.flags, fields[0].before)
  {
    hide IsGap, IsValue, AreChars;
    assert IsField(src, fields[0]);
  }

  lemma {:induction false} RecordParses(src: Source, p: nat, evs: seq<Event>, fields: seq<Field>, end: End)
    requires Willing(src) && IsEnd(src.flags, fields == [], end) && AreFields(src, fields)
    requires Stands(src.text, p, ValueText(Record(fields, end)))
    ensures p <= |src.text| &&
            Value(src, p, evs) == Ok(p + |ValueText(Record(fields, end))|,
              evs + Meaning(src.flags, Record(fields, end)))
    decreases fields, 2
  {
    hide FromField, GapText, Stands, Value, Members, FieldsMeaning, EndText, IsField, IsGap;
    if fields == [] {
      EndTextIs(end, "}");
      RecordIsEmpty(src, p, evs, end.gap);
      NoFields(src.flags, evs);
    } else {
      FirstFieldIs(src, fields);
      FieldText(fields, end);
      RecordOpens(src, p, evs, fields[0].before, FromField(fields, end));
      FieldsParse(src, p + 1 + |GapText(fields[0].before)|, 0, evs + [StartObject], fields, end);
      var last := [EndObject(|fields| % 0x1_0000_0000)];
      Assoc(evs, [StartObject], FieldsMeaning(src.flags, fields) + last);
      Assoc(evs + [StartObject], FieldsMeaning(src.flags, fields), last);
    }
  }

  lemma NoFields(flags: Flags, evs: seq<Event>)
    ensures evs + [StartObject] + [EndObject(0)] == evs + ([StartObject] + (FieldsMeaning(flags, []) + [EndObject(0)]))
  {
  }

  /** A name, its colon and the white space around it. */
  lemma NameThenColon(src: Source, p: nat, n: nat, evs: seq<Event>, f: Field, fields: seq<Field>, end: End)
    requires Willing(src) && IsField(src, f) && Stands(src.text, p, QuotedText(f.name) + BehindName(f, fields, end))
    ensures var key := [Key(CharsMeaning(f.name))];
            var v := p + |QuotedText(f.name)| + |GapText(f.behind)| + 1 + |GapText(f.front)|;
            p <= |src.text| && v <= |src.text| && Stands(src.text, v, FromFieldValue(f, fields, end)) &&
            Members(src, p, n, evs) == ValueOfMember(src, v, n, evs + key)
  {
    hide QuotedText, GapText, FromFieldValue, Stands, SkipFrom, ValueOfMember, StringEvent, CharsMeaning;
    var q := p + |QuotedText(f.name)|;
    var w := GapText(f.front) + FromFieldValue(f, fields, end);
    StandsConcat(src.text, p, QuotedText(f.name), BehindName(f, fields, end));
    QuotedParses(src, p, evs, f.name, true);
    GapThen(src, q, f.behind, ":" + w);
    FirstOfFieldValue(src, f, fields, end);
    OneThenGap(src, q + |GapText(f.behind)|, ":", f.front, FromFieldValue(f, fields, end));
  }

  lemma FirstOfFieldValue(src: Source, f: Field, fields: seq<Field>, end: End)
    requires IsField(src, f)
    ensures FromFieldValue(f, fields, end) != "" && !Ends(FromFieldValue(f, fields, end)[0])
  {
    hide ValueText, GapText, BehindField, IsValue;
    FirstOfValue(src, f.value);
  }

  /** The fields from the first one on. */
  lemma {:induction false} FieldsParse(src: Source, p: nat, n: nat, evs: seq<Event>, fields: seq<Field>, end: End)
    requires Willing(src) && fields != [] && AreFields(src, fields) && IsEnd(src.flags, false, end)
    requires Stands(src.text, p, FromField(fields, end))
    ensures p <= |src.text| &&
            Members(src, p, n, evs) ==
            Ok(p + |FromField(fields, end)|,
               evs + FieldsMeaning(src.flags, fields) + [EndObject((n + |fields|) % 0x1_0000_0000)])
    decreases fields, 1
  {
    hide QuotedText, ValueText, GapText, BehindField, Stands, Value, Meaning, Members, IsValue, IsEnd, CharsMeaning;
    var f, rest := fields[0], fields[1..];
    assert IsField(src, f);
    FieldText(fields, end);
    NameThenColon(src, p, n, evs, f, rest, end);
    var v := p + |QuotedText(f.name)| + |GapText(f.behind)| + 1 + |GapText(f.front)|;
    FieldValueParses(src, v, n, evs + [Key(CharsMeaning(f.name))], fields, end);
    MeaningOfFields(src.flags, fields, evs);
  }

  lemma MeaningOfFields(flags: Flags, fields: seq<Field>, evs: seq<Event>)
    requires fields != []
    ensures evs + [Key(CharsMeaning(fields[0].name))] + Meaning(flags, fields[0].value) +
            FieldsMeaning(flags, fields[1..]) ==
            evs + FieldsMeaning(flags, fields)
  {
    hide Meaning, CharsMeaning;
  }

  /** The first field's value and what follows it. */
  lemma {:induction false} FieldValueParses(src: Source, v: nat, n: nat, evs: seq<Event>, fields: seq<Field>, end: End)
    requires Willing(src) && fields != [] && AreFields(src, fields) && IsEnd(src.flags, false, end)
    requires Stands(src.text, v, FromFieldValue(fields[0], fields[1..], end))
    ensures v <= |src.text| &&
            ValueOfMember(src, v, n, evs) ==
            Ok(v + |FromFieldValue(fields[0], fields[1..], end)|,
               evs + Meaning(src.flags, fields[0].value) + FieldsMeaning(src.flags, fields[1..]) +
               [EndObject((n + |fields|) % 0x1_0000_0000)])
    decreases fields, 0
  {
    hide ValueText, BehindField, GapText, Stands, Value, AfterMember, Meaning, IsValue, IsEnd, FieldsMeaning;
    var t, after, rest := fields[0].value, fields[0].after, fields[1..];
    assert IsField(src, fields[0]);
    var w := GapText(after) + BehindField(rest, end);
    StandsAsSlice(src.text, v, FromFieldValue(fields[0], rest, end));
    StandsConcat(src.text, v, ValueText(t), w);
    FirstBehindField(src.flags, after, rest, end);
    FirstStands(src.text, v + |ValueText(t)|, w);
    EndsFollows(t, w[0]);
    ValueParses(src, v, evs, t);
    CountIs(n, |rest|);
    BehindFieldParses(src, v + |ValueText(t)|, Count(n), evs + Meaning(src.flags, t), after, rest, end);
  }

  lemma FirstBehindField(flags: Flags, after: seq<Piece>, fields: seq<Field>, end: End)
    requires IsGap(flags, after) && IsEnd(flags, false, end)
    ensures var w := GapText(after) + BehindField(fields, end); w != "" && Ends(w[0])
  {
    hide GapText, FromField;
    NoGap();
    FirstOfGap(flags, after, BehindField(fields, end));
  }

  lemma RecordEnds(src: Source, q: nat, n: nat, evs: seq<Event>, after: seq<Piece>, end: End)
    requires Willing(src) && IsGap(src.flags, after) && IsEnd(src.flags, false, end)
    requires Stands(src.text, q, GapText(after) + (EndText(end) + "}"))
    ensures q <= |src.text| &&
            AfterMember(src, q, n, evs) == Ok(q + |GapText(after) + (EndText(end) + "}")|, evs + [EndObject(n)])
  {
    hide GapText, Stands, SkipFrom, Members, EndText;
    EndTextIs(end, "}");
    if end.comma {
      GapThen(src, q, after, "," + (GapText(end.gap) + "}"));
      OneThenGap(src, q + |GapText(after)|, ",", end.gap, "}");
    } else {
      GapThen(src, q, after, "}");
    }
  }

  /** Behind a field: white space, and the other fields or the end. */
  lemma {:induction false} BehindFieldParses(src: Source, q: nat, n: nat, evs: seq<Event>, after: seq<Piece>,
      fields: seq<Field>, end: End)
    requires Willing(src) && IsGap(src.flags, after) && AreFields(src, fields) && IsEnd(src.flags, false, end)
    requires n < 0x1_0000_0000 && Stands(src.text, q, GapText(after) + BehindField(fields, end))
    ensures q <= |src.text| &&
            AfterMember(src, q, n, evs) ==
            Ok(q + |GapText(after) + BehindField(fields, end)|,
               evs + FieldsMeaning(src.flags, fields) + [EndObject((n + |fields|) % 0x1_0000_0000)])
    decreases fields, 2
  {
    hide FromField, GapText, Stands, SkipFrom, Members, FieldsMeaning, EndText, IsField, IsGap;
    if fields == [] {
      NothingMeant(src.flags, evs);
      RecordEnds(src, q, n, evs, after, end);
    } else {
      var w := "," + (GapText(fields[0].before) + FromField(fields, end));
      FirstFieldIs(src, fields);
      FieldText(fields, end);
      GapThen(src, q, after, w);
      OneThenGap(src, q + |GapText(after)|, ",", fields[0].before, FromField(fields, end));
      FieldsParse(src, q + |GapText(after)| + 1 + |GapText(fields[0].before)|, n, evs, fields, end);
    }
  }
}
