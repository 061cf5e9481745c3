/** Which value a text is: what the document holds after the parse, told from the grammar. */
module JsonDenotes {
  import opened Common
  import opened JsonStream
  import opened JsonText
  import opened NumberGrammar
  import opened JsonGrammar
  import opened JsonDocument
  import opened JsonLoads
  import Decimal
  import JsonNumber
  import JsonReader
  import JsonLanguage
  import JsonParses

  /** The value that is spelled. */
  function Denoted(flags: Flags, t: Syntax): Json
    decreases t, 1
  {
    match t
    case Name(w) => if w == "null" then JNull else JBool(w == "true")
    case Numeral(n) =>
      if flags.numbersAsStrings then JString(Spelled(n))
      else if NeedsDouble(n) then JDouble(Spelled(n))
      else JNumber(if n.minus == "-" then 0 - Decimal.Value(n.digits) else Decimal.Value(n.digits))
    case Quoted(cs) => JString(CharsMeaning(cs))
    case List(items, _) => JArray(ItemsDenoted(flags, items))
    case Record(fields, _) => JObject(FieldsDenoted(flags, fields))
  }

  function ItemsDenoted(flags: Flags, items: seq<Item>): (es: seq<Json>)
    ensures |es| == |items|
    decreases items, 0
  {
    if items == [] then [] else [Denoted(flags, items[0].value)] + ItemsDenoted(flags, items[1..])
  }

  function FieldsDenoted(flags: Flags, fields: seq<Field>): (ms: seq<Member>)
    ensures |ms| == |fields|
    decreases fields, 0
  {
    if fields == [] then []
    else
      [Member(CharsMeaning(fields[0].name), Denoted(flags, fields[0].value))] + FieldsDenoted(flags, fields[1..])
  }

  /** Everything in brackets is shorter than the whole, and there is no more of it than characters. */
  lemma {:induction false} ItemsFit(items: seq<Item>, end: End)
    ensures items != [] ==>
      |ValueText(items[0].value)| <= |FromItem(items, end)| && |BehindItem(items[1..], end)| <= |FromItem(items, end)|
    ensures |items| <= |BehindItem(items, end)| && (items != [] ==> |items| <= |FromItem(items, end)|)
    decreases |items|
  {
    hide ValueText, GapText, EndText;
    if items != [] { ItemsFit(items[1..], end); }
  }

  lemma {:induction false} FieldsFit(fields: seq<Field>, end: End)
    ensures fields != [] ==>
      |ValueText(fields[0].value)| <= |FromField(fields, end)| &&
      |BehindField(fields[1..], end)| <= |FromField(fields, end)|
    ensures |fields| <= |BehindField(fields, end)| && (fields != [] ==> |fields| <= |FromField(fields, end)|)
    decreases |fields|
  {
    hide ValueText, GapText, EndText, QuotedText;
    if fields != [] { FieldsFit(fields[1..], end); }
  }

  /** What a value means to the handler puts the value on the stack. */
  lemma {:induction false} MeaningBuilds(flags: Flags, t: Syntax, stack: seq<Json>)
    requires |ValueText(t)| < JsonNumber.TWO_32
    ensures Build(stack, Meaning(flags, t)) == Some(stack + [Denoted(flags, t)])
    decreases t, 3
  {
    match t
    case List(items, end) => ListBuilds(flags, items, end, stack);
    case Record(fields, end) => RecordBuilds(flags, fields, end, stack);
    case _ => BuildOne(stack, Meaning(flags, t)[0]);
  }

  lemma {:induction false} ListBuilds(flags: Flags, items: seq<Item>, end: End, stack: seq<Json>)
    requires |ValueText(List(items, end))| < JsonNumber.TWO_32
    ensures Build(stack, Meaning(flags, List(items, end))) == Some(stack + [JArray(ItemsDenoted(flags, items))])
    decreases items, 2
  {
    hide Build, ItemsMeaning, ItemsDenoted, FromItem, BehindItem;
    ItemsFit(items, end);
    var opening, es := stack + [JArray([])], ItemsDenoted(flags, items);
    BuildConcat(stack, [StartArray], ItemsMeaning(flags, items) + [EndArray(|items|)]);
    BuildOne(stack, StartArray);
    BuildConcat(opening, ItemsMeaning(flags, items), [EndArray(|items|)]);
    ItemsBuild(flags, items, end, opening);
    BuildOne(opening + es, EndArray(|items|));
    assert TopOf(opening + es, |es|) == es;
    assert (opening + es)[..|stack|] == stack;
  }

  lemma {:induction false} ItemsBuild(flags: Flags, items: seq<Item>, end: End, stack: seq<Json>)
    requires items != [] ==> |FromItem(items, end)| < JsonNumber.TWO_32
    ensures Build(stack, ItemsMeaning(flags, items)) == Some(stack + ItemsDenoted(flags, items))
    decreases items, 0
  {
    hide Meaning, Denoted, ValueText, GapText, EndText;
    if items == [] {
      BuildNone(stack);
      assert stack + ItemsDenoted(flags, items) == stack;
    } else {
      var t, rest := items[0].value, items[1..];
      ItemsFit(items, end);
      MeaningBuilds(flags, t, stack);
      BuildConcat(stack, Meaning(flags, t), ItemsMeaning(flags, rest));
      ItemsBuild(flags, rest, end, stack + [Denoted(flags, t)]);
      Assoc(stack, [Denoted(flags, t)], ItemsDenoted(flags, rest));
    }
  }

  lemma {:induction false} RecordBuilds(flags: Flags, fields: seq<Field>, end: End, stack: seq<Json>)
    requires |ValueText(Record(fields, end))| < JsonNumber.TWO_32
    ensures Build(stack, Meaning(flags, Record(fields, end))) == Some(stack + [JObject(FieldsDenoted(flags, fields))])
    decreases fields, 2
  {
    hide Build, FieldsMeaning, FieldsDenoted, FromField, BehindField, Pairs, Flat;
    FieldsFit(fields, end);
    var opening, ms := stack + [JObject([])], FieldsDenoted(flags, fields);
    BuildConcat(stack, [StartObject], FieldsMeaning(flags, fields) + [EndObject(|fields|)]);
    BuildOne(stack, StartObject);
    BuildConcat(opening, FieldsMeaning(flags, fields), [EndObject(|fields|)]);
    FieldsBuild(flags, fields, end, opening);
    BuildOne(opening + Flat(ms), EndObject(|fields|));
    PairsOfFlat(ms);
    assert TopOf(opening + Flat(ms), 2 * |ms|) == Flat(ms);
    assert (opening + Flat(ms))[..|stack|] == stack;
  }

  lemma {:induction false} FieldsBuild(flags: Flags, fields: seq<Field>, end: End, stack: seq<Json>)
    requires fields != [] ==> |FromField(fields, end)| < JsonNumber.TWO_32
    ensures Build(stack, FieldsMeaning(flags, fields)) == Some(stack + Flat(FieldsDenoted(flags, fields)))
    decreases fields, 0
  {
    hide Meaning, Denoted, ValueText, GapText, EndText, QuotedText, CharsMeaning, Build, Flat;
    FlatCons(FieldsDenoted(flags, fields), stack);
    if fields == [] {
      BuildNone(stack);
    } else {
      var f, rest := fields[0], fields[1..];
      var key, name := Key(CharsMeaning(f.name)), JString(CharsMeaning(f.name));
      FieldsFit(fields, end);
      BuildConcat(stack, [key], Meaning(flags, f.value) + FieldsMeaning(flags, rest));
      BuildOne(stack, key);
      BuildConcat(stack + [name], Meaning(flags, f.value), FieldsMeaning(flags, rest));
      MeaningBuilds(flags, f.value, stack + [name]);
      FieldsBuild(flags, rest, end, stack + [name] + [Denoted(flags, f.value)]);
      assert FieldsDenoted(flags, fields)[1..] == FieldsDenoted(flags, rest);
    }
  }

  /** The document holds a value exactly if the text spells it. */
  lemma LoadedIffSpelled(src: Source, v: Json)
    requires Short(src) && JsonReader.Willing(src)
    ensures Loaded(src) == Some(v) <==> exists d :: JsonLanguage.Spells(src, d) && Denoted(src.flags, d.root) == v
  {
    hide JsonReader.Parse, JsonLanguage.Spells, Meaning, Denoted, DocumentText, Build;
    JsonLanguage.AcceptedIffJson(src);
    forall d | JsonLanguage.Spells(src, d) ensures Loaded(src) == Some(Denoted(src.flags, d.root)) {
      RootFits(src, d);
      MeaningBuilds(src.flags, d.root, []);
      assert [] + [Denoted(src.flags, d.root)] == [Denoted(src.flags, d.root)];
    }
  }

  lemma RootFits(src: Source, d: JsonGrammar.Document)
    requires Short(src) && JsonLanguage.Spells(src, d)
    ensures |ValueText(d.root)| < JsonNumber.TWO_32
  {
    hide ValueText, GapText, IsValue, IsGap, IsOpen, JsonParses.Follows;
  }
}
