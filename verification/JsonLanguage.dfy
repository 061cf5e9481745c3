/** Whatever the reader accepts is a text of the grammar, and what the grammar has is what it accepts. */
module JsonLanguage {
  import opened Common
  import opened JsonStream
  import opened NumberGrammar
  import opened JsonGrammar
  import opened JsonTokens
  import opened JsonReader
  import opened JsonParses
  import JsonNumber
  import JsonString
  import NumberLanguage
  import JsonMachine
  import JsonReports

  // ---- leaves -----------------------------------------------------------------------------------

  lemma {:induction false} WordFrom(s: string, p: nat, word: string, matched: nat)
    requires p + matched <= |s| && matched <= |word| && '\0' !in word && Word(s, p, word, matched).At?
    requires Stands(s, p, word[..matched])
    ensures Stands(s, p, word)
    decreases |word| - matched
  {
    if matched < |word| {
      assert word[..matched + 1] == word[..matched] + [word[matched]];
      SliceStands(s, p + matched, p + matched + 1);
      assert s[p + matched..p + matched + 1] == [word[matched]];
      StandsJoin(s, p, word[..matched], [word[matched]]);
      WordFrom(s, p, word, matched + 1);
    } else {
      assert word[..matched] == word;
    }
  }

  lemma NameFrom(src: Source, p: nat, evs: seq<Event>, w: string, e: Event)
    requires p <= |src.text| && w in {"null", "true", "false"} && WordEvent(src, p, evs, w, e).Ok?
    ensures Stands(src.text, p, w) && WordEvent(src, p, evs, w, e).pos == p + |w|
  {
    NothingStands(src.text, p);
    assert w[..0] == "";
    WordFrom(src.text, p, w, 0);
  }

  lemma QuotedFrom(src: Source, p: nat, evs: seq<Event>, isKey: bool) returns (cs: seq<Char>)
    requires p < |src.text| && src.text[p] == '\"' && StringEvent(src, p, evs, isKey).Ok?
    ensures AreChars(src.flags, cs) && Stands(src.text, p, QuotedText(cs))
    ensures StringEvent(src, p, evs, isKey).pos == p + |QuotedText(cs)|
  {
    hide Stands, JsonString.Scan, CharsText, AreChars;
    cs := CharsFrom(src.text, src.flags, p + 1, "");
    CharsScan(src.text, src.flags, p + 1, "", cs);
    SliceStands(src.text, p, p + 1);
    assert src.text[p..p + 1] == "\"";
    StandsJoin(src.text, p, "\"", CharsText(cs) + "\"");
  }

  lemma NumeralFrom(src: Source, p: nat, evs: seq<Event>) returns (n: Parts)
    requires p <= |src.text| && NumberEvent(src, p, evs).Ok?
    ensures IsNumeral(src, n) && Stands(src.text, p, Spelled(n)) && NumberEvent(src, p, evs).pos == p + |Spelled(n)|
    ensures NumberLanguage.Stops(n, Peek(src.text, p + |Spelled(n)|))
  {
    hide JsonNumber.LiteralAt, Stands, NumberLanguage.Stops, Spelled, NeedsDouble, TooLarge, IsNumber;
    n := NumberLanguage.NumberThere(src.text, p);
    StandsAsSlice(src.text, p, Spelled(n));
  }

  lemma LeafFrom(src: Source, p: nat, evs: seq<Event>) returns (t: Syntax)
    requires p <= |src.text| && Leaf(src, p, evs).Ok?
    ensures IsValue(src, t) && !t.List? && !t.Record? && Stands(src.text, p, ValueText(t))
    ensures Leaf(src, p, evs).pos == p + |ValueText(t)| && Follows(t, Peek(src.text, p + |ValueText(t)|))
  {
    hide WordEvent, StringEvent, NumberEvent, Stands, QuotedText, Spelled, IsNumeral, AreChars, NumberLanguage.Stops;
    match Peek(src.text, p) {
      case 'n' =>
        NameFrom(src, p, evs, "null", Null);
        t := Name("null");
      case 't' =>
        NameFrom(src, p, evs, "true", Bool(true));
        t := Name("true");
      case 'f' =>
        NameFrom(src, p, evs, "false", Bool(false));
        t := Name("false");
      case '\"' =>
        var cs := QuotedFrom(src, p, evs, false);
        t := Quoted(cs);
      case _ =>
        var n := NumeralFrom(src, p, evs);
        t := Numeral(n);
    }
  }

  // ---- white space ------------------------------------------------------------------------------

  /** What was skipped before a character that is there. */
  lemma GapFrom(src: Source, p: nat) returns (g: seq<Piece>)
    requires p <= |src.text| && SkipFrom(src, p).At? && Peek(src.text, SkipFrom(src, p).pos) != '\0'
    ensures IsGap(src.flags, g) && Stands(src.text, p, GapText(g)) && SkipFrom(src, p).pos == p + |GapText(g)|
  {
    hide Stands, Skip, GapText;
    var open;
    g, open := SkippedIsGap(src.text, src.flags, p);
    assert GapText(g) + "" == GapText(g);
  }

  lemma CharHere(s: string, p: nat, c: char)
    requires Peek(s, p) == c && c != '\0'
    ensures p < |s| && Stands(s, p, [c])
  {
  }

  /** Three texts one behind the other. */
  lemma Join3(s: string, p: nat, a: string, b: string, c: string)
    requires Stands(s, p, a) && Stands(s, p + |a|, b) && Stands(s, p + |a| + |b|, c)
    ensures Stands(s, p, a + (b + c))
  {
    hide Stands;
    StandsJoin(s, p + |a|, b, c);
    StandsJoin(s, p, a, b + c);
  }

  // ---- arrays -----------------------------------------------------------------------------------

  function ItemsAfter(g: seq<Piece>, items: seq<Item>): seq<Item>
    requires items != []
  {
    [items[0].(before := g)] + items[1..]
  }

  lemma ItemsAfterAre(src: Source, g: seq<Piece>, items: seq<Item>, end: End)
    requires items != [] && AreItems(src, items) && IsGap(src.flags, g)
    ensures var all := ItemsAfter(g, items);
            |all| == |items| && AreItems(src, all) && all[0].before == g && FromItem(all, end) == FromItem(items, end)
  {
    hide BehindItem, ValueText, GapText, IsValue, IsGap;
    var all := ItemsAfter(g, items);
    assert all[1..] == items[1..];
    forall k | 0 <= k < |all| ensures IsItem(src, all[k]) { assert IsItem(src, items[k]); }
  }

  /** The value that was read at `p`. */
  lemma {:induction false} ValueFrom(src: Source, p: nat, evs: seq<Event>) returns (t: Syntax)
    requires p <= |src.text| && Value(src, p, evs).Ok?
    ensures IsValue(src, t) && Stands(src.text, p, ValueText(t))
    ensures Value(src, p, evs).pos == p + |ValueText(t)| && Follows(t, Peek(src.text, p + |ValueText(t)|))
    decreases |src.text| - p, 2
  {
    hide Object, Array, Leaf, Stands, ValueText, IsValue;
    if Peek(src.text, p) == '{' { t := RecordFrom(src, p, evs); }
    else if Peek(src.text, p) == '[' { t := ListFrom(src, p, evs); }
    else { t := LeafFrom(src, p, evs); }
  }

  lemma {:induction false} ListFrom(src: Source, p: nat, evs: seq<Event>) returns (t: Syntax)
    requires p < |src.text| && src.text[p] == '[' && Array(src, p, evs).Ok?
    ensures t.List? && IsValue(src, t) && Stands(src.text, p, ValueText(t)) &&
            Array(src, p, evs).pos == p + |ValueText(t)|
    decreases |src.text| - p, 1
  {
    hide Stands, SkipFrom, Elements, FromItem, GapText, IsItem, IsGap, ItemsAfter;
    var q, start := SkipFrom(src, p + 1).pos, evs + [StartArray];
    CharHere(src.text, p, '[');
    if Peek(src.text, q) == ']' {
      var g := GapFrom(src, p + 1);
      CharHere(src.text, q, ']');
      Join3(src.text, p, "[", GapText(g), "]");
      t := List([], End(false, g));
      EndTextIs(End(false, g), "]");
    } else {
      var items, end := ItemsFrom(src, q, 0, start);
      ItemsHere(src, q, items, end);
      var g := GapFrom(src, p + 1);
      ItemsAfterAre(src, g, items, end);
      Join3(src.text, p, "[", GapText(g), FromItem(items, end));
      t := List(ItemsAfter(g, items), end);
    }
  }

  lemma ItemsHere(src: Source, q: nat, items: seq<Item>, end: End)
    requires items != [] && AreItems(src, items) && Stands(src.text, q, FromItem(items, end))
    ensures Peek(src.text, q) != '\0'
  {
    hide Stands, FromItem;
    assert IsItem(src, items[0]);
    FirstOfItem(src, items, end);
    FirstStands(src.text, q, FromItem(items, end));
  }

  lemma {:induction false} ItemsFrom(src: Source, p: nat, n: nat, evs: seq<Event>) returns (items: seq<Item>, end: End)
    requires p <= |src.text| && Elements(src, p, n, evs).Ok?
    ensures items != [] && AreItems(src, items) && IsEnd(src.flags, false, end)
    ensures Stands(src.text, p, FromItem(items, end)) && Elements(src, p, n, evs).pos == p + |FromItem(items, end)|
    decreases |src.text| - p, 3
  {
    hide Stands, Value, AfterElement, BehindItem, ValueText, GapText, IsValue, IsGap, IsEnd;
    var t := ValueFrom(src, p, evs);
    var o := Value(src, p, evs);
    var after, rest;
    after, rest, end := BehindFrom(src, o.pos, Count(n), o.evs);
    items := [Item([], t, after)] + rest;
    assert IsItem(src, Item([], t, after)) by { NothingIsGap(src.flags); }
    assert items[1..] == rest;
    forall k | 0 <= k < |items| ensures IsItem(src, items[k]) { if k > 0 { assert items[k] == rest[k - 1]; } }
    StandsJoin(src.text, p, ValueText(t), GapText(after) + BehindItem(rest, end));
  }

  lemma NothingIsGap(flags: Flags)
    ensures IsGap(flags, []) && GapText([]) == ""
  {
  }

  lemma {:induction false} BehindFrom(src: Source, q: nat, n: nat, evs: seq<Event>)
      returns (after: seq<Piece>, items: seq<Item>, end: End)
    requires q <= |src.text| && AfterElement(src, q, n, evs).Ok?
    ensures IsGap(src.flags, after) && AreItems(src, items) && IsEnd(src.flags, false, end)
    ensures Stands(src.text, q, GapText(after) + BehindItem(items, end))
    ensures AfterElement(src, q, n, evs).pos == q + |GapText(after) + BehindItem(items, end)|
    decreases |src.text| - q, 0
  {
    hide Stands, SkipFrom, Elements, FromItem, GapText, IsItem, IsGap;
    NothingIsGap(src.flags);
    var c := SkipFrom(src, q).pos;
    after := GapFrom(src, q);
    if Peek(src.text, c) == ']' {
      items, end := [], End(false, []);
      CharHere(src.text, c, ']');
      EndTextIs(end, "]");
    } else {
      items, end := CommaFrom(src, q, c, n, evs);
    }
    StandsJoin(src.text, q, GapText(after), BehindItem(items, end));
  }

  lemma {:induction false} CommaFrom(src: Source, q: nat, c: nat, n: nat, evs: seq<Event>)
      returns (items: seq<Item>, end: End)
    requires q <= c < |src.text| && SkipFrom(src, q) == At(c) && src.text[c] != ']'
    requires AfterElement(src, q, n, evs).Ok?
    ensures AreItems(src, items) && IsEnd(src.flags, false, end) && Stands(src.text, c, BehindItem(items, end))
    ensures AfterElement(src, q, n, evs).pos == c + |BehindItem(items, end)|
    decreases |src.text| - c - 1, 9
  {
    hide Stands, SkipFrom, Elements, FromItem, GapText, IsItem, IsGap, ItemsAfter;
    CharHere(src.text, c, ',');
    var t := SkipFrom(src, c + 1).pos;
    if src.flags.trailingCommas && Peek(src.text, t) == ']' {
      var g := GapFrom(src, c + 1);
      CharHere(src.text, t, ']');
      items, end := [], End(true, g);
      EndTextIs(end, "]");
      Join3(src.text, c, ",", GapText(g), "]");
    } else {
      items, end := ItemsFrom(src, t, n, evs);
      ItemsHere(src, t, items, end);
      var g := GapFrom(src, c + 1);
      ItemsAfterAre(src, g, items, end);
      Join3(src.text, c, ",", GapText(g), FromItem(items, end));
      items := ItemsAfter(g, items);
    }
  }

  // ---- objects ----------------------------------------------------------------------------------

  function FieldsAfter(g: seq<Piece>, fields: seq<Field>): seq<Field>
    requires fields != []
  {
    [fields[0].(before := g)] + fields[1..]
  }

  lemma FieldsAfterAre(src: Source, g: seq<Piece>, fields: seq<Field>, end: End)
    requires fields != [] && AreFields(src, fields) && IsGap(src.flags, g)
    ensures var all := FieldsAfter(g, fields);
            |all| == |fields| && AreFields(src, all) && all[0].before == g &&
            FromField(all, end) == FromField(fields, end)
  {
    hide BehindField, ValueText, GapText, QuotedText, IsValue, IsGap, AreChars;
    var all := FieldsAfter(g, fields);
    assert all[1..] == fields[1..];
    forall k | 0 <= k < |all| ensures IsField(src, all[k]) { assert IsField(src, fields[k]); }
  }

  lemma {:induction false} RecordFrom(src: Source, p: nat, evs: seq<Event>) returns (t: Syntax)
    requires p < |src.text| && src.text[p] == '{' && Object(src, p, evs).Ok?
    ensures t.Record? && IsValue(src, t) && Stands(src.text, p, ValueText(t)) &&
            Object(src, p, evs).pos == p + |ValueText(t)|
    decreases |src.text| - p, 1
  {
    hide Stands, SkipFrom, Members, FromField, GapText, IsField, IsGap, FieldsAfter;
    var q, start := SkipFrom(src, p + 1).pos, evs + [StartObject];
    CharHere(src.text, p, '{');
    if Peek(src.text, q) == '}' {
      var g := GapFrom(src, p + 1);
      CharHere(src.text, q, '}');
      Join3(src.text, p, "{", GapText(g), "}");
      t := Record([], End(false, g));
      EndTextIs(End(false, g), "}");
    } else {
      var fields, end := FieldsFrom(src, q, 0, start);
      FieldsHere(src, q, fields, end);
      var g := GapFrom(src, p + 1);
      FieldsAfterAre(src, g, fields, end);
      Join3(src.text, p, "{", GapText(g), FromField(fields, end));
      t := Record(FieldsAfter(g, fields), end);
    }
  }

  lemma FieldsHere(src: Source, q: nat, fields: seq<Field>, end: End)
    requires fields != [] && Stands(src.text, q, FromField(fields, end))
    ensures Peek(src.text, q) == '\"'
  {
    hide Stands, FromField;
    FieldText(fields, end);
    FirstStands(src.text, q, FromField(fields, end));
  }

  lemma {:induction false} FieldsFrom(src: Source, p: nat, n: nat, evs: seq<Event>)
      returns (fields: seq<Field>, end: End)
    requires p <= |src.text| && Members(src, p, n, evs).Ok?
    ensures fields != [] && AreFields(src, fields) && IsEnd(src.flags, false, end)
    ensures Stands(src.text, p, FromField(fields, end)) && Members(src, p, n, evs).pos == p + |FromField(fields, end)|
    decreases |src.text| - p, 4
  {
    hide Stands, SkipFrom, StringEvent, ValueOfMember, FromField, BehindField, QuotedText, ValueText, GapText;
    hide IsValue, IsGap, IsEnd, AreChars;
    var o := StringEvent(src, p, evs, true);
    var c := SkipFrom(src, o.pos).pos;
    var v := SkipFrom(src, c + 1).pos;
    var name := QuotedFrom(src, p, evs, true);
    var behind := GapFrom(src, o.pos);
    var f, rest;
    f, rest, end := FieldValueFrom(src, v, n, o.evs);
    FirstOfFieldValue(src, f, rest, end);
    FirstStands(src.text, v, FromFieldValue(f, rest, end));
    var front := GapFrom(src, c + 1);
    f := f.(name := name, behind := behind, front := front);
    fields := [f] + rest;
    assert fields[1..] == rest;
    forall k | 0 <= k < |fields| ensures IsField(src, fields[k]) { if k > 0 { assert fields[k] == rest[k - 1]; } }
    CharHere(src.text, c, ':');
    Join3(src.text, c, ":", GapText(front), FromFieldValue(f, rest, end));
    StandsJoin(src.text, o.pos, GapText(behind), ":" + (GapText(front) + FromFieldValue(f, rest, end)));
    StandsJoin(src.text, p, QuotedText(name), BehindName(f, rest, end));
    FieldText(fields, end);
  }

  /** A field without its name, and those behind it. */
  lemma {:induction false} FieldValueFrom(src: Source, v: nat, n: nat, evs: seq<Event>)
      returns (f: Field, rest: seq<Field>, end: End)
    requires v <= |src.text| && ValueOfMember(src, v, n, evs).Ok?
    ensures IsField(src, f) && AreFields(src, rest) && IsEnd(src.flags, false, end)
    ensures Stands(src.text, v, FromFieldValue(f, rest, end))
    ensures ValueOfMember(src, v, n, evs).pos == v + |FromFieldValue(f, rest, end)|
    decreases |src.text| - v, 3
  {
    hide Stands, Value, AfterMember, BehindField, ValueText, GapText, IsValue, IsGap, IsEnd;
    var t := ValueFrom(src, v, evs);
    var o := Value(src, v, evs);
    var after;
    after, rest, end := BehindFieldFrom(src, o.pos, Count(n), o.evs);
    f := Field([], [], [], [], t, after);
    NothingIsGap(src.flags);
    StandsJoin(src.text, v, ValueText(t), GapText(after) + BehindField(rest, end));
  }

  lemma {:induction false} BehindFieldFrom(src: Source, q: nat, n: nat, evs: seq<Event>)
      returns (after: seq<Piece>, fields: seq<Field>, end: End)
    requires q <= |src.text| && AfterMember(src, q, n, evs).Ok?
    ensures IsGap(src.flags, after) && AreFields(src, fields) && IsEnd(src.flags, false, end)
    ensures Stands(src.text, q, GapText(after) + BehindField(fields, end))
    ensures AfterMember(src, q, n, evs).pos == q + |GapText(after) + BehindField(fields, end)|
    decreases |src.text| - q, 0
  {
    hide Stands, SkipFrom, Members, FromField, GapText, IsField, IsGap;
    NothingIsGap(src.flags);
    var c := SkipFrom(src, q).pos;
    after := GapFrom(src, q);
    if Peek(src.text, c) == '}' {
      fields, end := [], End(false, []);
      CharHere(src.text, c, '}');
      EndTextIs(end, "}");
    } else {
      fields, end := FieldCommaFrom(src, q, c, n, evs);
    }
    StandsJoin(src.text, q, GapText(after), BehindField(fields, end));
  }

  lemma {:induction false} FieldCommaFrom(src: Source, q: nat, c: nat, n: nat, evs: seq<Event>)
      returns (fields: seq<Field>, end: End)
    requires q <= c < |src.text| && SkipFrom(src, q) == At(c) && src.text[c] != '}'
    requires AfterMember(src, q, n, evs).Ok?
    ensures AreFields(src, fields) && IsEnd(src.flags, false, end) && Stands(src.text, c, BehindField(fields, end))
    ensures AfterMember(src, q, n, evs).pos == c + |BehindField(fields, end)|
    decreases |src.text| - c - 1, 9
  {
    hide Stands, SkipFrom, Members, FromField, GapText, IsField, IsGap, FieldsAfter;
    CharHere(src.text, c, ',');
    var t := SkipFrom(src, c + 1).pos;
    if src.flags.trailingCommas && Peek(src.text, t) == '}' {
      var g := GapFrom(src, c + 1);
      CharHere(src.text, t, '}');
      fields, end := [], End(true, g);
      EndTextIs(end, "}");
      Join3(src.text, c, ",", GapText(g), "}");
    } else {
      fields, end := FieldsFrom(src, t, n, evs);
      FieldsHere(src, t, fields, end);
      var g := GapFrom(src, c + 1);
      FieldsAfterAre(src, g, fields, end);
      Join3(src.text, c, ",", GapText(g), FromField(fields, end));
      fields := FieldsAfter(g, fields);
    }
  }

  // ---- whole texts ------------------------------------------------------------------------------

  /** The source's text, up to its null terminator, is this one; if the reader is to stop behind the value, it
      starts with it. */
  predicate Spells(src: Source, d: Document) {
    IsDocument(src, d) &&
    if src.flags.stopWhenDone then
      d.after == [] && d.open == "" && Stands(src.text, 0, DocumentText(d)) &&
      Follows(d.root, Peek(src.text, |DocumentText(d)|))
    else Stands(src.text, 0, DocumentText(d)) && Peek(src.text, |DocumentText(d)|) == '\0'
  }

  /** A text of the grammar is parsed to its end, as what it means. */
  lemma DocumentParses(src: Source, d: Document)
    requires Willing(src) && Spells(src, d)
    ensures Parse(src) == Ok(|DocumentText(d)|, Meaning(src.flags, d.root))
  {
    hide Stands, Skip, Value, ValueText, GapText, IsValue, IsGap, IsOpen, Follows, Meaning;
    var rest, last := ValueText(d.root), GapText(d.after) + d.open;
    NothingIsGap(src.flags);
    FirstOfValue(src, d.root);
    assert rest + last != "" && (rest + last)[0] == rest[0];
    GapThen(src, 0, d.before, rest + last);
    var p := |GapText(d.before)|;
    StandsConcat(src.text, p, rest, last);
    StandsAsSlice(src.text, p + |rest|, last);
    LastFollows(src, d, p + |rest|);
    ValueParses(src, p, [], d.root);
    assert [] + Meaning(src.flags, d.root) == Meaning(src.flags, d.root);
    if !src.flags.stopWhenDone {
      SkipAll(src.text, src.flags, p + |rest|, d.after, d.open);
    }
  }

  lemma LastFollows(src: Source, d: Document, q: nat)
    requires IsDocument(src, d) && Stands(src.text, q, GapText(d.after) + d.open)
    requires if src.flags.stopWhenDone then d.after == [] && d.open == "" && Follows(d.root, Peek(src.text, q))
             else Peek(src.text, q + |GapText(d.after) + d.open|) == '\0'
    ensures Follows(d.root, Peek(src.text, q))
  {
    hide Stands, IsValue, Follows, GapText;
    var last := GapText(d.after) + d.open;
    if !src.flags.stopWhenDone {
      if last != "" {
        FirstStands(src.text, q, last);
        FirstOfLast(src.flags, d.after, d.open);
      }
      EndsFollows(d.root, Peek(src.text, q));
    }
  }

  lemma FirstOfLast(flags: Flags, g: seq<Piece>, open: string)
    requires IsGap(flags, g) && IsOpen(flags, open) && GapText(g) + open != ""
    ensures Ends((GapText(g) + open)[0])
  {
    hide GapText;
    NothingIsGap(flags);
    if open != "" { assert open[0] == open[..2][0]; }
    if g == [] {
      assert GapText(g) + open == open;
    } else {
      FirstOfGap(flags, g, "/");
      PiecesAreSome(g);
      assert (GapText(g) + open)[0] == GapText(g)[0] == (GapText(g) + "/")[0];
    }
  }

  lemma PiecesAreSome(g: seq<Piece>)
    requires g != []
    ensures GapText(g) != ""
  {
    PieceIsSome(g[0]);
  }

  /** Whatever is parsed is a text of the grammar. */
  lemma DocumentFrom(src: Source) returns (d: Document)
    requires Parse(src).Ok?
    ensures Spells(src, d)
  {
    hide Stands, Skip, Value, ValueText, GapText, IsValue, IsGap, IsOpen, Follows;
    var p := SkipFrom(src, 0).pos;
    var before := GapFrom(src, 0);
    var root := ValueFrom(src, p, []);
    var q := Value(src, p, []).pos;
    var after, open := [], "";
    NothingIsGap(src.flags);
    if !src.flags.stopWhenDone {
      after, open := SkippedIsGap(src.text, src.flags, q);
    } else {
      StandsAsSlice(src.text, p, ValueText(root));
      NothingStands(src.text, q);
      assert GapText(after) + open == "";
      NothingIsOpen(src.flags);
    }
    d := Document(before, root, after, open);
    Join3(src.text, 0, GapText(before), ValueText(root), GapText(after) + open);
  }

  lemma NothingIsOpen(flags: Flags)
    ensures IsOpen(flags, "")
  {
  }

  /** Which texts both readers accept with a handler that refuses nothing, and what they send it. */
  lemma AcceptedIffJson(src: Source)
    requires Willing(src)
    ensures Parse(src).Ok? <==> exists d :: Spells(src, d)
    ensures forall d :: Spells(src, d) ==>
            Parse(src) == Ok(|DocumentText(d)|, Meaning(src.flags, d.root)) &&
            JsonMachine.IterativeParse(src) == Parse(src)
  {
    hide Spells, Parse, Meaning, DocumentText, JsonMachine.IterativeParse;
    if Parse(src).Ok? { var d := DocumentFrom(src); }
    forall d | Spells(src, d)
      ensures Parse(src) == Ok(|DocumentText(d)|, Meaning(src.flags, d.root)) &&
              JsonMachine.IterativeParse(src) == Parse(src)
    {
      DocumentParses(src, d);
      JsonReports.SameLanguage(src);
    }
  }
}
