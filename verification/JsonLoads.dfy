/** Whatever the reader accepts, the document can build: it ends with one root value on its stack. */
module JsonLoads {
  import opened Common
  import opened JsonStream
  import opened JsonReader
  import opened JsonDocument
  import JsonNumber
  import NumberGrammar
  import NumberLanguage
  import JsonString
  import JsonRoundTrip
  import opened JsonText

  /** The events build this stack. */
  predicate Builds(evs: seq<Event>, stack: seq<Json>) {
    Build([], evs) == Some(stack)
  }

  lemma OneMore(evs: seq<Event>, stack: seq<Json>, e: Event)
    requires Builds(evs, stack)
    ensures Build([], evs + [e]) == Step(stack, e)
  {
    BuildConcat([], evs, [e]);
    BuildOne(stack, e);
  }

  /** An event that stands for a value of its own, one that can be written and read. */
  ghost predicate Single(src: Source, e: Event) {
    match e
    case Int(i) => Fits(i)
    case Uint(i) => Fits(i)
    case Int64(i) => Fits(i)
    case Uint64(i) => Fits(i)
    case Double(text) => NumberGrammar.DoubleText(text) && !src.overflows(text)
    case _ => !e.StartArray? && !e.StartObject? && !e.EndArray? && !e.EndObject?
  }

  predicate Fits(i: int) {
    -JsonNumber.TWO_63 <= i < JsonNumber.TWO_64
  }

  lemma SingleLoads(src: Source, evs: seq<Event>, stack: seq<Json>, e: Event) returns (v: Json)
    requires Builds(evs, stack) && Single(src, e)
    ensures Builds(evs + [e], stack + [v]) && Readable(src, v)
    ensures e.Key? ==> v == JString(e.str)
  {
    hide Build, NumberGrammar.DoubleText;
    OneMore(evs, stack, e);
    v := Step(stack, e).value[|stack|];
  }

  /** A leaf that is accepted adds one such event. */
  lemma LeafIsSingle(src: Source, p: nat, evs: seq<Event>)
    requires p <= |src.text| && Leaf(src, p, evs).Ok?
    ensures var all := Leaf(src, p, evs).evs;
            |all| == |evs| + 1 && all == evs + [all[|evs|]] && Single(src, all[|evs|])
  {
    hide JsonString.Scan, Word, JsonNumber.NumberAt, NumberGrammar.DoubleText;
    NumberIsSingle(src, p);
  }

  lemma NumberIsSingle(src: Source, p: nat)
    requires p <= |src.text|
    ensures JsonNumber.NumberAt(src, p).Number? ==> Single(src, JsonNumber.NumberAt(src, p).event)
  {
    hide JsonNumber.LiteralAt, NumberGrammar.DoubleText;
    var l := JsonNumber.LiteralAt(src.text, p);
    if l.Literal? {
      JsonNumber.ValueBound(l.minus, l.v);
      if l.wide { WideIsDouble(src.text, p); } else { JsonNumber.NarrowFits(src.text, p); }
    }
  }

  /** The text of a number that needs floating point is such a number on its own. */
  lemma WideIsDouble(s: string, p: nat)
    requires p <= |s| && JsonNumber.LiteralAt(s, p).Literal? && JsonNumber.LiteralAt(s, p).wide
    ensures NumberGrammar.DoubleText(s[p..JsonNumber.LiteralAt(s, p).end])
  {
    hide JsonNumber.LiteralAt;
    var text := s[p..JsonNumber.LiteralAt(s, p).end];
    assert Stands(s, p, text) && Stands(text, 0, text);
    NumberLanguage.LiteralSame(s, p, text, 0, text);
    NumberLanguage.DoubleTextIff(text);
  }

  ghost predicate AllReadable(src: Source, es: seq<Json>) {
    forall k :: 0 <= k < |es| ==> Readable(src, es[k])
  }

  ghost predicate MembersReadable(src: Source, ms: seq<Member>) {
    forall k :: 0 <= k < |ms| ==> Readable(src, ms[k].value)
  }

  /** The end of an array takes its elements from the stack. */
  lemma ArrayEnds(evs: seq<Event>, base: seq<Json>, es: seq<Json>)
    requires Builds(evs, base + [JArray([])] + es)
    ensures Builds(evs + [EndArray(|es|)], base + [JArray(es)])
  {
    hide Build;
    var stack := base + [JArray([])] + es;
    OneMore(evs, stack, EndArray(|es|));
    assert stack[..|stack| - |es| - 1] == base && TopOf(stack, |es|) == es;
  }

  /** The end of an object takes names and values from it. */
  lemma ObjectEnds(evs: seq<Event>, base: seq<Json>, ms: seq<Member>)
    requires Builds(evs, base + [JObject([])] + Flat(ms))
    ensures Builds(evs + [EndObject(|ms|)], base + [JObject(ms)])
  {
    hide Build, Flat, Pairs;
    var stack := base + [JObject([])] + Flat(ms);
    PairsOfFlat(ms);
    FlatLength(ms);
    OneMore(evs, stack, EndObject(|ms|));
    assert stack[..|stack| - 2 * |ms| - 1] == base && TopOf(stack, 2 * |ms|) == Flat(ms);
  }

  lemma FlatLength(ms: seq<Member>)
    ensures |Flat(ms)| == 2 * |ms|
  {
  }

  lemma {:induction false} FlatSnoc(ms: seq<Member>, m: Member)
    ensures Flat(ms + [m]) == Flat(ms) + [JString(m.name), m.value]
  {
    if ms == [] {
      assert ms + [m] == [m] && [m][1..] == [];
    } else {
      assert (ms + [m])[1..] == ms[1..] + [m];
      FlatSnoc(ms[1..], m);
    }
  }

  /** A text whose length fits into 32 bits, so that no count wraps around. */
  predicate Short(src: Source) {
    |src.text| < JsonNumber.TWO_32
  }

  /** An accepted value adds just one value to the stack. */
  lemma {:induction false} ValueLoads(src: Source, p: nat, evs: seq<Event>, stack: seq<Json>)
      returns (v: Json)
    requires Short(src) && p <= |src.text| && Builds(evs, stack) && Value(src, p, evs).Ok?
    ensures Builds(Value(src, p, evs).evs, stack + [v]) && Readable(src, v)
    decreases |src.text| - p, 2
  {
    hide Array, Object, Leaf, Build, Builds;
    if Peek(src.text, p) == '{' { v := ObjectLoads(src, p, evs, stack); }
    else if Peek(src.text, p) == '[' { v := ArrayLoads(src, p, evs, stack); }
    else {
      LeafIsSingle(src, p, evs);
      v := SingleLoads(src, evs, stack, Leaf(src, p, evs).evs[|evs|]);
    }
  }

  lemma {:induction false} ArrayLoads(src: Source, p: nat, evs: seq<Event>, stack: seq<Json>)
      returns (v: Json)
    requires Short(src) && p < |src.text| && Builds(evs, stack) && Array(src, p, evs).Ok?
    ensures Builds(Array(src, p, evs).evs, stack + [v]) && Readable(src, v)
    decreases |src.text| - p, 1
  {
    hide Elements, Build, SkipFrom;
    var start := evs + [StartArray];
    OneMore(evs, stack, StartArray);
    assert stack + [JArray([])] + [] == stack + [JArray([])];
    var q := SkipFrom(src, p + 1).pos;
    if Peek(src.text, q) == ']' {
      ArrayEnds(start, stack, []);
      v := JArray([]);
    } else {
      v := ElementsLoads(src, q, start, stack, []);
    }
  }

  lemma {:induction false} ElementsLoads(src: Source, p: nat, evs: seq<Event>, base: seq<Json>, es: seq<Json>)
      returns (v: Json)
    requires Short(src) && |es| <= p <= |src.text| && Builds(evs, base + [JArray([])] + es)
    requires AllReadable(src, es) && Elements(src, p, |es|, evs).Ok?
    ensures Builds(Elements(src, p, |es|, evs).evs, base + [v]) && Readable(src, v)
    decreases |src.text| - p, 3
  {
    hide AfterElement, Build, Builds;
    var e := ValueLoads(src, p, evs, base + [JArray([])] + es);
    var o := Value(src, p, evs);
    assert base + [JArray([])] + es + [e] == base + [JArray([])] + (es + [e]);
    assert Count(|es|) == |es + [e]|;
    v := AfterElementLoads(src, o.pos, o.evs, base, es + [e]);
  }

  lemma {:induction false} AfterElementLoads(src: Source, q: nat, evs: seq<Event>, base: seq<Json>, es: seq<Json>)
      returns (v: Json)
    requires Short(src) && |es| <= q <= |src.text| && Builds(evs, base + [JArray([])] + es)
    requires AllReadable(src, es) && AfterElement(src, q, |es|, evs).Ok?
    ensures Builds(AfterElement(src, q, |es|, evs).evs, base + [v]) && Readable(src, v)
    decreases |src.text| - q, 0
  {
    hide Elements, Build, Builds, SkipFrom;
    var c := SkipFrom(src, q).pos;
    ArrayEnds(evs, base, es);
    v := JArray(es);
    if Peek(src.text, c) == ',' {
      var t := SkipFrom(src, c + 1).pos;
      if !(src.flags.trailingCommas && Peek(src.text, t) == ']') { v := ElementsLoads(src, t, evs, base, es); }
    }
  }

  lemma {:induction false} ObjectLoads(src: Source, p: nat, evs: seq<Event>, stack: seq<Json>)
      returns (v: Json)
    requires Short(src) && p < |src.text| && Builds(evs, stack) && Object(src, p, evs).Ok?
    ensures Builds(Object(src, p, evs).evs, stack + [v]) && Readable(src, v)
    decreases |src.text| - p, 1
  {
    hide JsonReader.Members, Build, SkipFrom;
    var start := evs + [StartObject];
    OneMore(evs, stack, StartObject);
    assert stack + [JObject([])] + Flat([]) == stack + [JObject([])];
    var q := SkipFrom(src, p + 1).pos;
    if Peek(src.text, q) == '}' {
      ObjectEnds(start, stack, []);
      v := JObject([]);
    } else {
      v := MembersLoads(src, q, start, stack, []);
    }
  }

  lemma {:induction false} MembersLoads(src: Source, p: nat, evs: seq<Event>, base: seq<Json>, ms: seq<Member>)
      returns (v: Json)
    requires Short(src) && |ms| <= p <= |src.text| && Builds(evs, base + [JObject([])] + Flat(ms))
    requires MembersReadable(src, ms) && JsonReader.Members(src, p, |ms|, evs).Ok?
    ensures Builds(JsonReader.Members(src, p, |ms|, evs).evs, base + [v]) && Readable(src, v)
    decreases |src.text| - p, 3
  {
    hide ValueOfMember, Build, Builds, SkipFrom, Flat;
    var o := StringEvent(src, p, evs, true);
    var name := KeyOf(src, p, evs);
    var below := base + [JObject([])] + Flat(ms);
    var key := SingleLoads(src, evs, below, Key(name));
    var c := SkipFrom(src, o.pos).pos;
    var at := SkipFrom(src, c + 1).pos;
    v := MemberLoads(src, at, o.evs, base, ms, name);
  }

  lemma KeyOf(src: Source, p: nat, evs: seq<Event>) returns (name: string)
    requires p < |src.text| && StringEvent(src, p, evs, true).Ok?
    ensures StringEvent(src, p, evs, true).evs == evs + [Key(name)]
  {
    hide JsonString.Scan;
    name := JsonString.Scan(src.text, p + 1, src.flags.escapedApostrophe, "").text;
  }

  /** The value of a member, its name being on the stack. */
  lemma {:induction false} MemberLoads(src: Source, p: nat, evs: seq<Event>, base: seq<Json>, ms: seq<Member>,
      name: string)
      returns (v: Json)
    requires Short(src) && |ms| <= p <= |src.text|
    requires Builds(evs, base + [JObject([])] + Flat(ms) + [JString(name)])
    requires MembersReadable(src, ms) && ValueOfMember(src, p, |ms|, evs).Ok?
    ensures Builds(ValueOfMember(src, p, |ms|, evs).evs, base + [v]) && Readable(src, v)
    decreases |src.text| - p, 3
  {
    hide AfterMember, Build, Builds, Flat;
    var below := base + [JObject([])] + Flat(ms) + [JString(name)];
    var x := ValueLoads(src, p, evs, below);
    var o := Value(src, p, evs);
    var m := Member(name, x);
    FlatSnoc(ms, m);
    assert below + [x] == base + [JObject([])] + Flat(ms + [m]);
    assert Count(|ms|) == |ms + [m]|;
    v := AfterMemberLoads(src, o.pos, o.evs, base, ms + [m]);
  }

  lemma {:induction false} AfterMemberLoads(src: Source, q: nat, evs: seq<Event>, base: seq<Json>, ms: seq<Member>)
      returns (v: Json)
    requires Short(src) && |ms| <= q <= |src.text| && Builds(evs, base + [JObject([])] + Flat(ms))
    requires MembersReadable(src, ms) && AfterMember(src, q, |ms|, evs).Ok?
    ensures Builds(AfterMember(src, q, |ms|, evs).evs, base + [v]) && Readable(src, v)
    decreases |src.text| - q, 0
  {
    hide JsonReader.Members, Build, Builds, SkipFrom, Flat;
    var c := SkipFrom(src, q).pos;
    ObjectEnds(evs, base, ms);
    v := JObject(ms);
    if Peek(src.text, c) == ',' {
      var t := SkipFrom(src, c + 1).pos;
      if !(src.flags.trailingCommas && Peek(src.text, t) == '}') { v := MembersLoads(src, t, evs, base, ms); }
    }
  }

  /** A text is loaded exactly if it is parsed without an error: there is one root value, and no event ever
      finds the stack unfit for it. What is loaded can be written and read. */
  lemma LoadsIffParsed(src: Source)
    requires Short(src)
    ensures Loaded(src).Some? <==> Parse(src).Ok?
    ensures Loaded(src).Some? ==> Readable(src, Loaded(src).value)
  {
    hide Value, SkipFrom, Build, Readable;
    if Parse(src).Ok? {
      var p := SkipFrom(src, 0).pos;
      assert Builds([], []) by { NothingBuilds(); }
      var v := ValueLoads(src, p, [], []);
      assert [] + [v] == [v];
    }
  }

  lemma NothingBuilds()
    ensures Build([], []) == Some([])
  {
  }

  /** A value is loaded from its own text exactly if it is one that this reader can hold. */
  lemma WrittenLoadsIff(src: Source, f: Format, v: Json)
    requires Short(src) && Willing(src) && ValidFormat(f) && !src.flags.numbersAsStrings
    requires src.text == Text(f, 0, v)
    ensures Loaded(src) == Some(v) <==> Readable(src, v)
  {
    hide Loaded, Readable, Text;
    LoadsIffParsed(src);
    if Readable(src, v) { WriteThenLoad(src, f, v); }
  }

  /** Whatever was loaded, under any flags and from any layout, is loaded again from what the writers make of it. */
  lemma LoadWriteLoad(src: Source, f: Format, again: Source)
    requires Short(src) && Loaded(src).Some?
    requires Willing(again) && ValidFormat(f) && !again.flags.numbersAsStrings
    requires again.overflows == src.overflows && again.text == Text(f, 0, Loaded(src).value)
    ensures Loaded(again) == Loaded(src)
  {
    hide Loaded, Text, Finite, Representable;
    LoadsIffParsed(src);
    WriteThenLoad(again, f, Loaded(src).value);
  }
}
