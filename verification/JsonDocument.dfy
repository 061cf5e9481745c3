/** GenericDocument as a handler: it builds the value from the events on a stack. A text that
    Accept wrote is read back as the value it was written from. */
module JsonDocument {
  import opened Common
  import opened JsonStream
  import opened JsonText
  import JsonReader
  import JsonReaderClass
  import JsonMachine
  import JsonReports
  import JsonRoundTrip

  /** A stack of values read as names and values in turn. */
  function Pairs(vs: seq<Json>): Option<seq<Member>> {
    if vs == [] then Some([])
    else if |vs| == 1 || !vs[0].JString? then None
    else
      match Pairs(vs[2..])
      case None => None
      case Some(ms) => Some([Member(vs[0].str, vs[1])] + ms)
  }

  /** The top `n` values. */
  function TopOf(stack: seq<Json>, n: nat): seq<Json>
    requires n <= |stack|
  {
    stack[|stack| - n..]
  }

  /** One event; none when it does not fit the stack. */
  function Step(stack: seq<Json>, e: Event): Option<seq<Json>> {
    match e
    case Null => Some(stack + [JNull])
    case Bool(b) => Some(stack + [JBool(b)])
    case Int(i) => Some(stack + [JNumber(i)])
    case Uint(i) => Some(stack + [JNumber(i)])
    case Int64(i) => Some(stack + [JNumber(i)])
    case Uint64(i) => Some(stack + [JNumber(i)])
    case Double(text) => Some(stack + [JDouble(text)])
    case RawNumber(text) => Some(stack + [JString(text)])
    case String(str) => Some(stack + [JString(str)])
    case Key(str) => Some(stack + [JString(str)])
    case StartArray => Some(stack + [JArray([])])
    case StartObject => Some(stack + [JObject([])])
    case EndArray(n) =>
      if |stack| < n + 1 then None
      else Some(stack[..|stack| - n - 1] + [JArray(TopOf(stack, n))])
    case EndObject(n) =>
      if |stack| < 2 * n + 1 || Pairs(TopOf(stack, 2 * n)).None? then None
      else Some(stack[..|stack| - 2 * n - 1] + [JObject(Pairs(TopOf(stack, 2 * n)).value)])
  }

  function Build(stack: seq<Json>, evs: seq<Event>): Option<seq<Json>>
    decreases |evs|
  {
    if evs == [] then Some(stack)
    else
      match Step(stack, evs[0])
      case None => None
      case Some(next) => Build(next, evs[1..])
  }

  lemma {:induction false} BuildConcat(stack: seq<Json>, a: seq<Event>, b: seq<Event>)
    ensures Build(stack, a + b) == match Build(stack, a) case None => None case Some(next) => Build(next, b)
    decreases |a|
  {
    hide Step;
    if a == [] {
      assert a + b == b;
    } else {
      assert (a + b)[1..] == a[1..] + b;
      if Step(stack, a[0]).Some? { BuildConcat(Step(stack, a[0]).value, a[1..], b); }
    }
  }

  lemma BuildOne(stack: seq<Json>, e: Event)
    ensures Build(stack, [e]) == Step(stack, e)
  {
  }

  /** The names and values of members, in turn. */
  function Flat(ms: seq<Member>): (vs: seq<Json>)
    ensures |vs| == 2 * |ms|
  {
    if ms == [] then [] else [JString(ms[0].name), ms[0].value] + Flat(ms[1..])
  }

  lemma {:induction false} PairsOfFlat(ms: seq<Member>)
    ensures Pairs(Flat(ms)) == Some(ms)
  {
    if ms != [] {
      PairsOfFlat(ms[1..]);
      assert Flat(ms)[2..] == Flat(ms[1..]);
      assert [Member(ms[0].name, ms[0].value)] + ms[1..] == ms;
    }
  }

  /** The events of a value put the value on the stack. */
  lemma {:induction false} BuildEvents(flags: Flags, v: Json, stack: seq<Json>)
    requires !flags.numbersAsStrings && Representable(v)
    ensures Build(stack, Events(flags, v)) == Some(stack + [v])
    decreases v, 1
  {
    match v
    case JArray(es) =>
      BuildArray(flags, es, stack);
    case JObject(ms) =>
      BuildObject(flags, ms, stack);
    case _ =>
      BuildOne(stack, Events(flags, v)[0]);
  }

  lemma {:induction false} BuildArray(flags: Flags, es: seq<Json>, stack: seq<Json>)
    requires !flags.numbersAsStrings && Representable(JArray(es))
    ensures Build(stack, Events(flags, JArray(es))) == Some(stack + [JArray(es)])
    decreases es, 1
  {
    hide Build, ElemEvents;
    var opening := stack + [JArray([])];
    BuildConcat(stack, [StartArray] + ElemEvents(flags, es), [EndArray(|es|)]);
    BuildConcat(stack, [StartArray], ElemEvents(flags, es));
    BuildOne(stack, StartArray);
    BuildElems(flags, es, opening);
    BuildOne(opening + es, EndArray(|es|));
    assert TopOf(opening + es, |es|) == es;
    assert (opening + es)[..|stack|] == stack;
  }

  lemma {:induction false} BuildElems(flags: Flags, es: seq<Json>, stack: seq<Json>)
    requires !flags.numbersAsStrings && forall k :: 0 <= k < |es| ==> Representable(es[k])
    ensures Build(stack, ElemEvents(flags, es)) == Some(stack + es)
    decreases es, 0
  {
    hide Events;
    if es == [] {
      assert stack + es == stack;
    } else {
      BuildEvents(flags, es[0], stack);
      BuildConcat(stack, Events(flags, es[0]), ElemEvents(flags, es[1..]));
      BuildElems(flags, es[1..], stack + [es[0]]);
      assert stack + [es[0]] + es[1..] == stack + es;
    }
  }

  lemma {:induction false} BuildObject(flags: Flags, ms: seq<Member>, stack: seq<Json>)
    requires !flags.numbersAsStrings && Representable(JObject(ms))
    ensures Build(stack, Events(flags, JObject(ms))) == Some(stack + [JObject(ms)])
    decreases ms, 1
  {
    hide Build, MemberEvents, Pairs, Flat;
    var opening := stack + [JObject([])];
    BuildConcat(stack, [StartObject] + MemberEvents(flags, ms), [EndObject(|ms|)]);
    BuildConcat(stack, [StartObject], MemberEvents(flags, ms));
    BuildOne(stack, StartObject);
    BuildMembers(flags, ms, opening);
    BuildOne(opening + Flat(ms), EndObject(|ms|));
    PairsOfFlat(ms);
    assert TopOf(opening + Flat(ms), 2 * |ms|) == Flat(ms);
    assert (opening + Flat(ms))[..|stack|] == stack;
  }

  lemma {:induction false} BuildMembers(flags: Flags, ms: seq<Member>, stack: seq<Json>)
    requires !flags.numbersAsStrings && forall k :: 0 <= k < |ms| ==> Representable(ms[k].value)
    ensures Build(stack, MemberEvents(flags, ms)) == Some(stack + Flat(ms))
    decreases ms, 0
  {
    hide Events, Representable, Build, Flat, MemberEvents;
    FlatCons(ms, stack);
    MemberEventsFrom(flags, ms);
    if ms == [] {
      BuildNone(stack);
    } else {
      var name, v := JString(ms[0].name), ms[0].value;
      BuildOne(stack, Key(ms[0].name));
      BuildEvents(flags, v, stack + [name]);
      BuildConcat(stack, [Key(ms[0].name)], Events(flags, v));
      BuildConcat(stack, [Key(ms[0].name)] + Events(flags, v), MemberEvents(flags, ms[1..]));
      BuildMembers(flags, ms[1..], stack + [name] + [v]);
    }
  }

  lemma FlatCons(ms: seq<Member>, stack: seq<Json>)
    ensures stack + Flat(ms) ==
      if ms == [] then stack else stack + [JString(ms[0].name)] + [ms[0].value] + Flat(ms[1..])
  {
  }

  lemma MemberEventsFrom(flags: Flags, ms: seq<Member>)
    ensures MemberEvents(flags, ms) ==
      if ms == [] then [] else [Key(ms[0].name)] + Events(flags, ms[0].value) + MemberEvents(flags, ms[1..])
  {
    hide Events;
  }

  lemma BuildNone(stack: seq<Json>)
    ensures Build(stack, []) == Some(stack)
  {
  }

  /** A handler that stores what it is sent. */
  class Document {
    var stack: seq<Json>

    constructor ()
      ensures stack == []
    {
      stack := [];
    }

    method Push(v: Json)
      modifies this
      ensures stack == old(stack) + [v]
    {
      stack := stack + [v];
    }

    /** The callback for an event that fits the stack. */
    method Handle(e: Event)
      requires Step(stack, e).Some?
      modifies this
      ensures Some(stack) == Step(old(stack), e)
    {
      match e {
        case Null => Push(JNull);
        case Bool(b) => Push(JBool(b));
        case Int(i) => Push(JNumber(i));
        case Uint(i) => Push(JNumber(i));
        case Int64(i) => Push(JNumber(i));
        case Uint64(i) => Push(JNumber(i));
        case Double(text) => Push(JDouble(text));
        case RawNumber(text) => Push(JString(text));
        case String(str) => Push(JString(str));
        case Key(str) => Push(JString(str));
        case StartArray => Push(JArray([]));
        case StartObject => Push(JObject([]));
        case EndArray(n) => EndArray(n);
        case EndObject(n) => EndObject(n);
      }
    }

    method EndArray(elementCount: nat)
      requires elementCount < |stack|
      modifies this
      ensures Some(stack) == Step(old(stack), Event.EndArray(elementCount))
    {
      var elements := stack[|stack| - elementCount..];
      stack := stack[..|stack| - elementCount];
      stack := stack[|stack| - 1 := JArray(elements)];
      assert stack == old(stack)[..|old(stack)| - elementCount - 1] + [JArray(elements)];
    }

    /** The names and values above the object become its members. */
    method EndObject(memberCount: nat)
      requires Step(stack, Event.EndObject(memberCount)).Some?
      modifies this
      ensures Some(stack) == Step(old(stack), Event.EndObject(memberCount))
    {
      var popped := stack[|stack| - 2 * memberCount..];
      var members: seq<Member>, i := [], 0;
      assert popped[0..] == popped && [] + Pairs(popped).value == Pairs(popped).value;
      while i < memberCount
        invariant i <= memberCount && stack == old(stack) && Pairs(popped[2 * i..]).Some?
        invariant Pairs(popped).value == members + Pairs(popped[2 * i..]).value
      {
        ghost var rest := popped[2 * i..];
        assert rest[2..] == popped[2 * (i + 1)..];
        var m := Member(popped[2 * i].str, popped[2 * i + 1]);
        Assoc(members, [m], Pairs(rest[2..]).value);
        members := members + [m];
        i := i + 1;
      }
      stack := stack[..|stack| - 2 * memberCount];
      stack := stack[|stack| - 1 := JObject(members)];
      assert popped[2 * i..] == [] && members + [] == members;
      assert stack == old(stack)[..|old(stack)| - 2 * memberCount - 1] + [JObject(members)];
    }
  }

  /** The value that a text is parsed into: none on a parse error. */
  function Loaded(src: Source): Option<Json> {
    match JsonReader.Parse(src)
    case Fail(_, _, _) => None
    case Ok(_, evs) =>
      match Build([], evs)
      case None => None
      case Some(stack) => if |stack| == 1 then Some(stack[0]) else None
  }

  /** Both readers load a text alike. */
  method ParseStream(src: Source, iterative: bool) returns (r: Option<Json>)
    ensures r == Loaded(src)
  {
    hide JsonReader.Parse, JsonMachine.IterativeParse, Step;
    JsonReports.SameLanguage(src);
    var reader := new JsonReaderClass.Reader(src);
    if iterative { reader.ParseIteratively(); } else { reader.Parse(); }
    if reader.error.Some? { return None; }
    var evs := reader.evs;
    var doc := new Document();
    var i := 0;
    while i < |evs|
      invariant i <= |evs| && Build(doc.stack, evs[i..]) == Build([], evs)
    {
      assert evs[i..][1..] == evs[i + 1..];
      if Step(doc.stack, evs[i]).None? { return None; }
      doc.Handle(evs[i]);
      i := i + 1;
    }
    r := if |doc.stack| == 1 then Some(doc.stack[0]) else None;
  }

  /** A value that is written, in either layout, and parsed again is the same value. */
  lemma WriteThenLoad(src: Source, f: Format, v: Json)
    requires JsonReader.Willing(src) && ValidFormat(f) && Readable(src, v) && !src.flags.numbersAsStrings
    requires src.text == Text(f, 0, v)
    ensures Loaded(src) == Some(v)
  {
    hide JsonReader.Parse, Text, Events;
    JsonRoundTrip.ReadBack(src, f, v);
    BuildEvents(src.flags, v, []);
    assert [] + [v] == [v];
  }
}
