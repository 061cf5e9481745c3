/** Writer and PrettyWriter: handlers that put JSON text on an output stream, keeping a stack of
    the open brackets. Visiting a value writes its text. */
module JsonWriter {
  import opened Common
  import opened JsonText
  import JsonNumber
  import JsonString
  import Itoa

  /** An open bracket and the number of values (names included) written inside it. */
  datatype Level = Level(inArray: bool, valueCount: nat)

  /** What is put in front of the next value or name. */
  function PrefixText(f: Format, levels: seq<Level>): string {
    if levels == [] then ""
    else
      var top := levels[|levels| - 1];
      if top.inArray then ElemSep(f, |levels|, top.valueCount == 0)
      else if top.valueCount % 2 == 0 then MemberSep(f, |levels|, top.valueCount == 0)
      else ":" + AfterColon(f)
  }

  /** The levels after one more value. */
  function Counted(levels: seq<Level>): seq<Level> {
    if levels == [] then []
    else
      var n := |levels| - 1;
      levels[..n] + [levels[n].(valueCount := levels[n].valueCount + 1)]
  }

  class Writer {
    const format: Format
    var out: string
    var levels: seq<Level>
    var hasRoot: bool

    constructor (format: Format)
      requires ValidFormat(format)
      ensures this.format == format && out == "" && levels == [] && !hasRoot
    {
      this.format := format;
      out, levels, hasRoot := "", [], false;
    }

    /** A value may be written here: it is the root, an element, or a member's value. */
    ghost predicate TakesValue()
      reads this
    {
      if levels == [] then !hasRoot
      else hasRoot && (levels[|levels| - 1].inArray || levels[|levels| - 1].valueCount % 2 == 1)
    }

    /** A name may be written here. */
    ghost predicate TakesName()
      reads this
    {
      hasRoot && levels != [] && !levels[|levels| - 1].inArray && levels[|levels| - 1].valueCount % 2 == 0
    }

    method Put(c: char)
      modifies this`out
      ensures out == old(out) + [c]
    {
      out := out + [c];
    }

    method PutText(w: string)
      modifies this`out
      ensures out == old(out) + w
    {
      var i := 0;
      while i < |w|
        invariant i <= |w| && out == old(out) + w[..i]
      {
        Put(w[i]);
        assert w[..i + 1] == w[..i] + [w[i]];
        i := i + 1;
      }
      assert w[..i] == w;
    }

    method WriteIndent()
      requires format.Pretty?
      modifies this`out
      ensures out == old(out) + Repeat(format.indentChar, |levels| * format.indentCount)
    {
      PutText(Repeat(format.indentChar, |levels| * format.indentCount));
    }

    /** Prefix of Writer, PrettyPrefix of PrettyWriter. */
    method Prefix(isName: bool)
      requires if isName then TakesName() else TakesValue()
      modifies this`out, this`levels, this`hasRoot
      ensures out == old(out) + PrefixText(format, old(levels))
      ensures levels == Counted(old(levels)) && hasRoot
    {
      hide Repeat;
      if levels == [] {
        hasRoot := true;
        assert out == out + "";
      } else {
        var top := levels[|levels| - 1];
        if format.Pretty? {
          PrettySeparator(top);
        } else if top.valueCount > 0 {
          Put(if top.inArray || top.valueCount % 2 == 0 then ',' else ':');
        }
        levels := levels[..|levels| - 1] + [top.(valueCount := top.valueCount + 1)];
      }
    }

    method PrettySeparator(top: Level)
      requires format.Pretty? && levels != [] && top == levels[|levels| - 1]
      requires !top.inArray && top.valueCount % 2 == 1 ==> top.valueCount > 0
      modifies this`out
      ensures out == old(out) + PrefixText(format, levels)
    {
      hide Repeat;
      if top.inArray {
        PrettyElement(top);
      } else {
        PrettyMember(top);
      }
    }

    method PrettyElement(top: Level)
      requires format.Pretty? && levels != [] && top == levels[|levels| - 1] && top.inArray
      modifies this`out
      ensures out == old(out) + PrefixText(format, levels)
    {
      hide Repeat;
      if top.valueCount > 0 {
        Put(',');
        if format.singleLine { Put(' '); }
      }
      if !format.singleLine {
        Put('\n');
        WriteIndent();
      }
    }

    method PrettyMember(top: Level)
      requires format.Pretty? && levels != [] && top == levels[|levels| - 1] && !top.inArray
      modifies this`out
      ensures out == old(out) + PrefixText(format, levels)
    {
      hide Repeat;
      if top.valueCount > 0 {
        if top.valueCount % 2 == 0 {
          Put(',');
          Put('\n');
        } else {
          Put(':');
          Put(' ');
        }
      } else {
        Put('\n');
      }
      if top.valueCount % 2 == 0 {
        WriteIndent();
      }
    }

    method WriteString(str: string)
      modifies this`out
      ensures out == old(out) + JsonString.Quote(str)
    {
      hide JsonString.EscapeAll, JsonString.Escape;
      Put('\"');
      var i := 0;
      while i < |str|
        invariant i <= |str|
        invariant out + JsonString.EscapeAll(str[i..]) == old(out) + ['\"'] + JsonString.EscapeAll(str)
      {
        JsonString.EscapeAllFrom(str, i);
        WriteChar(str[i]);
        i := i + 1;
      }
      JsonString.EscapeAllFrom(str, i);
      assert out == old(out) + ['\"'] + JsonString.EscapeAll(str);
      Put('\"');
    }

    method WriteChar(c: char)
      modifies this`out
      ensures out == old(out) + JsonString.Escape(c)
    {
      match JsonString.EscapeLetter(c) {
        case None => Put(c);
        case Some(letter) =>
          Put('\\');
          Put(letter);
          if letter == 'u' {
            Put('0');
            Put('0');
            Put(JsonString.HexDigit(c as int / 16));
            Put(JsonString.HexDigit(c as int % 16));
          }
      }
    }

    // ---- the handler ------------------------------------------------------------------------

    method Word(w: string)
      requires TakesValue()
      modifies this`out, this`levels, this`hasRoot
      ensures out == old(out) + PrefixText(format, old(levels)) + w
      ensures levels == Counted(old(levels)) && hasRoot
    {
      Prefix(false);
      PutText(w);
    }

    /** Int, Uint, Int64 and Uint64. */
    method Number(n: int)
      requires TakesValue() && -JsonNumber.TWO_63 <= n < JsonNumber.TWO_64
      modifies this`out, this`levels, this`hasRoot
      ensures out == old(out) + PrefixText(format, old(levels)) + NumberText(n)
      ensures levels == Counted(old(levels)) && hasRoot
    {
      Prefix(false);
      var w := Itoa.ToText(n);
      PutText(w);
    }

    method Str(str: string, isName: bool)
      requires if isName then TakesName() else TakesValue()
      modifies this`out, this`levels, this`hasRoot
      ensures out == old(out) + PrefixText(format, old(levels)) + JsonString.Quote(str)
      ensures levels == Counted(old(levels)) && hasRoot
    {
      Prefix(isName);
      WriteString(str);
    }

    /** StartArray and StartObject. */
    method Start(inArray: bool)
      requires TakesValue()
      modifies this`out, this`levels, this`hasRoot
      ensures out == old(out) + PrefixText(format, old(levels)) + (if inArray then "[" else "{")
      ensures levels == Counted(old(levels)) + [Level(inArray, 0)]
      ensures hasRoot
    {
      Prefix(false);
      levels := levels + [Level(inArray, 0)];
      Put(if inArray then '[' else '{');
    }

    /** EndArray and EndObject. */
    method End(inArray: bool)
      requires levels != [] && levels[|levels| - 1].inArray == inArray
      requires !inArray ==> levels[|levels| - 1].valueCount % 2 == 0
      modifies this`out, this`levels
      ensures levels == old(levels)[..|old(levels)| - 1]
      ensures
        var empty := old(levels)[|levels|].valueCount == 0;
        out == old(out) + if inArray then ArrayEnd(format, |levels|, empty) else ObjectEnd(format, |levels|, empty)
    {
      var empty := levels[|levels| - 1].valueCount == 0;
      levels := levels[..|levels| - 1];
      if format.Pretty? && !empty && !(inArray && format.singleLine) {
        Put('\n');
        WriteIndent();
      }
      Put(if inArray then ']' else '}');
    }

    // ---- GenericValue::Accept ---------------------------------------------------------------

    /** Visit a value: exactly its text is appended, and the levels are back as before, with one
        more value counted. */
    method Accept(v: Json)
      requires TakesValue() && Representable(v)
      modifies this`out, this`levels, this`hasRoot
      ensures out == old(out) + PrefixText(format, old(levels)) + Text(format, |old(levels)|, v)
      ensures levels == Counted(old(levels)) && hasRoot
      decreases v, 1
    {
      match v {
        case JNull => Word("null");
        case JBool(b) => Word(if b then "true" else "false");
        case JNumber(n) => Number(n);
        case JDouble(text) => Word(text);
        case JString(str) => Str(str, false);
        case JArray(es) => AcceptArray(es);
        case JObject(ms) => AcceptObject(ms);
      }
    }

    method AcceptArray(es: seq<Json>)
      requires TakesValue() && Representable(JArray(es))
      modifies this`out, this`levels, this`hasRoot
      ensures out == old(out) + PrefixText(format, old(levels)) + Text(format, |old(levels)|, JArray(es))
      ensures levels == Counted(old(levels)) && hasRoot
      decreases es, 1
    {
      hide PrefixText, ElemSep, ArrayEnd, Elems, Text;
      Start(true);
      AcceptElements(es);
      End(true);
      ArrayTextIs(format, |old(levels)|, es);
      Joined(old(out) + PrefixText(format, old(levels)),
        "[", Elems(format, |old(levels)| + 1, es, true), ArrayEnd(format, |old(levels)|, es == []));
    }

    /** The elements behind the opening bracket. */
    method AcceptElements(es: seq<Json>)
      requires Representable(JArray(es)) && levels != [] && levels[|levels| - 1] == Level(true, 0) && hasRoot
      modifies this`out, this`levels, this`hasRoot
      ensures out == old(out) + Elems(format, |old(levels)|, es, true)
      ensures levels == old(levels)[|old(levels)| - 1 := Level(true, |es|)] && hasRoot
      decreases es, 0
    {
      hide PrefixText, ElemSep, ArrayEnd, Elems, Text;
      ghost var d := |levels|;
      var i := 0;
      while i < |es|
        invariant i <= |es| && levels == old(levels)[d - 1 := Level(true, i)] && hasRoot
        invariant out + Elems(format, d, es[i..], i == 0) == old(out) + Elems(format, d, es, true)
      {
        ghost var before := out;
        ElementPrefix(format, levels);
        Accept(es[i]);
        ElemsFrom(format, d, es, i);
        Joined(before, ElemSep(format, d, i == 0), Text(format, d, es[i]), Elems(format, d, es[i + 1..], false));
        i := i + 1;
      }
      EmptyTail(format, d, es[i..], out);
    }

    /** The name and the value of one member. */
    method AcceptMember(m: Member)
      requires TakesName() && Representable(m.value)
      modifies this`out, this`levels, this`hasRoot
      ensures levels == Counted(Counted(old(levels))) && hasRoot
      ensures out == old(out) + MemberSep(format, |levels|, old(levels)[|levels| - 1].valueCount == 0) +
        JsonString.Quote(m.name) + (":" + AfterColon(format)) + Text(format, |levels|, m.value)
      decreases m, 0
    {
      hide PrefixText, MemberSep, Text, AfterColon, JsonString.Quote;
      NamePrefix(format, levels);
      Str(m.name, true);
      ValuePrefix(format, levels);
      Accept(m.value);
    }

    method AcceptObject(ms: seq<Member>)
      requires TakesValue() && Representable(JObject(ms))
      modifies this`out, this`levels, this`hasRoot
      ensures out == old(out) + PrefixText(format, old(levels)) + Text(format, |old(levels)|, JObject(ms))
      ensures levels == Counted(old(levels)) && hasRoot
      decreases ms, 1
    {
      hide PrefixText, MemberSep, ObjectEnd, Members, Text, Representable, Break;
      Start(false);
      AcceptMembers(ms);
      End(false);
      ObjectTextIs(format, |old(levels)|, ms);
      Joined(old(out) + PrefixText(format, old(levels)),
        "{", Members(format, |old(levels)| + 1, ms, true), ObjectEnd(format, |old(levels)|, ms == []));
    }

    /** The members behind the opening brace. */
    method AcceptMembers(ms: seq<Member>)
      requires Representable(JObject(ms)) && levels != [] && levels[|levels| - 1] == Level(false, 0) && hasRoot
      modifies this`out, this`levels, this`hasRoot
      ensures out == old(out) + Members(format, |old(levels)|, ms, true)
      ensures levels == old(levels)[|old(levels)| - 1 := Level(false, 2 * |ms|)] && hasRoot
      decreases ms, 0
    {
      hide PrefixText, MemberSep, ObjectEnd, Members, Text, AfterColon, JsonString.Quote;
      ghost var d := |levels|;
      var i := 0;
      while i < |ms|
        invariant i <= |ms| && levels == old(levels)[d - 1 := Level(false, 2 * i)] && hasRoot
        invariant out + Members(format, d, ms[i..], i == 0) == old(out) + Members(format, d, ms, true)
      {
        ghost var before := out;
        AcceptMember(ms[i]);
        MembersFrom(format, d, ms, i);
        MemberJoined(before, MemberSep(format, d, i == 0), JsonString.Quote(ms[i].name), ":" + AfterColon(format),
                     Text(format, d, ms[i].value), Members(format, d, ms[i + 1..], false));
        i := i + 1;
      }
      EmptyMembersTail(format, d, ms[i..], out);
    }
  }

  // ---- the pieces of a text -----------------------------------------------------------------

  lemma Joined(a: string, b: string, c: string, d: string)
    ensures a + b + c + d == a + (b + (c + d))
  {
  }

  lemma EmptyTail(f: Format, depth: nat, es: seq<Json>, out: string)
    requires es == []
    ensures out + Elems(f, depth, es, false) == out && out + Elems(f, depth, es, true) == out
  {
  }

  /** What is put in front of the element behind `n` others. */
  lemma ElementPrefix(f: Format, levels: seq<Level>)
    requires levels != [] && levels[|levels| - 1].inArray
    ensures PrefixText(f, levels) == ElemSep(f, |levels|, levels[|levels| - 1].valueCount == 0)
  {
  }

  lemma ElemsFrom(f: Format, depth: nat, es: seq<Json>, i: nat)
    requires i < |es|
    ensures Elems(f, depth, es[i..], i == 0) ==
      ElemSep(f, depth, i == 0) + (Text(f, depth, es[i]) + Elems(f, depth, es[i + 1..], false))
  {
    assert es[i..][1..] == es[i + 1..];
  }

  lemma ArrayTextIs(f: Format, depth: nat, es: seq<Json>)
    ensures Text(f, depth, JArray(es)) == "[" + (Elems(f, depth + 1, es, true) + ArrayEnd(f, depth, es == []))
  {
    Assoc("[", Elems(f, depth + 1, es, true), ArrayEnd(f, depth, es == []));
  }

  lemma MemberJoined(a: string, b: string, c: string, d: string, e: string, g: string)
    ensures a + b + c + d + e + g == a + (b + (c + (d + (e + g))))
  {
    Assoc(d, e, g);
    Assoc(c, d, e + g);
    Assoc(b, c, d + (e + g));
    Assoc(a, b, c + (d + (e + g)));
    Assoc(a + b, c, d + (e + g));
    Assoc(a + b + c, d, e + g);
    Assoc(a + b + c + d, e, g);
  }

  lemma EmptyMembersTail(f: Format, depth: nat, ms: seq<Member>, out: string)
    requires ms == []
    ensures out + Members(f, depth, ms, false) == out && out + Members(f, depth, ms, true) == out
  {
  }

  lemma NamePrefix(f: Format, levels: seq<Level>)
    requires levels != [] && !levels[|levels| - 1].inArray && levels[|levels| - 1].valueCount % 2 == 0
    ensures PrefixText(f, levels) == MemberSep(f, |levels|, levels[|levels| - 1].valueCount == 0)
  {
  }

  lemma ValuePrefix(f: Format, levels: seq<Level>)
    requires levels != [] && !levels[|levels| - 1].inArray && levels[|levels| - 1].valueCount % 2 == 1
    ensures PrefixText(f, levels) == ":" + AfterColon(f)
  {
  }

  lemma MembersFrom(f: Format, depth: nat, ms: seq<Member>, i: nat)
    requires i < |ms|
    ensures Members(f, depth, ms[i..], i == 0) ==
      MemberSep(f, depth, i == 0) + (JsonString.Quote(ms[i].name) + ((":" + AfterColon(f)) +
      (Text(f, depth, ms[i].value) + Members(f, depth, ms[i + 1..], false))))
  {
    assert ms[i..][1..] == ms[i + 1..];
  }

  lemma ObjectTextIs(f: Format, depth: nat, ms: seq<Member>)
    ensures Text(f, depth, JObject(ms)) == "{" + (Members(f, depth + 1, ms, true) + ObjectEnd(f, depth, ms == []))
  {
    Assoc("{", Members(f, depth + 1, ms, true), ObjectEnd(f, depth, ms == []));
  }
}
