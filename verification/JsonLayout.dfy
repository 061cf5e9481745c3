/** What the two writers put between the tokens: nothing the one, and the other exactly its line breaks,
    indentation and blanks. The scanner knows only quotes, backslashes, brackets, commas and colons. */
module JsonLayout {
  import opened Common
  import opened JsonText
  import opened NumberGrammar
  import JsonGrammar
  import JsonString
  import Decimal

  datatype Mode = Outside | Inside | Escaped

  function NextMode(m: Mode, c: char): Mode {
    match m
    case Outside => if c == '\"' then Inside else Outside
    case Inside => if c == '\"' then Outside else if c == '\\' then Escaped else Inside
    case Escaped => Inside
  }

  // ---- without the blanks -----------------------------------------------------------------------

  /** The text without its blanks outside strings. */
  function Bare(w: string, m: Mode): string {
    if w == "" then ""
    else (if m.Outside? && JsonGrammar.IsBlank(w[0]) then "" else [w[0]]) + Bare(w[1..], NextMode(m, w[0]))
  }

  function ModeAfter(w: string, m: Mode): Mode {
    if w == "" then m else ModeAfter(w[1..], NextMode(m, w[0]))
  }

  lemma {:induction false} BareConcat(a: string, b: string, m: Mode)
    ensures Bare(a + b, m) == Bare(a, m) + Bare(b, ModeAfter(a, m))
    ensures ModeAfter(a + b, m) == ModeAfter(b, ModeAfter(a, m))
    decreases |a|
  {
    if a == "" {
      assert a + b == b;
    } else {
      assert (a + b)[0] == a[0] && (a + b)[1..] == a[1..] + b;
      BareConcat(a[1..], b, NextMode(m, a[0]));
      var first := if m.Outside? && JsonGrammar.IsBlank(a[0]) then "" else [a[0]];
      Assoc(first, Bare(a[1..], NextMode(m, a[0])), Bare(b, ModeAfter(a, m)));
    }
  }

  /** `t` is what is left of `w`, and `w` closes the strings that it opens. */
  predicate Strips(w: string, t: string) {
    Bare(w, Outside) == t && ModeAfter(w, Outside) == Outside
  }

  lemma StripsConcat(v: string, w: string, s: string, t: string)
    requires Strips(v, s) && Strips(w, t)
    ensures Strips(v + w, s + t)
  {
    BareConcat(v, w, Outside);
  }

  lemma {:induction false} StripsBlanks(w: string)
    requires forall k :: 0 <= k < |w| ==> JsonGrammar.IsBlank(w[k])
    ensures Strips(w, "")
  {
    if w != "" { StripsBlanks(w[1..]); }
  }

  lemma {:induction false} StripsPlain(w: string)
    requires forall k :: 0 <= k < |w| ==> !JsonGrammar.IsBlank(w[k]) && w[k] != '\"'
    ensures Strips(w, w)
  {
    if w != "" {
      StripsPlain(w[1..]);
      assert [w[0]] + w[1..] == w;
    }
  }

  /** Inside a string nothing is lost. */
  lemma {:induction false} InsideKept(w: string, m: Mode)
    requires m.Inside? && forall k :: 0 <= k < |w| ==> w[k] != '\"' && w[k] != '\\'
    ensures Bare(w, m) == w && ModeAfter(w, m) == Inside
  {
    if w != "" {
      InsideKept(w[1..], m);
      assert [w[0]] + w[1..] == w;
    }
  }

  lemma BackslashKept(c: char)
    ensures Bare(['\\', c], Inside) == ['\\', c] && ModeAfter(['\\', c], Inside) == Inside
  {
    var w := ['\\', c];
    assert w[1..] == [c] && [c][1..] == "";
    assert Bare([c], Escaped) == [c] + "" && ModeAfter([c], Escaped) == Inside;
  }

  lemma EscapeKept(c: char)
    ensures Bare(JsonString.Escape(c), Inside) == JsonString.Escape(c)
    ensures ModeAfter(JsonString.Escape(c), Inside) == Inside
  {
    var w := JsonString.Escape(c);
    if JsonString.EscapeLetter(c).None? {
      InsideKept(w, Inside);
    } else {
      BareConcat(['\\', w[1]], w[2..], Inside);
      assert ['\\', w[1]] + w[2..] == w;
      BackslashKept(w[1]);
      InsideKept(w[2..], Inside);
    }
  }

  lemma {:induction false} EscapesKept(t: string)
    ensures Bare(JsonString.EscapeAll(t), Inside) == JsonString.EscapeAll(t)
    ensures ModeAfter(JsonString.EscapeAll(t), Inside) == Inside
  {
    hide JsonString.Escape, Bare, ModeAfter;
    if t == "" {
      InsideKept("", Inside);
    } else {
      EscapeKept(t[0]);
      EscapesKept(t[1..]);
      BareConcat(JsonString.Escape(t[0]), JsonString.EscapeAll(t[1..]), Inside);
    }
  }

  lemma StripsQuote(t: string)
    ensures Strips(JsonString.Quote(t), JsonString.Quote(t))
  {
    hide JsonString.EscapeAll;
    EscapesKept(t);
    BareConcat(['\"'] + JsonString.EscapeAll(t), ['\"'], Outside);
    BareConcat(['\"'], JsonString.EscapeAll(t), Outside);
  }

  lemma StripsNumber(n: Parts)
    requires IsNumber(n)
    ensures Strips(Spelled(n), Spelled(n))
  {
    hide Bare, ModeAfter;
    PlainParts(n);
    StripsPlain(n.minus);
    StripsPlain(n.digits);
    StripsPlain(n.frac);
    StripsPlain(n.exp);
    StripsConcat(n.minus, n.digits, n.minus, n.digits);
    StripsConcat(n.minus + n.digits, n.frac, n.minus + n.digits, n.frac);
    StripsConcat(n.minus + n.digits + n.frac, n.exp, n.minus + n.digits + n.frac, n.exp);
  }

  predicate Bland(w: string) {
    forall k :: 0 <= k < |w| ==> !JsonGrammar.IsBlank(w[k]) && w[k] != '\"'
  }

  lemma PlainParts(n: Parts)
    requires IsNumber(n)
    ensures Bland(n.minus) && Bland(n.digits) && Bland(n.frac) && Bland(n.exp)
  {
    forall k | 0 <= k < |n.frac| ensures !JsonGrammar.IsBlank(n.frac[k]) && n.frac[k] != '\"' {
      if k > 0 { assert n.frac[k] == n.frac[1..][k - 1]; }
    }
    forall k | 0 <= k < |n.exp| ensures !JsonGrammar.IsBlank(n.exp[k]) && n.exp[k] != '\"' {
      if k >= |Mark(n.exp)| { assert n.exp[k] == Power(n.exp)[k - |Mark(n.exp)|]; }
      else { assert n.exp[k] == Mark(n.exp)[k]; }
    }
  }

  // ---- values -----------------------------------------------------------------------------------

  lemma StripsNumberText(n: int)
    ensures Strips(NumberText(n), NumberText(n))
  {
    var m: nat := if n < 0 then -n else n;
    StripsPlain(NumberText(n));
  }

  lemma StripsBreaks(f: Format, depth: nat)
    requires ValidFormat(f)
    ensures Strips(Break(f, depth), "") && Strips(ArrayBreak(f, depth), "")
    ensures Strips(AfterComma(f), "") && Strips(AfterColon(f), "")
  {
    hide Bare, ModeAfter;
    StripsBlanks(Break(f, depth));
    StripsBlanks(ArrayBreak(f, depth));
    StripsBlanks(AfterComma(f));
    StripsBlanks(AfterColon(f));
  }

  lemma StripsChar(c: char)
    requires !JsonGrammar.IsBlank(c) && c != '\"'
    ensures Strips([c], [c])
  {
    StripsPlain([c]);
  }

  /** In every layout the text without its blanks is the compact text, which so has none. */
  lemma {:induction false} TextIsBare(f: Format, depth: nat, v: Json)
    requires ValidFormat(f) && Representable(v)
    ensures Strips(Text(f, depth, v), Text(Compact, 0, v))
    decreases v, 1
  {
    hide Strips, JsonString.Quote, NumberText, Elems, Members, ArrayEnd, ObjectEnd, DoubleText;
    match v
    case JNull => StripsPlain("null");
    case JBool(b) => StripsPlain(if b then "true" else "false");
    case JNumber(n) => StripsNumberText(n);
    case JDouble(text) => StripsDouble(text);
    case JString(str) => StripsQuote(str);
    case JArray(es) =>
      ElemsAreBare(f, depth + 1, es, true);
      StripsEnds(f, depth, es == []);
      StripsChar('[');
      StripsConcat("[", Elems(f, depth + 1, es, true), "[", Elems(Compact, 1, es, true));
      StripsConcat("[" + Elems(f, depth + 1, es, true), ArrayEnd(f, depth, es == []),
        "[" + Elems(Compact, 1, es, true), ArrayEnd(Compact, 0, es == []));
    case JObject(ms) =>
      MembersAreBare(f, depth + 1, ms, true);
      StripsEnds(f, depth, ms == []);
      StripsChar('{');
      StripsConcat("{", Members(f, depth + 1, ms, true), "{", Members(Compact, 1, ms, true));
      StripsConcat("{" + Members(f, depth + 1, ms, true), ObjectEnd(f, depth, ms == []),
        "{" + Members(Compact, 1, ms, true), ObjectEnd(Compact, 0, ms == []));
  }

  lemma StripsDouble(text: string)
    requires DoubleText(text)
    ensures Strips(text, text)
  {
    var n :| IsNumber(n) && text == Spelled(n) && NeedsDouble(n) && !TooLarge(n);
    StripsNumber(n);
  }

  lemma StripsEnds(f: Format, depth: nat, empty: bool)
    requires ValidFormat(f)
    ensures Strips(ArrayEnd(f, depth, empty), ArrayEnd(Compact, 0, empty))
    ensures Strips(ObjectEnd(f, depth, empty), ObjectEnd(Compact, 0, empty))
  {
    hide Strips, Break, ArrayBreak;
    StripsBreaks(f, depth);
    StripsChar(']');
    StripsChar('}');
    StripsBlanks("");
    CompactBreaks(0);
    StripsConcat(if empty then "" else ArrayBreak(f, depth), "]", "", "]");
    StripsConcat(if empty then "" else Break(f, depth), "}", "", "}");
  }

  lemma CompactBreaks(depth: nat)
    ensures Break(Compact, depth) == "" && ArrayBreak(Compact, depth) == "" && AfterComma(Compact) == ""
    ensures AfterColon(Compact) == ""
  {
  }

  lemma StripsSeps(f: Format, depth: nat, first: bool)
    requires ValidFormat(f)
    ensures Strips(ElemSep(f, depth, first), ElemSep(Compact, 1, first))
    ensures Strips(MemberSep(f, depth, first), MemberSep(Compact, 1, first))
    ensures Strips(":" + AfterColon(f), ":" + AfterColon(Compact))
  {
    hide Strips, Break, ArrayBreak, AfterComma, AfterColon;
    StripsBreaks(f, depth);
    StripsBlanks("");
    StripsChar(',');
    StripsChar(':');
    CompactBreaks(1);
    StripsConcat(",", AfterComma(f), ",", "");
    StripsConcat(":", AfterColon(f), ":", "");
    StripsConcat(if first then "" else "," + AfterComma(f), ArrayBreak(f, depth), if first then "" else "," + "", "");
    StripsConcat(if first then "" else ",", Break(f, depth), if first then "" else ",", "");
  }

  lemma {:induction false} ElemsAreBare(f: Format, depth: nat, es: seq<Json>, first: bool)
    requires ValidFormat(f) && forall k :: 0 <= k < |es| ==> Representable(es[k])
    ensures Strips(Elems(f, depth, es, first), Elems(Compact, 1, es, first))
    decreases es, 0
  {
    hide Strips, Text, ElemSep;
    if es == [] {
      StripsBlanks("");
    } else {
      var rest := es[1..];
      TextIsBare(f, depth, es[0]);
      TextOfCompact(1, es[0]);
      ElemsAreBare(f, depth, rest, false);
      StripsSeps(f, depth, first);
      StripsConcat(Text(f, depth, es[0]), Elems(f, depth, rest, false), Text(Compact, 0, es[0]),
        Elems(Compact, 1, rest, false));
      StripsConcat(ElemSep(f, depth, first), Text(f, depth, es[0]) + Elems(f, depth, rest, false),
        ElemSep(Compact, 1, first), Text(Compact, 0, es[0]) + Elems(Compact, 1, rest, false));
    }
  }

  lemma {:induction false} MembersAreBare(f: Format, depth: nat, ms: seq<Member>, first: bool)
    requires ValidFormat(f) && forall k :: 0 <= k < |ms| ==> Representable(ms[k].value)
    ensures Strips(Members(f, depth, ms, first), Members(Compact, 1, ms, first))
    decreases ms, 0
  {
    hide Strips, Text, MemberSep, JsonString.Quote, AfterColon;
    if ms == [] {
      StripsBlanks("");
    } else {
      var rest, name, c, d := ms[1..], JsonString.Quote(ms[0].name), ":" + AfterColon(f), ":" + AfterColon(Compact);
      TextIsBare(f, depth, ms[0].value);
      TextOfCompact(1, ms[0].value);
      MembersAreBare(f, depth, rest, false);
      StripsSeps(f, depth, first);
      StripsQuote(ms[0].name);
      var t, u := Text(f, depth, ms[0].value) + Members(f, depth, rest, false),
        Text(Compact, 0, ms[0].value) + Members(Compact, 1, rest, false);
      StripsConcat(Text(f, depth, ms[0].value), Members(f, depth, rest, false), Text(Compact, 0, ms[0].value),
        Members(Compact, 1, rest, false));
      StripsConcat(c, t, d, u);
      StripsConcat(name, c + t, name, d + u);
      StripsConcat(MemberSep(f, depth, first), name + (c + t), MemberSep(Compact, 1, first), name + (d + u));
    }
  }

  /** The compact text does not depend on the depth. */
  lemma {:induction false} TextOfCompact(depth: nat, v: Json)
    ensures Text(Compact, depth, v) == Text(Compact, 0, v)
    decreases v, 1
  {
    hide JsonString.Quote, NumberText, ElemSep, MemberSep;
    match v
    case JArray(es) => ElemsOfCompact(depth + 1, 1, es, true);
    case JObject(ms) => MembersOfCompact(depth + 1, 1, ms, true);
    case _ =>
  }

  lemma {:induction false} ElemsOfCompact(depth: nat, d: nat, es: seq<Json>, first: bool)
    ensures Elems(Compact, depth, es, first) == Elems(Compact, d, es, first)
    decreases es, 0
  {
    hide Text;
    if es != [] {
      TextOfCompact(depth, es[0]);
      TextOfCompact(d, es[0]);
      ElemsOfCompact(depth, d, es[1..], false);
    }
  }

  lemma {:induction false} MembersOfCompact(depth: nat, d: nat, ms: seq<Member>, first: bool)
    ensures Members(Compact, depth, ms, first) == Members(Compact, d, ms, first)
    decreases ms, 0
  {
    hide Text, JsonString.Quote;
    if ms != [] {
      TextOfCompact(depth, ms[0].value);
      TextOfCompact(d, ms[0].value);
      MembersOfCompact(depth, d, ms[1..], false);
    }
  }

  // ---- with the layout --------------------------------------------------------------------------

  /** What the scanner knows: whether it is in a string, the open brackets, and whether the last one was just
      opened. */
  datatype Place = Place(mode: Mode, open: string, first: bool)

  predicate Opens(c: char) {
    c == '[' || c == '{'
  }

  predicate Closes(c: char) {
    c == ']' || c == '}'
  }

  function Popped(open: string): string {
    if open == "" then "" else open[..|open| - 1]
  }

  function NextPlace(s: Place, c: char): Place {
    if !s.mode.Outside? then s.(mode := NextMode(s.mode, c))
    else if Opens(c) then Place(Outside, s.open + [c], true)
    else if Closes(c) then Place(Outside, Popped(s.open), false)
    else Place(NextMode(Outside, c), s.open, false)
  }

  predicate SingleLine(f: Format, open: string)
    requires f.Pretty?
  {
    f.singleLine && open != "" && open[|open| - 1] == '['
  }

  /** A new line, indented by so much for each open bracket. */
  function NewLine(f: Format, depth: nat): string
    requires f.Pretty?
  {
    ['\n'] + seq(depth * f.indentCount, i => f.indentChar)
  }

  /** A line break before the first thing in brackets, and before the bracket that closes them unless there is
      nothing in them; none in an array that is to stay on one line. */
  function LaidBefore(f: Format, s: Place, c: char): string
    requires f.Pretty?
  {
    if !s.mode.Outside? || s.first == Closes(c) || SingleLine(f, s.open) then ""
    else NewLine(f, if s.first then |s.open| else |Popped(s.open)|)
  }

  /** A line break behind a comma, or a blank in such an array; and a blank behind a colon. */
  function LaidBehind(f: Format, s: Place, c: char): string
    requires f.Pretty?
  {
    if !s.mode.Outside? then ""
    else if c == ',' then (if SingleLine(f, s.open) then " " else NewLine(f, |s.open|))
    else if c == ':' then " "
    else ""
  }

  /** A text without blanks, with the layout put in. */
  function Laid(f: Format, w: string, s: Place): string
    requires f.Pretty?
  {
    if w == "" then ""
    else LaidBefore(f, s, w[0]) + ([w[0]] + (LaidBehind(f, s, w[0]) + Laid(f, w[1..], NextPlace(s, w[0]))))
  }

  function PlaceAfter(w: string, s: Place): Place {
    if w == "" then s else PlaceAfter(w[1..], NextPlace(s, w[0]))
  }

  lemma {:induction false} LaidConcat(f: Format, a: string, b: string, s: Place)
    requires f.Pretty?
    ensures Laid(f, a + b, s) == Laid(f, a, s) + Laid(f, b, PlaceAfter(a, s))
    ensures PlaceAfter(a + b, s) == PlaceAfter(b, PlaceAfter(a, s))
    decreases |a|
  {
    hide LaidBefore, LaidBehind, NextPlace;
    if a == "" {
      assert a + b == b;
    } else {
      assert (a + b)[1..] == a[1..] + b;
      var t := NextPlace(s, a[0]);
      LaidConcat(f, a[1..], b, t);
      Assoc(LaidBehind(f, s, a[0]), Laid(f, a[1..], t), Laid(f, b, PlaceAfter(a, s)));
      Assoc([a[0]], LaidBehind(f, s, a[0]) + Laid(f, a[1..], t), Laid(f, b, PlaceAfter(a, s)));
      Assoc(LaidBefore(f, s, a[0]), [a[0]] + (LaidBehind(f, s, a[0]) + Laid(f, a[1..], t)),
        Laid(f, b, PlaceAfter(a, s)));
    }
  }

  /** At this place `w` is laid out as `t`, and it closes what it opens. */
  predicate LaysOut(f: Format, w: string, t: string, open: string)
    requires f.Pretty?
  {
    var s := Place(Outside, open, false);
    Laid(f, w, s) == t && PlaceAfter(w, s) == s
  }

  lemma LaysOutConcat(f: Format, v: string, w: string, s: string, t: string, open: string)
    requires f.Pretty? && LaysOut(f, v, s, open) && LaysOut(f, w, t, open)
    ensures LaysOut(f, v + w, s + t, open)
  {
    LaidConcat(f, v, w, Place(Outside, open, false));
  }

  predicate Quiet(c: char) {
    !Opens(c) && !Closes(c) && c != ',' && c != ':' && c != '\"'
  }

  lemma {:induction false} QuietLaysOut(f: Format, w: string, open: string)
    requires f.Pretty? && forall k :: 0 <= k < |w| ==> Quiet(w[k])
    ensures LaysOut(f, w, w, open)
  {
    if w != "" {
      QuietLaysOut(f, w[1..], open);
      assert [w[0]] + w[1..] == w;
    }
  }

  /** The text stays inside the string. */
  predicate Stays(w: string, m: Mode) {
    !m.Outside? && (w == "" || Stays(w[1..], NextMode(m, w[0])))
  }

  lemma {:induction false} StaysLaid(f: Format, w: string, s: Place)
    requires f.Pretty? && Stays(w, s.mode)
    ensures Laid(f, w, s) == w && PlaceAfter(w, s) == s.(mode := ModeAfter(w, s.mode))
    decreases |w|
  {
    if w != "" {
      StaysLaid(f, w[1..], NextPlace(s, w[0]));
      assert "" + ([w[0]] + ("" + w[1..])) == w;
    }
  }

  lemma {:induction false} StaysConcat(a: string, b: string, m: Mode)
    requires Stays(a, m) && Stays(b, ModeAfter(a, m))
    ensures Stays(a + b, m)
    decreases |a|
  {
    if a == "" {
      assert a + b == b;
    } else {
      assert (a + b)[1..] == a[1..] + b;
      StaysConcat(a[1..], b, NextMode(m, a[0]));
    }
  }

  lemma {:induction false} StaysPlain(w: string)
    requires forall k :: 0 <= k < |w| ==> w[k] != '\"' && w[k] != '\\'
    ensures Stays(w, Inside)
  {
    if w != "" { StaysPlain(w[1..]); }
  }

  lemma EscapeStays(c: char)
    ensures Stays(JsonString.Escape(c), Inside)
  {
    var w := JsonString.Escape(c);
    if JsonString.EscapeLetter(c).None? {
      StaysPlain(w);
    } else {
      assert ['\\', w[1]] + w[2..] == w;
      BackslashKept(w[1]);
      BackslashStays(w[1]);
      StaysPlain(w[2..]);
      StaysConcat(['\\', w[1]], w[2..], Inside);
    }
  }

  lemma BackslashStays(c: char)
    ensures Stays(['\\', c], Inside)
  {
    var w := ['\\', c];
    assert w[1..] == [c] && [c][1..] == "";
  }

  lemma {:induction false} EscapesStay(t: string)
    ensures Stays(JsonString.EscapeAll(t), Inside)
  {
    hide JsonString.Escape, Stays, ModeAfter;
    if t == "" {
      StaysPlain("");
    } else {
      EscapeStays(t[0]);
      EscapeKept(t[0]);
      EscapesStay(t[1..]);
      StaysConcat(JsonString.Escape(t[0]), JsonString.EscapeAll(t[1..]), Inside);
    }
  }

  lemma QuoteLaysOut(f: Format, t: string, open: string)
    requires f.Pretty?
    ensures LaysOut(f, JsonString.Quote(t), JsonString.Quote(t), open)
  {
    hide JsonString.EscapeAll;
    var inner, s, q := JsonString.EscapeAll(t), Place(Outside, open, false), Place(Inside, open, false);
    EscapesKept(t);
    EscapesStay(t);
    OneLaid(f, '\"', s);
    OneLaid(f, '\"', q);
    StaysLaid(f, inner, q);
    LaidConcat(f, ['\"'], inner, s);
    LaidConcat(f, ['\"'] + inner, ['\"'], s);
  }

  lemma OneLaid(f: Format, c: char, s: Place)
    requires f.Pretty?
    ensures Laid(f, [c], s) == LaidBefore(f, s, c) + ([c] + LaidBehind(f, s, c)) &&
            PlaceAfter([c], s) == NextPlace(s, c)
  {
    hide LaidBefore, LaidBehind, NextPlace;
    var t := NextPlace(s, c);
    assert [c][1..] == "" && LaidBehind(f, s, c) + Laid(f, "", t) == LaidBehind(f, s, c);
  }

  // ---- the pretty text ------------------------------------------------------------------------

  lemma NumberLaysOut(f: Format, n: Parts, open: string)
    requires f.Pretty? && IsNumber(n)
    ensures LaysOut(f, Spelled(n), Spelled(n), open)
  {
    hide LaysOut;
    QuietParts(n);
    QuietLaysOut(f, n.minus, open);
    QuietLaysOut(f, n.digits, open);
    QuietLaysOut(f, n.frac, open);
    QuietLaysOut(f, n.exp, open);
    LaysOutConcat(f, n.minus, n.digits, n.minus, n.digits, open);
    LaysOutConcat(f, n.minus + n.digits, n.frac, n.minus + n.digits, n.frac, open);
    LaysOutConcat(f, n.minus + n.digits + n.frac, n.exp, n.minus + n.digits + n.frac, n.exp, open);
  }

  predicate AllQuiet(w: string) {
    forall k :: 0 <= k < |w| ==> Quiet(w[k])
  }

  lemma QuietParts(n: Parts)
    requires IsNumber(n)
    ensures AllQuiet(n.minus) && AllQuiet(n.digits) && AllQuiet(n.frac) && AllQuiet(n.exp)
  {
    forall k | 0 <= k < |n.frac| ensures Quiet(n.frac[k]) {
      if k > 0 { assert n.frac[k] == n.frac[1..][k - 1]; }
    }
    forall k | 0 <= k < |n.exp| ensures Quiet(n.exp[k]) {
      if k >= |Mark(n.exp)| { assert n.exp[k] == Power(n.exp)[k - |Mark(n.exp)|]; }
      else { assert n.exp[k] == Mark(n.exp)[k]; }
    }
  }

  /** The pretty text is the compact one with the layout put in. */
  lemma {:induction false} TextIsLaid(f: Format, open: string, v: Json)
    requires f.Pretty? && Representable(v)
    ensures LaysOut(f, Text(Compact, 0, v), Text(f, |open|, v), open)
    decreases v, 3
  {
    hide LaysOut, JsonString.Quote, NumberText, Elems, Members, ArrayEnd, ObjectEnd, DoubleText;
    match v
    case JNull => QuietLaysOut(f, "null", open);
    case JBool(b) => QuietLaysOut(f, if b then "true" else "false", open);
    case JNumber(n) => QuietNumber(n); QuietLaysOut(f, NumberText(n), open);
    case JDouble(text) => DoubleLaysOut(f, text, open);
    case JString(str) => QuoteLaysOut(f, str, open);
    case JArray(es) => ArrayLaysOut(f, open, es);
    case JObject(ms) => ObjectLaysOut(f, open, ms);
  }

  lemma QuietNumber(n: int)
    ensures AllQuiet(NumberText(n))
  {
    var m: nat := if n < 0 then -n else n;
  }

  lemma DoubleLaysOut(f: Format, text: string, open: string)
    requires f.Pretty? && DoubleText(text)
    ensures LaysOut(f, text, text, open)
  {
    hide LaysOut;
    var n :| IsNumber(n) && text == Spelled(n) && NeedsDouble(n) && !TooLarge(n);
    NumberLaysOut(f, n, open);
  }

  /** Behind an opening bracket the first thing gets a line break before it. */
  lemma FirstLaid(f: Format, w: string, t: string, open: string)
    requires f.Pretty? && open != "" && w != "" && !Closes(w[0]) && LaysOut(f, w, t, open)
    ensures Laid(f, w, Place(Outside, open, true)) == (if SingleLine(f, open) then "" else NewLine(f, |open|)) + t
    ensures PlaceAfter(w, Place(Outside, open, true)) == Place(Outside, open, false)
  {
    var s, q := Place(Outside, open, true), Place(Outside, open, false);
    assert NextPlace(s, w[0]) == NextPlace(q, w[0]);
    assert LaidBehind(f, s, w[0]) == LaidBehind(f, q, w[0]) && LaidBefore(f, q, w[0]) == "";
    assert t == [w[0]] + (LaidBehind(f, q, w[0]) + Laid(f, w[1..], NextPlace(q, w[0])));
  }

  lemma BreaksAre(f: Format, depth: nat)
    requires f.Pretty?
    ensures Break(f, depth) == NewLine(f, depth)
    ensures ArrayBreak(f, depth) == if f.singleLine then "" else NewLine(f, depth)
  {
    assert Repeat(f.indentChar, depth * f.indentCount) == seq(depth * f.indentCount, i => f.indentChar);
  }

  lemma TextStarts(f: Format, depth: nat, v: Json)
    requires Representable(v)
    ensures Text(f, depth, v) != "" && !Closes(Text(f, depth, v)[0])
  {
    hide Elems, Members, ArrayEnd, ObjectEnd, JsonString.EscapeAll;
    if v.JDouble? {
      var n :| IsNumber(n) && v.text == Spelled(n) && NeedsDouble(n) && !TooLarge(n);
      assert Spelled(n)[0] == (n.minus + n.digits)[0];
    }
  }

  // ---- arrays and objects -----------------------------------------------------------------------

  lemma CommaLaysOut(f: Format, open: string)
    requires f.Pretty? && open != ""
    ensures open[|open| - 1] == '[' ==> LaysOut(f, ElemSep(Compact, 1, false), ElemSep(f, |open|, false), open)
    ensures open[|open| - 1] == '{' ==> LaysOut(f, MemberSep(Compact, 1, false), MemberSep(f, |open|, false), open)
    ensures LaysOut(f, ":" + AfterColon(Compact), ":" + AfterColon(f), open)
  {
    var s := Place(Outside, open, false);
    BreaksAre(f, |open|);
    CompactBreaks(1);
    OneLaid(f, ',', s);
    OneLaid(f, ':', s);
    assert ElemSep(Compact, 1, false) == "," && MemberSep(Compact, 1, false) == "," && ":" + AfterColon(Compact) == ":";
  }

  lemma {:induction false} ElemsLayOut(f: Format, open: string, es: seq<Json>)
    requires f.Pretty? && open != "" && open[|open| - 1] == '[' && forall k :: 0 <= k < |es| ==> Representable(es[k])
    ensures LaysOut(f, Elems(Compact, 1, es, false), Elems(f, |open|, es, false), open)
    decreases es, 1
  {
    hide LaysOut, Text, ElemSep, AfterColon, MemberSep;
    if es == [] {
      QuietLaysOut(f, "", open);
    } else {
      CommaLaysOut(f, open);
      FirstElemLaysOut(f, open, es);
      LaysOutConcat(f, ElemSep(Compact, 1, false), Text(Compact, 1, es[0]) + Elems(Compact, 1, es[1..], false),
        ElemSep(f, |open|, false), Text(f, |open|, es[0]) + Elems(f, |open|, es[1..], false), open);
    }
  }

  lemma {:induction false} FirstElemLaysOut(f: Format, open: string, es: seq<Json>)
    requires f.Pretty? && open != "" && open[|open| - 1] == '['
    requires es != [] && forall k :: 0 <= k < |es| ==> Representable(es[k])
    ensures LaysOut(f, Text(Compact, 1, es[0]) + Elems(Compact, 1, es[1..], false),
                    Text(f, |open|, es[0]) + Elems(f, |open|, es[1..], false), open)
    decreases es, 0
  {
    hide LaysOut, Text, Elems;
    TextIsLaid(f, open, es[0]);
    TextOfCompact(1, es[0]);
    ElemsLayOut(f, open, es[1..]);
    LaysOutConcat(f, Text(Compact, 1, es[0]), Elems(Compact, 1, es[1..], false),
      Text(f, |open|, es[0]), Elems(f, |open|, es[1..], false), open);
  }

  /** From the opening bracket to the closing one: `w` is what stands between them without the layout. */
  lemma BracketsLaid(f: Format, open: string, c: char, d: char, w: string, t: string)
    requires f.Pretty? && Opens(c) && Closes(d) && w != "" && !Closes(w[0]) && LaysOut(f, w, t, open + [c])
    ensures var br := if SingleLine(f, open + [c]) then "" else NewLine(f, |open| + 1);
            var end := if SingleLine(f, open + [c]) then "" else NewLine(f, |open|);
            LaysOut(f, [c] + w + [d], [c] + (br + t) + (end + [d]), open)
  {
    hide NewLine, SingleLine, Laid, PlaceAfter, LaidBefore, LaidBehind, NextPlace;
    var s, inner := Place(Outside, open, false), open + [c];
    OpeningLaid(f, open, c);
    FirstLaid(f, w, t, inner);
    ClosingLaid(f, open, c, d);
    LaidConcat(f, [c], w, s);
    LaidConcat(f, [c] + w, [d], s);
  }

  lemma OpeningLaid(f: Format, open: string, c: char)
    requires f.Pretty? && Opens(c)
    ensures Laid(f, [c], Place(Outside, open, false)) == [c]
    ensures PlaceAfter([c], Place(Outside, open, false)) == Place(Outside, open + [c], true)
  {
    OneLaid(f, c, Place(Outside, open, false));
  }

  lemma ClosingLaid(f: Format, open: string, c: char, d: char)
    requires f.Pretty? && Closes(d)
    ensures Laid(f, [d], Place(Outside, open + [c], false)) ==
            (if SingleLine(f, open + [c]) then "" else NewLine(f, |open|)) + [d]
    ensures PlaceAfter([d], Place(Outside, open + [c], false)) == Place(Outside, open, false)
  {
    hide NewLine, SingleLine;
    OneLaid(f, d, Place(Outside, open + [c], false));
    assert Popped(open + [c]) == open;
  }

  lemma NothingLaid(f: Format, open: string, c: char, d: char)
    requires f.Pretty? && Opens(c) && Closes(d)
    ensures LaysOut(f, [c] + [d], [c] + [d], open)
  {
    var s := Place(Outside, open, false);
    OneLaid(f, c, s);
    OneLaid(f, d, Place(Outside, open + [c], true));
    assert Popped(open + [c]) == open;
    LaidConcat(f, [c], [d], s);
  }

  lemma {:induction false} ArrayLaysOut(f: Format, open: string, es: seq<Json>)
    requires f.Pretty? && Representable(JArray(es))
    ensures LaysOut(f, Text(Compact, 0, JArray(es)), Text(f, |open|, JArray(es)), open)
    decreases es, 2
  {
    hide LaysOut, Elems, ElemSep, ArrayBreak, NewLine;
    CompactBreaks(0);
    if es == [] {
      NothingLaid(f, open, '[', ']');
      EmptyBrackets(f, |open|);
      EmptyBrackets(Compact, 0);
    } else {
      var inner, w, t := open + "[", Text(Compact, 1, es[0]) + Elems(Compact, 1, es[1..], false),
        Text(f, |open| + 1, es[0]) + Elems(f, |open| + 1, es[1..], false);
      FirstElemLaysOut(f, inner, es);
      TextStarts(Compact, 1, es[0]);
      assert w[0] == Text(Compact, 1, es[0])[0];
      BracketsLaid(f, open, '[', ']', w, t);
      BreaksAre(f, |open|);
      BreaksAre(f, |open| + 1);
      FirstElems(f, |open| + 1, es);
      FirstElems(Compact, 1, es);
      CompactBreaks(1);
      assert "" + w == w && "" + "]" == "]";
    }
  }

  lemma EmptyBrackets(f: Format, depth: nat)
    ensures Text(f, depth, JArray([])) == ['['] + [']'] && Text(f, depth, JObject([])) == ['{'] + ['}']
  {
  }

  lemma FirstElems(f: Format, depth: nat, es: seq<Json>)
    requires es != []
    ensures Elems(f, depth, es, true) ==
            ArrayBreak(f, depth) + (Text(f, depth, es[0]) + Elems(f, depth, es[1..], false))
  {
    hide Text, ArrayBreak;
    assert "" + ArrayBreak(f, depth) == ArrayBreak(f, depth);
  }

  /** A member without what stands before it, and those behind it. */
  function FirstMember(f: Format, depth: nat, ms: seq<Member>): string
    requires ms != []
  {
    JsonString.Quote(ms[0].name) +
    ((":" + AfterColon(f)) + (Text(f, depth, ms[0].value) + Members(f, depth, ms[1..], false)))
  }

  lemma MembersAre(f: Format, depth: nat, ms: seq<Member>, first: bool)
    requires ms != []
    ensures Members(f, depth, ms, first) == MemberSep(f, depth, first) + FirstMember(f, depth, ms)
    ensures MemberSep(f, depth, true) == Break(f, depth)
  {
    hide Text, Break, JsonString.Quote, AfterColon;
    assert "" + Break(f, depth) == Break(f, depth);
  }

  lemma {:induction false} MembersLayOut(f: Format, open: string, ms: seq<Member>)
    requires f.Pretty? && open != "" && open[|open| - 1] == '{'
    requires forall k :: 0 <= k < |ms| ==> Representable(ms[k].value)
    ensures LaysOut(f, Members(Compact, 1, ms, false), Members(f, |open|, ms, false), open)
    decreases ms, 1
  {
    hide LaysOut, MemberSep, FirstMember, AfterColon, ElemSep;
    if ms == [] {
      QuietLaysOut(f, "", open);
    } else {
      hide Members;
      CommaLaysOut(f, open);
      FirstMemberLaysOut(f, open, ms);
      MembersAre(f, |open|, ms, false);
      MembersAre(Compact, 1, ms, false);
      LaysOutConcat(f, MemberSep(Compact, 1, false), FirstMember(Compact, 1, ms),
        MemberSep(f, |open|, false), FirstMember(f, |open|, ms), open);
    }
  }

  lemma {:induction false} FirstMemberLaysOut(f: Format, open: string, ms: seq<Member>)
    requires f.Pretty? && open != "" && open[|open| - 1] == '{' && ms != []
    requires forall k :: 0 <= k < |ms| ==> Representable(ms[k].value)
    ensures LaysOut(f, FirstMember(Compact, 1, ms), FirstMember(f, |open|, ms), open)
    decreases ms, 0
  {
    hide LaysOut, Text, Members, AfterColon, JsonString.Quote, ElemSep, MemberSep;
    var name, c, d := JsonString.Quote(ms[0].name), ":" + AfterColon(Compact), ":" + AfterColon(f);
    TextIsLaid(f, open, ms[0].value);
    TextOfCompact(1, ms[0].value);
    MembersLayOut(f, open, ms[1..]);
    CommaLaysOut(f, open);
    QuoteLaysOut(f, ms[0].name, open);
    var t, u := Text(Compact, 1, ms[0].value) + Members(Compact, 1, ms[1..], false),
      Text(f, |open|, ms[0].value) + Members(f, |open|, ms[1..], false);
    LaysOutConcat(f, Text(Compact, 1, ms[0].value), Members(Compact, 1, ms[1..], false),
      Text(f, |open|, ms[0].value), Members(f, |open|, ms[1..], false), open);
    LaysOutConcat(f, c, t, d, u, open);
    LaysOutConcat(f, name, c + t, name, d + u, open);
  }

  lemma {:induction false} ObjectLaysOut(f: Format, open: string, ms: seq<Member>)
    requires f.Pretty? && Representable(JObject(ms))
    ensures LaysOut(f, Text(Compact, 0, JObject(ms)), Text(f, |open|, JObject(ms)), open)
    decreases ms, 2
  {
    hide LaysOut, Members, MemberSep, Break, NewLine, FirstMember;
    CompactBreaks(0);
    if ms == [] {
      NothingLaid(f, open, '{', '}');
      EmptyBrackets(f, |open|);
      EmptyBrackets(Compact, 0);
    } else {
      var inner, w, t := open + "{", FirstMember(Compact, 1, ms), FirstMember(f, |open| + 1, ms);
      FirstMemberLaysOut(f, inner, ms);
      MemberStarts(ms);
      BracketsLaid(f, open, '{', '}', w, t);
      BreaksAre(f, |open|);
      BreaksAre(f, |open| + 1);
      MembersAre(f, |open| + 1, ms, true);
      MembersAre(Compact, 1, ms, true);
      CompactBreaks(1);
      assert "" + w == w && "" + "}" == "}";
    }
  }

  lemma MemberStarts(ms: seq<Member>)
    requires ms != []
    ensures FirstMember(Compact, 1, ms) != "" && FirstMember(Compact, 1, ms)[0] == '\"'
  {
    hide Text, Members, JsonString.EscapeAll;
  }

  // ---- the theorems -----------------------------------------------------------------------------

  /** The compact text has no blank outside strings, and a pretty text without its blanks is the compact one. */
  lemma CompactIsBare(f: Format, v: Json)
    requires ValidFormat(f) && Representable(v)
    ensures Bare(Text(Compact, 0, v), Outside) == Text(Compact, 0, v)
    ensures Bare(Text(f, 0, v), Outside) == Text(Compact, 0, v)
  {
    TextIsBare(f, 0, v);
    TextIsBare(Compact, 0, v);
  }

  /** A pretty text is the compact one with the layout put in: a line break behind each opening bracket and
      each comma and before each closing bracket, indented by the open brackets, none in brackets with nothing
      in them or, if so wanted, in arrays; and a blank behind each colon. */
  lemma PrettyIsLaid(f: Format, v: Json)
    requires f.Pretty? && Representable(v)
    ensures Text(f, 0, v) == Laid(f, Text(Compact, 0, v), Place(Outside, "", false))
  {
    TextIsLaid(f, "", v);
  }
}
