/** JSON values, the text the writers give them, and the events the reader gives that text. */
module JsonText {
  import Decimal
  import opened JsonStream
  import JsonNumber
  import NumberGrammar
  import JsonString

  /** A value. A number that is not an integer of 64 bits is kept by its text. */
  datatype Json =
    | JNull
    | JBool(b: bool)
    | JNumber(n: int)
    | JDouble(text: string)
    | JString(str: string)
    | JArray(elems: seq<Json>)
    | JObject(members: seq<Member>)

  datatype Member = Member(name: string, value: Json)

  /** What a value can be in memory: 64-bit integers, numbers that need floating point, and 32-bit sizes. */
  ghost predicate Representable(v: Json) {
    match v
    case JNumber(n) => -JsonNumber.TWO_63 <= n < JsonNumber.TWO_64
    case JDouble(text) => NumberGrammar.DoubleText(text)
    case JArray(es) => |es| < JsonNumber.TWO_32 && forall k :: 0 <= k < |es| ==> Representable(es[k])
    case JObject(ms) => |ms| < JsonNumber.TWO_32 && forall k :: 0 <= k < |ms| ==> Representable(ms[k].value)
    case _ => true
  }

  /** No number of the value is larger than the largest double. */
  predicate Finite(overflows: string -> bool, v: Json) {
    match v
    case JDouble(text) => !overflows(text)
    case JArray(es) => forall k :: 0 <= k < |es| ==> Finite(overflows, es[k])
    case JObject(ms) => forall k :: 0 <= k < |ms| ==> Finite(overflows, ms[k].value)
    case _ => true
  }

  /** A value that a reader with this floating-point conversion may come to hold. */
  ghost predicate Readable(src: Source, v: Json) {
    Representable(v) && Finite(src.overflows, v)
  }

  /** The layouts of Writer and of PrettyWriter. */
  datatype Format = Compact | Pretty(indentChar: char, indentCount: nat, singleLine: bool)

  predicate ValidFormat(f: Format) {
    f.Pretty? ==> f.indentChar == ' ' || f.indentChar == '\t' || f.indentChar == '\n' || f.indentChar == '\r'
  }

  function Repeat(c: char, n: nat): (r: string)
    ensures |r| == n && forall k :: 0 <= k < n ==> r[k] == c
  {
    seq(n, i => c)
  }

  /** A new line inside `depth` brackets; none in the compact layout. */
  function Break(f: Format, depth: nat): string {
    match f
    case Compact => ""
    case Pretty(c, n, _) => "\n" + Repeat(c, depth * n)
  }

  /** The same inside arrays, which may stay on one line. */
  function ArrayBreak(f: Format, depth: nat): string {
    if f.Pretty? && f.singleLine then "" else Break(f, depth)
  }

  function AfterComma(f: Format): string {
    if f.Pretty? && f.singleLine then " " else ""
  }

  function AfterColon(f: Format): string {
    if f.Pretty? then " " else ""
  }

  function NumberText(n: int): string {
    if n < 0 then "-" + Decimal.Print(-n) else Decimal.Print(n)
  }

  /** The text of a value written inside `depth` brackets. */
  function Text(f: Format, depth: nat, v: Json): string
    decreases v, 1
  {
    match v
    case JNull => "null"
    case JBool(b) => if b then "true" else "false"
    case JNumber(n) => NumberText(n)
    case JDouble(text) => text
    case JString(str) => JsonString.Quote(str)
    case JArray(es) => "[" + Elems(f, depth + 1, es, true) + ArrayEnd(f, depth, es == [])
    case JObject(ms) => "{" + Members(f, depth + 1, ms, true) + ObjectEnd(f, depth, ms == [])
  }

  function ArrayEnd(f: Format, depth: nat, empty: bool): string {
    (if empty then "" else ArrayBreak(f, depth)) + "]"
  }

  function ObjectEnd(f: Format, depth: nat, empty: bool): string {
    (if empty then "" else Break(f, depth)) + "}"
  }

  /** What is written before an element. */
  function ElemSep(f: Format, depth: nat, first: bool): string {
    (if first then "" else "," + AfterComma(f)) + ArrayBreak(f, depth)
  }

  function Elems(f: Format, depth: nat, es: seq<Json>, first: bool): string
    decreases es, 0
  {
    if es == [] then ""
    else ElemSep(f, depth, first) + (Text(f, depth, es[0]) + Elems(f, depth, es[1..], false))
  }

  /** What is written before the name of a member. */
  function MemberSep(f: Format, depth: nat, first: bool): string {
    (if first then "" else ",") + Break(f, depth)
  }

  function Members(f: Format, depth: nat, ms: seq<Member>, first: bool): string
    decreases ms, 0
  {
    if ms == [] then ""
    else
      MemberSep(f, depth, first) +
      (JsonString.Quote(ms[0].name) + ((":" + AfterColon(f)) +
      (Text(f, depth, ms[0].value) + Members(f, depth, ms[1..], false))))
  }

  /** The event for the literal of an integer. */
  function LiteralEvent(flags: Flags, n: int): Event {
    if flags.numbersAsStrings then RawNumber(NumberText(n))
    else JsonNumber.IntegerEvent(n < 0, if n < 0 then -n else n, NumberText(n))
  }

  /** The events for a value. */
  function Events(flags: Flags, v: Json): seq<Event>
    decreases v, 1
  {
    match v
    case JNull => [Null]
    case JBool(b) => [Bool(b)]
    case JNumber(n) => [LiteralEvent(flags, n)]
    case JDouble(text) => [if flags.numbersAsStrings then RawNumber(text) else Double(text)]
    case JString(str) => [String(str)]
    case JArray(es) => [StartArray] + ElemEvents(flags, es) + [EndArray(|es|)]
    case JObject(ms) => [StartObject] + MemberEvents(flags, ms) + [EndObject(|ms|)]
  }

  function ElemEvents(flags: Flags, es: seq<Json>): seq<Event>
    decreases es, 0
  {
    if es == [] then [] else Events(flags, es[0]) + ElemEvents(flags, es[1..])
  }

  function MemberEvents(flags: Flags, ms: seq<Member>): seq<Event>
    decreases ms, 0
  {
    if ms == [] then [] else [Key(ms[0].name)] + Events(flags, ms[0].value) + MemberEvents(flags, ms[1..])
  }
}
