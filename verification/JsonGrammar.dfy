/** JSON texts as sections 2 to 7 of RFC 8259 spell them, what this reader's flags add, and what each
    text means. */
module JsonGrammar {
  import opened Decimal
  import opened JsonStream
  import opened NumberGrammar
  import Utf8

  /** What may stand between tokens: a blank or, with the flag, a comment. */
  datatype Piece = Blank(c: char) | Block(body: string) | Line(body: string)

  /** What a string is made of; a surrogate pair is one of them. */
  datatype Char = Plain(c: char) | Escape(letter: char) | Unit(hex: string) | Pair(high: string, low: string)

  /** A value as it is spelled. */
  datatype Syntax =
    | Name(text: string)
    | Numeral(parts: Parts)
    | Quoted(chars: seq<Char>)
    | List(items: seq<Item>, end: End)
    | Record(fields: seq<Field>, end: End)

  datatype Item = Item(before: seq<Piece>, value: Syntax, after: seq<Piece>)

  datatype Field = Field(before: seq<Piece>, name: seq<Char>, behind: seq<Piece>,
                         front: seq<Piece>, value: Syntax, after: seq<Piece>)

  /** What stands before a closing bracket: in an empty one white space, else nothing or, with the flag, a comma
      with white space behind it. */
  datatype End = End(comma: bool, gap: seq<Piece>)

  /** A whole text: a value, white space around it, and at the end perhaps a line comment that is not closed. */
  datatype Document = Document(before: seq<Piece>, root: Syntax, after: seq<Piece>, open: string)

  // ---- white space and comments ---------------------------------------------------------------

  predicate IsBlank(c: char) {
    c == ' ' || c == '\t' || c == '\n' || c == '\r'
  }

  predicate IsPiece(flags: Flags, g: Piece) {
    match g
    case Blank(c) => IsBlank(c)
    case Block(body) =>
      flags.comments && '\0' !in body && forall k :: 0 <= k < |body| - 1 ==> body[k] != '*' || body[k + 1] != '/'
    case Line(body) => flags.comments && '\0' !in body && '\n' !in body
  }

  predicate IsGap(flags: Flags, g: seq<Piece>) {
    forall k :: 0 <= k < |g| ==> IsPiece(flags, g[k])
  }

  function PieceText(g: Piece): string {
    match g
    case Blank(c) => [c]
    case Block(body) => "/*" + (body + "*/")
    case Line(body) => "//" + (body + "\n")
  }

  function GapText(g: seq<Piece>): string {
    if g == [] then "" else PieceText(g[0]) + GapText(g[1..])
  }

  // ---- strings --------------------------------------------------------------------------------

  predicate IsHex(c: char) {
    '0' <= c <= '9' || 'A' <= c <= 'F' || 'a' <= c <= 'f'
  }

  predicate IsHex4(w: string) {
    |w| == 4 && IsHex(w[0]) && IsHex(w[1]) && IsHex(w[2]) && IsHex(w[3])
  }

  predicate IsHigh(w: string) {
    IsHex4(w) && (w[0] == 'D' || w[0] == 'd') && w[1] in {'8', '9', 'A', 'B', 'a', 'b'}
  }

  predicate IsLow(w: string) {
    IsHex4(w) && (w[0] == 'D' || w[0] == 'd') && w[1] in {'C', 'D', 'E', 'F', 'c', 'd', 'e', 'f'}
  }

  predicate IsChar(flags: Flags, c: Char) {
    match c
    case Plain(c) => c as int >= 0x20 && c != '\"' && c != '\\'
    case Escape(e) =>
      e in {'\"', '\\', '/', 'b', 'f', 'n', 'r', 't'} || (flags.escapedApostrophe && e == '\'')
    case Unit(w) => IsHex4(w) && !IsHigh(w) && !IsLow(w)
    case Pair(high, low) => IsHigh(high) && IsLow(low)
  }

  predicate AreChars(flags: Flags, cs: seq<Char>) {
    forall k :: 0 <= k < |cs| ==> IsChar(flags, cs[k])
  }

  function CharText(c: Char): string {
    match c
    case Plain(c) => [c]
    case Escape(e) => ['\\', e]
    case Unit(w) => "\\u" + w
    case Pair(high, low) => "\\u" + (high + ("\\u" + low))
  }

  function CharsText(cs: seq<Char>): string {
    if cs == [] then "" else CharText(cs[0]) + CharsText(cs[1..])
  }

  function HexDigitValue(c: char): nat {
    if '0' <= c <= '9' then c as int - 48
    else if 'A' <= c <= 'F' then c as int - 55
    else if 'a' <= c <= 'f' then c as int - 87
    else 0
  }

  function Hex4Value(w: string): nat {
    if |w| != 4 then 0
    else 0x1000 * HexDigitValue(w[0]) + 0x100 * HexDigitValue(w[1]) + 0x10 * HexDigitValue(w[2]) + HexDigitValue(w[3])
  }

  /** A scalar value in UTF-8. */
  function Scalar(cp: int): string {
    if 0 <= cp < 0xD800 || 0xE000 <= cp <= 0x10FFFF then Utf8.Encode(cp) else ""
  }

  /** The character that an escape's letter stands for. */
  function Escaped(e: char): char {
    match e
    case 'b' => 8 as char
    case 'f' => 12 as char
    case 'n' => 10 as char
    case 'r' => 13 as char
    case 't' => 9 as char
    case _ => e
  }

  function CharMeaning(c: Char): string {
    match c
    case Plain(c) => [c]
    case Escape(e) => [Escaped(e)]
    case Unit(w) => Scalar(Hex4Value(w))
    case Pair(high, low) => Scalar(0x10000 + (Hex4Value(high) - 0xD800) * 0x400 + (Hex4Value(low) - 0xDC00))
  }

  function CharsMeaning(cs: seq<Char>): string {
    if cs == [] then "" else CharMeaning(cs[0]) + CharsMeaning(cs[1..])
  }

  // ---- values ---------------------------------------------------------------------------------

  /** A number that the reader can represent. */
  predicate IsNumeral(src: Source, n: Parts) {
    IsNumber(n) && !TooLarge(n) && (src.flags.numbersAsStrings || !NeedsDouble(n) || !src.overflows(Spelled(n)))
  }

  predicate IsEnd(flags: Flags, empty: bool, e: End) {
    IsGap(flags, e.gap) && (e.comma ==> flags.trailingCommas && !empty) && (e.gap != [] ==> empty || e.comma)
  }

  predicate IsValue(src: Source, t: Syntax)
    decreases t
  {
    match t
    case Name(w) => w in {"null", "true", "false"}
    case Numeral(n) => IsNumeral(src, n)
    case Quoted(cs) => AreChars(src.flags, cs)
    case List(items, end) =>
      IsEnd(src.flags, items == [], end) && forall k :: 0 <= k < |items| ==> IsItem(src, items[k])
    case Record(fields, end) =>
      IsEnd(src.flags, fields == [], end) && forall k :: 0 <= k < |fields| ==> IsField(src, fields[k])
  }

  predicate IsItem(src: Source, i: Item)
    decreases i
  {
    IsGap(src.flags, i.before) && IsValue(src, i.value) && IsGap(src.flags, i.after)
  }

  predicate IsField(src: Source, f: Field)
    decreases f
  {
    IsGap(src.flags, f.before) && AreChars(src.flags, f.name) && IsGap(src.flags, f.behind) &&
    IsGap(src.flags, f.front) && IsValue(src, f.value) && IsGap(src.flags, f.after)
  }

  function QuotedText(cs: seq<Char>): string {
    "\"" + (CharsText(cs) + "\"")
  }

  function EndText(e: End): string {
    (if e.comma then "," else "") + GapText(e.gap)
  }

  function ValueText(t: Syntax): string
    decreases t, 1
  {
    match t
    case Name(w) => w
    case Numeral(n) => Spelled(n)
    case Quoted(cs) => QuotedText(cs)
    case List(items, end) =>
      "[" + (if items == [] then EndText(end) + "]" else GapText(items[0].before) + FromItem(items, end))
    case Record(fields, end) =>
      "{" + (if fields == [] then EndText(end) + "}" else GapText(fields[0].before) + FromField(fields, end))
  }

  /** From the first of the items on, without the white space before it, to the end of the array. */
  function FromItem(items: seq<Item>, end: End): string
    requires items != []
    decreases items, 0
  {
    ValueText(items[0].value) + (GapText(items[0].after) + BehindItem(items[1..], end))
  }

  function BehindItem(items: seq<Item>, end: End): string
    decreases items, 1
  {
    if items == [] then EndText(end) + "]" else "," + (GapText(items[0].before) + FromItem(items, end))
  }

  function FromField(fields: seq<Field>, end: End): string
    requires fields != []
    decreases fields, 0
  {
    var f := fields[0];
    QuotedText(f.name) + (GapText(f.behind) + (":" + (GapText(f.front) + (ValueText(f.value) +
    (GapText(f.after) + BehindField(fields[1..], end))))))
  }

  function BehindField(fields: seq<Field>, end: End): string
    decreases fields, 1
  {
    if fields == [] then EndText(end) + "}" else "," + (GapText(fields[0].before) + FromField(fields, end))
  }

  // ---- what it means --------------------------------------------------------------------------

  function NumeralMeaning(flags: Flags, n: Parts): Event {
    var v := Value(n.digits);
    if flags.numbersAsStrings then RawNumber(Spelled(n))
    else if NeedsDouble(n) then Double(Spelled(n))
    else if n.minus == "-" then (if v <= 0x8000_0000 then Int(0 - v) else Int64(0 - v))
    else if v <= 0xFFFF_FFFF then Uint(v)
    else Uint64(v)
  }

  /** The calls on the handler; counts are kept in 32 bits. */
  function Meaning(flags: Flags, t: Syntax): seq<Event>
    decreases t, 1
  {
    match t
    case Name(w) => [if w == "null" then Null else Bool(w == "true")]
    case Numeral(n) => [NumeralMeaning(flags, n)]
    case Quoted(cs) => [String(CharsMeaning(cs))]
    case List(items, _) => [StartArray] + (ItemsMeaning(flags, items) + [EndArray(|items| % 0x1_0000_0000)])
    case Record(fields, _) => [StartObject] + (FieldsMeaning(flags, fields) + [EndObject(|fields| % 0x1_0000_0000)])
  }

  function ItemsMeaning(flags: Flags, items: seq<Item>): seq<Event>
    decreases items, 0
  {
    if items == [] then [] else Meaning(flags, items[0].value) + ItemsMeaning(flags, items[1..])
  }

  function FieldsMeaning(flags: Flags, fields: seq<Field>): seq<Event>
    decreases fields, 0
  {
    if fields == [] then []
    else [Key(CharsMeaning(fields[0].name))] + (Meaning(flags, fields[0].value) + FieldsMeaning(flags, fields[1..]))
  }

  // ---- whole texts ----------------------------------------------------------------------------

  /** A line comment that the text's end closes, or nothing. */
  predicate IsOpen(flags: Flags, w: string) {
    w != "" ==> flags.comments && |w| >= 2 && w[..2] == "//" && '\0' !in w && '\n' !in w
  }

  predicate IsDocument(src: Source, d: Document) {
    IsGap(src.flags, d.before) && IsValue(src, d.root) && IsGap(src.flags, d.after) && IsOpen(src.flags, d.open)
  }

  function DocumentText(d: Document): string {
    GapText(d.before) + (ValueText(d.root) + (GapText(d.after) + d.open))
  }
}
