/** The input side of RapidJSON's reader: a null-terminated character stream, the events a
    handler receives, the error codes, and the skipping of white space and comments. */
module JsonStream {

  /** One call on the handler. A number outside the integer ranges is reported with its text:
      its conversion to floating point is not modelled. */
  datatype Event =
    | Null
    | Bool(b: bool)
    | Int(i: int)
    | Uint(i: int)
    | Int64(i: int)
    | Uint64(i: int)
    | Double(text: string)
    | RawNumber(text: string)
    | String(str: string)
    | StartObject
    | Key(str: string)
    | EndObject(count: nat)
    | StartArray
    | EndArray(count: nat)

  datatype ErrorCode =
    | DocumentEmpty
    | DocumentRootNotSingular
    | ValueInvalid
    | ObjectMissName
    | ObjectMissColon
    | ObjectMissCommaOrCurlyBracket
    | ArrayMissCommaOrSquareBracket
    | StringUnicodeEscapeInvalidHex
    | StringUnicodeSurrogateInvalid
    | StringEscapeInvalid
    | StringMissQuotationMark
    | StringInvalidEncoding
    | NumberTooBig
    | NumberMissFraction
    | NumberMissExponent
    | Termination
    | UnspecificSyntaxError

  /** The parse flags that are modelled. */
  datatype Flags = Flags(stopWhenDone: bool, comments: bool, trailingCommas: bool,
                         numbersAsStrings: bool, escapedApostrophe: bool)

  /** Everything a parse depends on: the text, the flags, the handler's verdict on the events it
      has seen (the last one included), and the verdict of the floating-point conversion on the
      text of a number ("larger than the largest double"). */
  datatype Source = Source(text: string, flags: Flags,
                           accepts: seq<Event> -> bool, overflows: string -> bool)

  /** Past the end the stream reads as the null terminator. */
  function Peek(s: string, p: nat): char {
    if p < |s| then s[p] else '\0'
  }

  predicate IsSpace(c: char) {
    c == ' ' || c == '\n' || c == '\r' || c == '\t'
  }

  /** The position after the white space that starts at `p`. */
  function SkipSpace(s: string, p: nat): (q: nat)
    requires p <= |s|
    ensures p <= q <= |s| && !IsSpace(Peek(s, q))
    ensures forall k :: p <= k < q ==> IsSpace(s[k])
    decreases |s| - p
  {
    if IsSpace(Peek(s, p)) then SkipSpace(s, p + 1) else p
  }

  /** Where a position or an error was reached. */
  datatype Place = At(pos: nat) | Broken(off: nat)

  /** The end of a block comment whose body starts at `p`. */
  function BlockEnd(s: string, p: nat): (r: Place)
    requires p <= |s|
    ensures r.At? ==> p < r.pos <= |s|
    decreases |s| - p
  {
    if Peek(s, p) == '\0' then Broken(p)
    else if s[p] == '*' && Peek(s, p + 1) == '/' then At(p + 2)
    else BlockEnd(s, p + 1)
  }

  /** The end of a line comment whose body starts at `p`. */
  function LineEnd(s: string, p: nat): (q: nat)
    requires p <= |s|
    ensures p <= q <= |s|
    decreases |s| - p
  {
    if Peek(s, p) == '\0' then p
    else if s[p] == '\n' then p + 1
    else LineEnd(s, p + 1)
  }

  /** Comments, each with the white space behind it, from `p` on. */
  function SkipComments(s: string, p: nat): (r: Place)
    requires p <= |s|
    ensures r.At? ==> p <= r.pos <= |s|
    decreases |s| - p
  {
    if Peek(s, p) != '/' then At(p)
    else if Peek(s, p + 1) == '*' then
      match BlockEnd(s, p + 2)
      case Broken(off) => Broken(off)
      case At(q) => SkipComments(s, SkipSpace(s, q))
    else if Peek(s, p + 1) == '/' then
      SkipComments(s, SkipSpace(s, LineEnd(s, p + 2)))
    else Broken(p + 1)
  }

  lemma NoComment(s: string, p: nat)
    requires p <= |s|
    ensures Peek(s, p) != '/' ==> SkipComments(s, p) == At(p)
  {
  }

  /** SkipWhitespaceAndComments. */
  function Skip(s: string, comments: bool, p: nat): (r: Place)
    requires p <= |s|
    ensures r.At? ==> p <= r.pos <= |s|
  {
    if comments then SkipComments(s, SkipSpace(s, p)) else At(SkipSpace(s, p))
  }
}
