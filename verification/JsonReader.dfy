/** RapidJSON's recursive-descent reader as a function of its input: GenericReader::Parse with
    ParseValue, ParseObject, ParseArray and the leaf parsers. */
module JsonReader {
  import opened JsonStream
  import JsonNumber
  import JsonString

  /** The position behind what was read and the events so far, or the error with its offset and
      the events the handler saw before it (a refused event included). */
  datatype Outcome =
    | Ok(pos: nat, evs: seq<Event>)
    | Fail(code: ErrorCode, off: nat, evs: seq<Event>)

  /** SizeType is 32 bits wide: counts wrap. */
  function Count(n: nat): nat {
    (n + 1) % 0x1_0000_0000
  }

  /** The handler refuses nothing. */
  ghost predicate Willing(src: Source) {
    forall evs :: src.accepts(evs)
  }

  /** A handler's refusal is the only cause of the error Termination. */
  predicate Honest(src: Source, r: Outcome) {
    r.Fail? && r.code == Termination ==> !src.accepts(r.evs)
  }

  /** Call the handler: go on at `pos`, or stop with the error at `off`. */
  function Emit(src: Source, evs: seq<Event>, e: Event, pos: nat, off: nat): Outcome {
    if src.accepts(evs + [e]) then Ok(pos, evs + [e]) else Fail(Termination, off, evs + [e])
  }

  /** The literal `word` at `p`; the error is reported where it stops matching. */
  function Word(s: string, p: nat, word: string, matched: nat): (r: Place)
    requires p <= |s| && matched <= |word| && '\0' !in word
    requires p + matched <= |s|
    ensures r.At? ==> r.pos == p + |word| <= |s|
    decreases |word| - matched
  {
    if matched == |word| then At(p + |word|)
    else if Peek(s, p + matched) == word[matched] then Word(s, p, word, matched + 1)
    else Broken(p + matched)
  }

  function WordEvent(src: Source, p: nat, evs: seq<Event>, word: string, e: Event): (r: Outcome)
    requires p <= |src.text| && '\0' !in word
    ensures r.Ok? ==> r.pos == p + |word| <= |src.text|
    ensures Honest(src, r)
  {
    match Word(src.text, p, word, 0)
    case Broken(off) => Fail(ValueInvalid, off, evs)
    case At(q) => Emit(src, evs, e, q, q)
  }

  function StringEvent(src: Source, p: nat, evs: seq<Event>, isKey: bool): (r: Outcome)
    requires p < |src.text|
    ensures r.Ok? ==> p < r.pos <= |src.text|
    ensures Honest(src, r)
  {
    match JsonString.Scan(src.text, p + 1, src.flags.escapedApostrophe, "")
    case BadString(code, off) => Fail(code, off, evs)
    case Scanned(text, end) => Emit(src, evs, if isKey then Key(text) else String(text), end, end)
  }

  function NumberEvent(src: Source, p: nat, evs: seq<Event>): (r: Outcome)
    requires p <= |src.text|
    ensures r.Ok? ==> p < r.pos <= |src.text|
    ensures Honest(src, r)
  {
    match JsonNumber.NumberAt(src, p)
    case NotNumber(code, off) => Fail(code, off, evs)
    case Number(e, end) => Emit(src, evs, e, end, p)
  }

  /** ParseValue on anything but an object or an array. */
  function Leaf(src: Source, p: nat, evs: seq<Event>): (r: Outcome)
    requires p <= |src.text|
    ensures r.Ok? ==> p < r.pos <= |src.text|
    ensures Honest(src, r)
  {
    match Peek(src.text, p)
    case 'n' => WordEvent(src, p, evs, "null", Null)
    case 't' => WordEvent(src, p, evs, "true", Bool(true))
    case 'f' => WordEvent(src, p, evs, "false", Bool(false))
    case '\"' => StringEvent(src, p, evs, false)
    case _ => NumberEvent(src, p, evs)
  }

  function SkipFrom(src: Source, p: nat): (r: Place)
    requires p <= |src.text|
    ensures r.At? ==> p <= r.pos <= |src.text|
  {
    Skip(src.text, src.flags.comments, p)
  }

  /** ParseValue. */
  function Value(src: Source, p: nat, evs: seq<Event>): (r: Outcome)
    requires p <= |src.text|
    ensures r.Ok? ==> p < r.pos <= |src.text|
    ensures Honest(src, r)
    decreases |src.text| - p, 2
  {
    if Peek(src.text, p) == '{' then Object(src, p, evs)
    else if Peek(src.text, p) == '[' then Array(src, p, evs)
    else Leaf(src, p, evs)
  }

  /** ParseArray. */
  function Array(src: Source, p: nat, evs: seq<Event>): (r: Outcome)
    requires p < |src.text|
    ensures r.Ok? ==> p < r.pos <= |src.text|
    ensures Honest(src, r)
    decreases |src.text| - p, 1
  {
    var start := evs + [StartArray];
    if !src.accepts(start) then Fail(Termination, p + 1, start)
    else
      match SkipFrom(src, p + 1)
      case Broken(off) => Fail(UnspecificSyntaxError, off, start)
      case At(q) =>
        if Peek(src.text, q) == ']' then Emit(src, start, EndArray(0), q + 1, q + 1)
        else Elements(src, q, 0, start)
  }

  /** The element at `p` and all that follow it, `n` elements having been read. */
  function Elements(src: Source, p: nat, n: nat, evs: seq<Event>): (r: Outcome)
    requires p <= |src.text|
    ensures r.Ok? ==> p < r.pos <= |src.text|
    ensures Honest(src, r)
    decreases |src.text| - p, 3
  {
    match Value(src, p, evs)
    case Fail(code, off, evs') => Fail(code, off, evs')
    case Ok(q, evs') => AfterElement(src, q, Count(n), evs')
  }

  /** Behind the `n`-th element. */
  function AfterElement(src: Source, q: nat, n: nat, evs: seq<Event>): (r: Outcome)
    requires q <= |src.text|
    ensures r.Ok? ==> q < r.pos <= |src.text|
    ensures Honest(src, r)
    decreases |src.text| - q, 0
  {
    match SkipFrom(src, q)
    case Broken(off) => Fail(UnspecificSyntaxError, off, evs)
    case At(c) =>
      if Peek(src.text, c) == ',' then
        match SkipFrom(src, c + 1)
        case Broken(off) => Fail(UnspecificSyntaxError, off, evs)
        case At(t) =>
          if src.flags.trailingCommas && Peek(src.text, t) == ']' then Emit(src, evs, EndArray(n), t + 1, t)
          else Elements(src, t, n, evs)
      else if Peek(src.text, c) == ']' then Emit(src, evs, EndArray(n), c + 1, c + 1)
      else Fail(ArrayMissCommaOrSquareBracket, c, evs)
  }

  /** ParseObject. */
  function Object(src: Source, p: nat, evs: seq<Event>): (r: Outcome)
    requires p < |src.text|
    ensures r.Ok? ==> p < r.pos <= |src.text|
    ensures Honest(src, r)
    decreases |src.text| - p, 1
  {
    var start := evs + [StartObject];
    if !src.accepts(start) then Fail(Termination, p + 1, start)
    else
      match SkipFrom(src, p + 1)
      case Broken(off) => Fail(UnspecificSyntaxError, off, start)
      case At(q) =>
        if Peek(src.text, q) == '}' then Emit(src, start, EndObject(0), q + 1, q + 1)
        else Members(src, q, 0, start)
  }

  /** The member at `p` and all that follow it, `n` members having been read. */
  function Members(src: Source, p: nat, n: nat, evs: seq<Event>): (r: Outcome)
    requires p <= |src.text|
    ensures r.Ok? ==> p < r.pos <= |src.text|
    ensures Honest(src, r)
    decreases |src.text| - p, 3
  {
    if Peek(src.text, p) != '\"' then Fail(ObjectMissName, p, evs)
    else
      match StringEvent(src, p, evs, true)
      case Fail(code, off, evs') => Fail(code, off, evs')
      case Ok(q, evs') =>
        match SkipFrom(src, q)
        case Broken(off) => Fail(UnspecificSyntaxError, off, evs')
        case At(c) =>
          if Peek(src.text, c) != ':' then Fail(ObjectMissColon, c, evs')
          else
            match SkipFrom(src, c + 1)
            case Broken(off) => Fail(UnspecificSyntaxError, off, evs')
            case At(v) => ValueOfMember(src, v, n, evs')
  }

  /** The value of a member at `v`. */
  function ValueOfMember(src: Source, v: nat, n: nat, evs: seq<Event>): (r: Outcome)
    requires v <= |src.text|
    ensures r.Ok? ==> v < r.pos <= |src.text|
    ensures Honest(src, r)
    decreases |src.text| - v, 3
  {
    match Value(src, v, evs)
    case Fail(code, off, evs') => Fail(code, off, evs')
    case Ok(q, evs') => AfterMember(src, q, Count(n), evs')
  }

  /** Behind the `n`-th member. */
  function AfterMember(src: Source, q: nat, n: nat, evs: seq<Event>): (r: Outcome)
    requires q <= |src.text|
    ensures r.Ok? ==> q < r.pos <= |src.text|
    ensures Honest(src, r)
    decreases |src.text| - q, 0
  {
    match SkipFrom(src, q)
    case Broken(off) => Fail(UnspecificSyntaxError, off, evs)
    case At(c) =>
      if Peek(src.text, c) == ',' then
        match SkipFrom(src, c + 1)
        case Broken(off) => Fail(UnspecificSyntaxError, off, evs)
        case At(t) =>
          if src.flags.trailingCommas && Peek(src.text, t) == '}' then Emit(src, evs, EndObject(n), t + 1, t)
          else Members(src, t, n, evs)
      else if Peek(src.text, c) == '}' then Emit(src, evs, EndObject(n), c + 1, c + 1)
      else Fail(ObjectMissCommaOrCurlyBracket, c, evs)
  }

  /** GenericReader::Parse without kParseIterativeFlag. */
  function Parse(src: Source): (r: Outcome)
    ensures Honest(src, r)
  {
    match SkipFrom(src, 0)
    case Broken(off) => Fail(UnspecificSyntaxError, off, [])
    case At(p) =>
      if Peek(src.text, p) == '\0' then Fail(DocumentEmpty, p, [])
      else
        match Value(src, p, [])
        case Fail(code, off, evs) => Fail(code, off, evs)
        case Ok(q, evs) =>
          if src.flags.stopWhenDone then Ok(q, evs)
          else
            match SkipFrom(src, q)
            case Broken(off) => Fail(UnspecificSyntaxError, off, evs)
            case At(end) =>
              if Peek(src.text, end) != '\0' then Fail(DocumentRootNotSingular, end, evs) else Ok(end, evs)
  }
}
