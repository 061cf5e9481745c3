/** Why a text is refused: the reader's error names what is missing or wrong behind what the grammar has up
    to there, and the place of it. */
module JsonErrors {
  import opened Common
  import opened JsonStream
  import opened NumberGrammar
  import opened JsonGrammar
  import opened JsonTokens
  import opened JsonReader
  import opened JsonParses
  import opened JsonLanguage
  import JsonNumber
  import JsonString
  import NumberLanguage

  // ---- what can be wrong ------------------------------------------------------------------------

  /** A comment that is neither, or that is not closed. */
  ghost predicate WrongComment(src: Source, q: nat, code: ErrorCode, off: nat) {
    src.flags.comments && Peek(src.text, q) == '/' && code == UnspecificSyntaxError &&
    if Peek(src.text, q + 1) == '*' then
      exists body :: Stands(src.text, q + 2, body) && '\0' !in body && off == q + 2 + |body| &&
        Peek(src.text, off) == '\0' && forall k :: 0 <= k < |body| - 1 ==> body[k] != '*' || body[k + 1] != '/'
    else Peek(src.text, q + 1) != '/' && off == q + 1
  }

  /** An escape that is none; its place is the backslash's. */
  predicate WrongEscape(src: Source, q: nat, code: ErrorCode) {
    var e, w := Peek(src.text, q + 1), Four(src.text, q + 2);
    Peek(src.text, q) == '\\' &&
    if e != 'u' then code == StringEscapeInvalid && !IsChar(src.flags, Escape(e))
    else if !IsHex4(w) then code == StringUnicodeEscapeInvalidHex
    else if IsLow(w) then code == StringUnicodeSurrogateInvalid
    else
      IsHigh(w) &&
      if Peek(src.text, q + 6) != '\\' || Peek(src.text, q + 7) != 'u' then code == StringUnicodeSurrogateInvalid
      else if !IsHex4(Four(src.text, q + 8)) then code == StringUnicodeEscapeInvalidHex
      else code == StringUnicodeSurrogateInvalid && !IsLow(Four(src.text, q + 8))
  }

  function Four(s: string, q: nat): string {
    [Peek(s, q), Peek(s, q + 1), Peek(s, q + 2), Peek(s, q + 3)]
  }

  /** Behind some characters the string goes wrong. */
  ghost predicate WrongString(src: Source, p: nat, code: ErrorCode, off: nat) {
    Peek(src.text, p) == '\"' &&
    exists cs: seq<Char> ::
      AreChars(src.flags, cs) && Stands(src.text, p + 1, CharsText(cs)) && off == p + 1 + |CharsText(cs)| &&
      (WrongEscape(src, off, code) ||
       (Peek(src.text, off) as int < 0x20 &&
        code == if Peek(src.text, off) == '\0' then StringMissQuotationMark else StringInvalidEncoding))
  }

  /** One of the three words breaks off. */
  predicate WrongWord(s: string, p: nat, w: string, code: ErrorCode, off: nat) {
    p < off < p + |w| && Stands(s, p, w[..off - p]) && Peek(s, off) != w[off - p] && code == ValueInvalid
  }

  /** The value at `p` is no word, no string and no number. */
  ghost predicate WrongLeaf(src: Source, p: nat, code: ErrorCode, off: nat) {
    match Peek(src.text, p)
    case 'n' => WrongWord(src.text, p, "null", code, off)
    case 't' => WrongWord(src.text, p, "true", code, off)
    case 'f' => WrongWord(src.text, p, "false", code, off)
    case '\"' => WrongString(src, p, code, off)
    case c =>
      c != '[' && c != '{' &&
      (NumberLanguage.Misses(src.text, p, code, off) ||
       (code == NumberTooBig && off == p &&
        exists n :: NumberLanguage.Reads(src.text, p, n) && !TooLarge(n) && !IsNumeral(src, n)))
  }

  // ---- where it can be --------------------------------------------------------------------------

  /** How far a value was read: to its own start; into an array, behind complete items and perhaps a comma, in
      the next item, at it or behind the last; or into an object, the same with fields, at a name, a colon, or a
      value. `open` is a line comment that the text's end closes. */
  datatype Stop =
    | Here
    | InItem(items: seq<Item>, gap: seq<Piece>, open: string, inner: Stop)
    | AtItem(items: seq<Item>, gap: seq<Piece>)
    | AfterItem(items: seq<Item>, open: string)
    | AtName(fields: seq<Field>, gap: seq<Piece>, open: string)
    | AtColon(fields: seq<Field>, gap: seq<Piece>, name: seq<Char>, behind: seq<Piece>, open: string)
    | AtValue(fields: seq<Field>, gap: seq<Piece>, name: seq<Char>, behind: seq<Piece>, front: seq<Piece>)
    | InValue(fields: seq<Field>, gap: seq<Piece>, name: seq<Char>, behind: seq<Piece>, front: seq<Piece>,
              open: string, inner: Stop)
    | AfterField(fields: seq<Field>, open: string)

  /** Items with commas between them. */
  function ItemsText(items: seq<Item>): string {
    if items == [] then ""
    else
      var n := |items| - 1;
      (if n == 0 then "" else ItemsText(items[..n]) + ",") +
      (GapText(items[n].before) + (ValueText(items[n].value) + GapText(items[n].after)))
  }

  function FieldsText(fields: seq<Field>): string {
    if fields == [] then ""
    else
      var n := |fields| - 1;
      var f := fields[n];
      (if n == 0 then "" else FieldsText(fields[..n]) + ",") +
      (GapText(f.before) + (QuotedText(f.name) + (GapText(f.behind) + (":" + (GapText(f.front) +
      (ValueText(f.value) + GapText(f.after)))))))
  }

  /** An array up to where an item starts. */
  function ListStart(items: seq<Item>, gap: seq<Piece>): string {
    "[" + (ItemsText(items) + (if items == [] then "" else ",")) + GapText(gap)
  }

  /** An object up to where a name starts. */
  function RecordStart(fields: seq<Field>, gap: seq<Piece>): string {
    "{" + (FieldsText(fields) + (if fields == [] then "" else ",")) + GapText(gap)
  }

  function ToColon(fields: seq<Field>, gap: seq<Piece>, name: seq<Char>, behind: seq<Piece>): string {
    RecordStart(fields, gap) + QuotedText(name) + GapText(behind)
  }

  function ToValue(fields: seq<Field>, gap: seq<Piece>, name: seq<Char>, behind: seq<Piece>,
      front: seq<Piece>): string {
    ToColon(fields, gap, name, behind) + ":" + GapText(front)
  }

  /** What was read, but for the innermost value that is wrong. */
  function StopText(x: Stop): string {
    match x
    case Here => ""
    case InItem(items, gap, open, inner) => ListStart(items, gap) + open + StopText(inner)
    case AtItem(items, gap) => ListStart(items, gap)
    case AfterItem(items, open) => "[" + ItemsText(items) + open
    case AtName(fields, gap, open) => RecordStart(fields, gap) + open
    case AtColon(fields, gap, name, behind, open) => ToColon(fields, gap, name, behind) + open
    case AtValue(fields, gap, name, behind, front) => ToValue(fields, gap, name, behind, front)
    case InValue(fields, gap, name, behind, front, open, inner) =>
      ToValue(fields, gap, name, behind, front) + open + StopText(inner)
    case AfterField(fields, open) => "{" + FieldsText(fields) + open
  }

  /** Something else follows: no blank, no comment, and behind an open comment the end. */
  predicate Something(src: Source, open: string, q: nat) {
    IsOpen(src.flags, open) && !IsBlank(Peek(src.text, q)) && (src.flags.comments ==> Peek(src.text, q) != '/') &&
    (open != "" ==> Peek(src.text, q) == '\0')
  }

  /** Behind what was read up to `q` this is the error. */
  ghost predicate Wrong(src: Source, x: Stop, q: nat, code: ErrorCode, off: nat) {
    var c := Peek(src.text, q);
    match x
    case Here => WrongLeaf(src, q, code, off)
    case InItem(items, gap, open, inner) =>
      AreItems(src, items) && IsGap(src.flags, gap) && IsOpen(src.flags, open) && Wrong(src, inner, q, code, off) &&
      (inner.Here? ==> Something(src, open, q) && (items == [] || src.flags.trailingCommas ==> c != ']'))
    case AtItem(items, gap) => AreItems(src, items) && IsGap(src.flags, gap) && WrongComment(src, q, code, off)
    case AfterItem(items, open) =>
      items != [] && AreItems(src, items) &&
      ((open == "" && WrongComment(src, q, code, off)) ||
       (Something(src, open, q) && c != ',' && c != ']' && code == ArrayMissCommaOrSquareBracket && off == q))
    case AtName(fields, gap, open) =>
      AreFields(src, fields) && IsGap(src.flags, gap) &&
      ((open == "" && (WrongComment(src, q, code, off) || WrongString(src, q, code, off))) ||
       (Something(src, open, q) && c != '\"' && code == ObjectMissName && off == q &&
        (fields == [] || src.flags.trailingCommas ==> c != '}')))
    case AtColon(fields, gap, name, behind, open) =>
      AreFields(src, fields) && IsGap(src.flags, gap) && AreChars(src.flags, name) && IsGap(src.flags, behind) &&
      ((open == "" && WrongComment(src, q, code, off)) ||
       (Something(src, open, q) && c != ':' && code == ObjectMissColon && off == q))
    case AtValue(fields, gap, name, behind, front) =>
      AreFields(src, fields) && IsGap(src.flags, gap) && AreChars(src.flags, name) && IsGap(src.flags, behind) &&
      IsGap(src.flags, front) && WrongComment(src, q, code, off)
    case InValue(fields, gap, name, behind, front, open, inner) =>
      AreFields(src, fields) && IsGap(src.flags, gap) && AreChars(src.flags, name) && IsGap(src.flags, behind) &&
      IsGap(src.flags, front) && IsOpen(src.flags, open) && Wrong(src, inner, q, code, off) &&
      (inner.Here? ==> Something(src, open, q))
    case AfterField(fields, open) =>
      fields != [] && AreFields(src, fields) &&
      ((open == "" && WrongComment(src, q, code, off)) ||
       (Something(src, open, q) && c != ',' && c != '}' && code == ObjectMissCommaOrCurlyBracket && off == q))
  }

  /** From `p` on so much was read, and then this is the error. */
  ghost predicate Stuck(src: Source, p: nat, x: Stop, code: ErrorCode, off: nat) {
    Stands(src.text, p, StopText(x)) && Wrong(src, x, p + |StopText(x)|, code, off)
  }

  // ---- comments ---------------------------------------------------------------------------------

  lemma {:induction false} OpenBlock(s: string, p: nat) returns (body: string)
    requires p <= |s| && BlockEnd(s, p).Broken?
    ensures Stands(s, p, body) && '\0' !in body && BlockEnd(s, p) == Broken(p + |body|) && Peek(s, p + |body|) == '\0'
    ensures forall k :: 0 <= k < |body| - 1 ==> body[k] != '*' || body[k + 1] != '/'
    ensures body != "" ==> body[0] == s[p]
    decreases |s| - p
  {
    body := "";
    if Peek(s, p) != '\0' {
      var rest := OpenBlock(s, p + 1);
      body := [s[p]] + rest;
      SliceStands(s, p, p + 1);
      assert s[p..p + 1] == [s[p]];
      StandsJoin(s, p, [s[p]], rest);
    }
  }

  lemma GapWithPiece(src: Source, p: nat, g: Piece, rest: seq<Piece>)
    requires IsPiece(src.flags, g) && Stands(src.text, p, PieceText(g))
    requires IsGap(src.flags, rest) && Stands(src.text, p + |PieceText(g)|, GapText(rest))
    ensures var all := [g] + rest;
            IsGap(src.flags, all) && Stands(src.text, p, GapText(all)) &&
            |GapText(all)| == |PieceText(g)| + |GapText(rest)|
  {
    hide Stands, PieceText, IsPiece;
    assert ([g] + rest)[1..] == rest;
    StandsJoin(src.text, p, PieceText(g), GapText(rest));
  }

  /** White space and comments up to one that is wrong. */
  lemma {:induction false} WrongGap(src: Source, p: nat) returns (g: seq<Piece>)
    requires p <= |src.text| && SkipFrom(src, p).Broken?
    ensures IsGap(src.flags, g) && Stands(src.text, p, GapText(g))
    ensures WrongComment(src, p + |GapText(g)|, UnspecificSyntaxError, SkipFrom(src, p).off)
    decreases |src.text| - p
  {
    hide Stands, PieceText, Skip, WrongComment, IsPiece;
    var s, flags := src.text, src.flags;
    if IsBlank(Peek(s, p)) {
      BlankHere(s, p);
      BlankIsPiece(flags, s[p]);
      SkipBlank(s, flags.comments, p);
      var rest := WrongGap(src, p + 1);
      GapWithPiece(src, p, Blank(s[p]), rest);
      g := [Blank(s[p])] + rest;
    } else {
      SkipsComment(s, flags, p);
      if (Peek(s, p + 1) == '*' && BlockEnd(s, p + 2).At?) || Peek(s, p + 1) == '/' {
        var piece := CommentPiece(s, flags, p);
        SkipPiece(s, flags, p, piece);
        PieceIsSome(piece);
        var rest := WrongGap(src, p + |PieceText(piece)|);
        GapWithPiece(src, p, piece, rest);
        g := [piece] + rest;
      } else {
        g := [];
        NothingIsGap(flags);
        NothingStands(s, p);
        WrongHere(src, p);
      }
    }
  }

  lemma BlankIsPiece(flags: Flags, c: char)
    requires IsBlank(c)
    ensures IsPiece(flags, Blank(c))
  {
  }

  lemma WrongHere(src: Source, p: nat)
    requires p <= |src.text| && src.flags.comments && Peek(src.text, p) == '/' && Peek(src.text, p + 1) != '/'
    requires Peek(src.text, p + 1) == '*' ==> BlockEnd(src.text, p + 2).Broken?
    requires Peek(src.text, p + 1) != '*' ==> Skip(src.text, true, p) == Broken(p + 1)
    requires Peek(src.text, p + 1) == '*' ==> Skip(src.text, true, p) == BlockEnd(src.text, p + 2)
    ensures WrongComment(src, p, UnspecificSyntaxError, SkipFrom(src, p).off)
  {
    hide Stands, Skip, BlockEnd;
    if Peek(src.text, p + 1) == '*' { var body := OpenBlock(src.text, p + 2); }
  }

  /** What stands where skipping goes wrong and no blank is. */
  lemma SkipsComment(s: string, flags: Flags, p: nat)
    requires p <= |s| && !IsBlank(Peek(s, p)) && Skip(s, flags.comments, p).Broken?
    ensures flags.comments && Peek(s, p) == '/'
    ensures Peek(s, p + 1) == '*' && BlockEnd(s, p + 2).Broken? ==> Skip(s, true, p) == BlockEnd(s, p + 2)
    ensures Peek(s, p + 1) != '*' && Peek(s, p + 1) != '/' ==> Skip(s, true, p) == Broken(p + 1)
  {
    hide BlockEnd, LineEnd;
  }

  /** A comment that is closed. */
  lemma CommentPiece(s: string, flags: Flags, p: nat) returns (g: Piece)
    requires p <= |s| && flags.comments && Peek(s, p) == '/' && Skip(s, true, p).Broken?
    requires (Peek(s, p + 1) == '*' && BlockEnd(s, p + 2).At?) || Peek(s, p + 1) == '/'
    ensures IsPiece(flags, g) && Stands(s, p, PieceText(g))
  {
    hide Stands, BlockEnd, LineEnd, Skip;
    SliceStands(s, p, p + 2);
    if Peek(s, p + 1) == '*' {
      assert s[p..p + 2] == "/*";
      var body := BlockBody(s, p + 2);
      g := Block(body);
      StandsJoin(s, p, "/*", body + "*/");
    } else {
      assert s[p..p + 2] == "//";
      var body := LineBody(s, p + 2);
      StandsJoin(s, p, "//", body);
      if Peek(s, p + 2 + |body|) == '\n' {
        g := Line(body);
        NewLineStands(s, p + 2 + |body|);
        StandsJoin(s, p + 2, body, "\n");
        StandsJoin(s, p, "//", body + "\n");
      } else {
        SkipOpen(s, flags, p, "//" + body);
        g := Blank(' ');
      }
    }
  }

  /** What was skipped before something else; behind it an open comment only at the end. */
  lemma GapAndMore(src: Source, p: nat) returns (g: seq<Piece>, open: string)
    requires p <= |src.text| && SkipFrom(src, p).At?
    ensures IsGap(src.flags, g) && Stands(src.text, p, GapText(g) + open)
    ensures SkipFrom(src, p).pos == p + |GapText(g) + open| && Something(src, open, SkipFrom(src, p).pos)
  {
    hide Stands, Skip, GapText;
    g, open := SkippedIsGap(src.text, src.flags, p);
  }

  // ---- strings ----------------------------------------------------------------------------------

  lemma {:induction false} StringWrong(src: Source, p: nat, acc: string) returns (cs: seq<Char>)
    requires p <= |src.text| && JsonString.Scan(src.text, p, src.flags.escapedApostrophe, acc).BadString?
    ensures AreChars(src.flags, cs) && Stands(src.text, p, CharsText(cs))
    ensures var r := JsonString.Scan(src.text, p, src.flags.escapedApostrophe, acc);
            r.off == p + |CharsText(cs)| &&
            (WrongEscape(src, r.off, r.code) ||
             (Peek(src.text, r.off) as int < 0x20 &&
              r.code == if Peek(src.text, r.off) == '\0' then StringMissQuotationMark else StringInvalidEncoding))
    decreases |src.text| - p
  {
    hide Stands, JsonString.EscapeAt, CharText, CharMeaning, IsChar, WrongEscape;
    var s, flags := src.text, src.flags;
    cs := [];
    if Peek(s, p) == '\\' && JsonString.EscapeAt(s, p, flags.escapedApostrophe).BadEscape? {
      NothingStands(s, p);
      EscapeWrong(src, p);
    } else if Peek(s, p) as int < 0x20 {
      NothingStands(s, p);
    } else {
      var c: Char;
      if s[p] == '\\' { c := EscapeFrom(s, flags, p); } else { c := PlainFrom(s, flags, p); }
      OneCharScans(s, flags, p, acc, c);
      var rest := StringWrong(src, p + |CharText(c)|, acc + CharMeaning(c));
      cs := [c] + rest;
      assert cs[1..] == rest;
      StandsJoin(s, p, CharText(c), CharsText(rest));
    }
  }

  lemma EscapeWrong(src: Source, p: nat)
    requires p < |src.text| && src.text[p] == '\\'
    requires JsonString.EscapeAt(src.text, p, src.flags.escapedApostrophe).BadEscape?
    ensures WrongEscape(src, p, JsonString.EscapeAt(src.text, p, src.flags.escapedApostrophe).code)
  {
    hide JsonString.UnicodeAt, IsHex4, IsHigh, IsLow;
    var e := Peek(src.text, p + 1);
    LetterScans(e);
    if e == 'u' { UnicodeWrong(src.text, p + 2); }
  }

  lemma UnicodeWrong(s: string, q: nat)
    requires JsonString.UnicodeAt(s, q).BadUnicode?
    ensures var w, code := Four(s, q), JsonString.UnicodeAt(s, q).code;
            if !IsHex4(w) then code == StringUnicodeEscapeInvalidHex
            else if IsLow(w) then code == StringUnicodeSurrogateInvalid
            else
              IsHigh(w) &&
              if Peek(s, q + 4) != '\\' || Peek(s, q + 5) != 'u' then code == StringUnicodeSurrogateInvalid
              else if !IsHex4(Four(s, q + 6)) then code == StringUnicodeEscapeInvalidHex
              else code == StringUnicodeSurrogateInvalid && !IsLow(Four(s, q + 6))
  {
    hide JsonString.Hex, Hex4Value, IsHex4, IsHigh, IsLow;
    HexOfFour(s, q);
    HexOfFour(s, q + 6);
    if IsHex4(Four(s, q)) { SurrogateIs(Four(s, q)); }
    if IsHex4(Four(s, q + 6)) { SurrogateIs(Four(s, q + 6)); }
  }

  lemma HexOfFour(s: string, q: nat)
    ensures JsonString.Hex(s, q, 4) == if IsHex4(Four(s, q)) then Some(Hex4Value(Four(s, q))) else None
  {
    hide Stands, JsonString.Hex, Hex4Value;
    if JsonString.Hex(s, q, 4).Some? {
      var w := HexFrom(s, q);
      FourStands(s, q, w);
    } else if IsHex4(Four(s, q)) {
      FourHere(s, q);
      HexIs(s, q, Four(s, q));
    }
  }

  lemma FourStands(s: string, q: nat, w: string)
    requires Stands(s, q, w) && |w| == 4
    ensures Four(s, q) == w
  {
    assert s[q] == w[0] && s[q + 1] == w[1] && s[q + 2] == w[2] && s[q + 3] == w[3];
  }

  lemma FourHere(s: string, q: nat)
    requires IsHex4(Four(s, q))
    ensures Stands(s, q, Four(s, q))
  {
  }

  // ---- leaves -----------------------------------------------------------------------------------

  lemma {:induction false} WordBreaks(s: string, p: nat, w: string, matched: nat)
    requires p + matched <= |s| && matched <= |w| && '\0' !in w && Word(s, p, w, matched).Broken?
    requires Stands(s, p, w[..matched])
    ensures var off := Word(s, p, w, matched).off;
            p + matched <= off < p + |w| && Stands(s, p, w[..off - p]) && Peek(s, off) != w[off - p]
    decreases |w| - matched
  {
    if matched < |w| && Peek(s, p + matched) == w[matched] {
      assert w[..matched + 1] == w[..matched] + [w[matched]];
      CharHere(s, p + matched, w[matched]);
      StandsJoin(s, p, w[..matched], [w[matched]]);
      WordBreaks(s, p, w, matched + 1);
    }
  }

  lemma NameWrong(src: Source, p: nat, evs: seq<Event>, w: string, e: Event)
    requires Willing(src) && p < |src.text| && w in {"null", "true", "false"} && src.text[p] == w[0]
    requires WordEvent(src, p, evs, w, e).Fail?
    ensures var r := WordEvent(src, p, evs, w, e); WrongWord(src.text, p, w, r.code, r.off)
  {
    SliceStands(src.text, p, p + 1);
    assert src.text[p..p + 1] == w[..1];
    WordBreaks(src.text, p, w, 1);
  }

  lemma NumberWrong(src: Source, p: nat, evs: seq<Event>)
    requires Willing(src) && p <= |src.text| && NumberEvent(src, p, evs).Fail?
    ensures var r := NumberEvent(src, p, evs);
            NumberLanguage.Misses(src.text, p, r.code, r.off) ||
            (r.code == NumberTooBig && r.off == p &&
             exists n :: NumberLanguage.Reads(src.text, p, n) && !TooLarge(n) && !IsNumeral(src, n))
  {
    hide JsonNumber.LiteralAt, Stands, NumberLanguage.Stops, NumberLanguage.Misses, Spelled, NeedsDouble, TooLarge,
         IsNumber;
    var l := JsonNumber.LiteralAt(src.text, p);
    NumberLanguage.LiteralIs(src.text, p, l);
    if l.Literal? {
      var n := NumberLanguage.NumberThere(src.text, p);
      StandsAsSlice(src.text, p, Spelled(n));
      assert !IsNumeral(src, n);
    }
  }

  lemma LeafWrong(src: Source, p: nat, evs: seq<Event>)
    requires Willing(src) && p <= |src.text| && Leaf(src, p, evs).Fail?
    requires Peek(src.text, p) != '[' && Peek(src.text, p) != '{'
    ensures WrongLeaf(src, p, Leaf(src, p, evs).code, Leaf(src, p, evs).off)
  {
    hide WordEvent, NumberEvent, WrongWord, JsonString.Scan, WrongEscape, IsNumeral, NumberLanguage.Misses;
    match Peek(src.text, p)
    case 'n' => NameWrong(src, p, evs, "null", Null);
    case 't' => NameWrong(src, p, evs, "true", Bool(true));
    case 'f' => NameWrong(src, p, evs, "false", Bool(false));
    case '\"' => QuotedWrong(src, p, evs, false);
    case _ => NumberWrong(src, p, evs);
  }

  lemma QuotedWrong(src: Source, p: nat, evs: seq<Event>, isKey: bool)
    requires Willing(src) && p < |src.text| && src.text[p] == '\"' && StringEvent(src, p, evs, isKey).Fail?
    ensures WrongString(src, p, StringEvent(src, p, evs, isKey).code, StringEvent(src, p, evs, isKey).off)
  {
    hide WrongEscape, JsonString.Scan, CharsText, AreChars, Stands;
    var cs := StringWrong(src, p + 1, "");
  }

  // ---- arrays -----------------------------------------------------------------------------------

  lemma ItemsMore(items: seq<Item>, gap: seq<Piece>, t: Syntax)
    ensures "[" + ItemsText(items + [Item(gap, t, [])]) == ListStart(items, gap) + ValueText(t)
  {
    hide ValueText, GapText;
    var all, w := items + [Item(gap, t, [])], ItemsText(items) + (if items == [] then "" else ",");
    assert all[..|items|] == items && all[|items|] == Item(gap, t, []);
    NoGap();
    assert ValueText(t) + GapText([]) == ValueText(t);
    if items == [] { assert ItemsText(items) + "" == ""; }
    assert ItemsText(all) == w + (GapText(gap) + ValueText(t));
    Assoc("[", w, GapText(gap) + ValueText(t));
    Assoc("[" + w, GapText(gap), ValueText(t));
  }

  function WithAfter(items: seq<Item>, g: seq<Piece>): seq<Item>
    requires items != []
  {
    items[..|items| - 1] + [items[|items| - 1].(after := g)]
  }

  lemma ItemsWithAfter(src: Source, items: seq<Item>, g: seq<Piece>)
    requires items != [] && AreItems(src, items) && IsGap(src.flags, g) && items[|items| - 1].after == []
    ensures AreItems(src, WithAfter(items, g)) && ItemsText(WithAfter(items, g)) == ItemsText(items) + GapText(g)
  {
    hide ValueText, GapText, IsValue, IsGap;
    var n, all := |items| - 1, WithAfter(items, g);
    forall k | 0 <= k < |all| ensures IsItem(src, all[k]) { assert IsItem(src, items[k]); }
    assert all[..n] == items[..n];
    NoGap();
    var i, front := items[n], if n == 0 then "" else ItemsText(items[..n]) + ",";
    assert ValueText(i.value) + GapText([]) == ValueText(i.value);
    Assoc(front, GapText(i.before) + ValueText(i.value), GapText(g));
    Assoc(GapText(i.before), ValueText(i.value), GapText(g));
  }

  /** The value at `p` goes wrong. */
  lemma {:induction false} ValueWrong(src: Source, p: nat, evs: seq<Event>) returns (x: Stop)
    requires Willing(src) && p <= |src.text| && Value(src, p, evs).Fail?
    ensures Stuck(src, p, x, Value(src, p, evs).code, Value(src, p, evs).off)
    decreases |src.text| - p, 2
  {
    hide Object, Array, Leaf, Wrong, Stands;
    if Peek(src.text, p) == '{' { x := RecordWrong(src, p, evs); }
    else if Peek(src.text, p) == '[' { x := ListWrong(src, p, evs); }
    else {
      x := Stop.Here;
      NothingStands(src.text, p);
      LeafWrong(src, p, evs);
      LeafIsWrong(src, p, Value(src, p, evs).code, Value(src, p, evs).off);
    }
  }

  lemma LeafIsWrong(src: Source, p: nat, code: ErrorCode, off: nat)
    requires WrongLeaf(src, p, code, off)
    ensures Wrong(src, Stop.Here, p, code, off)
  {
  }

  lemma {:induction false} ListWrong(src: Source, p: nat, evs: seq<Event>) returns (x: Stop)
    requires Willing(src) && p < |src.text| && src.text[p] == '[' && Array(src, p, evs).Fail?
    ensures Stuck(src, p, x, Array(src, p, evs).code, Array(src, p, evs).off)
    decreases |src.text| - p, 1
  {
    hide SkipFrom, Elements, Stands, GapText, WrongComment, Something;
    CharHere(src.text, p, '[');
    assert AreItems(src, []);
    match SkipFrom(src, p + 1) {
      case Broken(off) =>
        var g := WrongGap(src, p + 1);
        StartIs(g);
        StandsJoin(src.text, p, "[", GapText(g));
        x := AtItem([], g);
      case At(q) =>
        var g, open := GapAndMore(src, p + 1);
        StartIs(g);
        Assoc("[", GapText(g), open);
        StandsJoin(src.text, p, "[", GapText(g) + open);
        x := ItemsWrong(src, p, [], g, open, q, 0, evs + [StartArray]);
    }
  }

  lemma StartIs(g: seq<Piece>)
    ensures ListStart([], g) == "[" + GapText(g) && RecordStart([], g) == "{" + GapText(g)
  {
    hide GapText;
    assert "[" + ("" + "") == "[" && "{" + ("" + "") == "{";
  }

  lemma {:induction false} ItemsWrong(src: Source, s: nat, items: seq<Item>, gap: seq<Piece>, open: string, p: nat,
      n: nat, evs: seq<Event>) returns (x: Stop)
    requires Willing(src) && p <= |src.text| && Elements(src, p, n, evs).Fail?
    requires AreItems(src, items) && IsGap(src.flags, gap) && Something(src, open, p)
    requires Stands(src.text, s, ListStart(items, gap) + open) && p == s + |ListStart(items, gap) + open|
    requires items == [] || src.flags.trailingCommas ==> Peek(src.text, p) != ']'
    ensures Stuck(src, s, x, Elements(src, p, n, evs).code, Elements(src, p, n, evs).off)
    decreases |src.text| - p, 3
  {
    hide Value, AfterElement, Stands, ListStart, ItemsText, ValueText, IsValue, IsGap, GapText, Wrong;
    var o := Value(src, p, evs);
    if o.Fail? {
      var inner := ValueWrong(src, p, evs);
      x := InItem(items, gap, open, inner);
      StandsJoin(src.text, s, ListStart(items, gap) + open, StopText(inner));
      ItemIsWrong(src, items, gap, open, inner, p, o.code, o.off);
    } else {
      var t := ValueFrom(src, p, evs);
      NotAtEnd(src, p, t);
      assert ListStart(items, gap) + open == ListStart(items, gap);
      StandsJoin(src.text, s, ListStart(items, gap), ValueText(t));
      ItemsMore(items, gap, t);
      var all := items + [Item(gap, t, [])];
      NothingIsGap(src.flags);
      forall k | 0 <= k < |all| ensures IsItem(src, all[k]) { if k < |items| { assert IsItem(src, items[k]); } }
      x := BehindWrong(src, s, all, o.pos, Count(n), o.evs);
    }
  }

  lemma ItemIsWrong(src: Source, items: seq<Item>, gap: seq<Piece>, open: string, inner: Stop, p: nat, code: ErrorCode,
      off: nat)
    requires AreItems(src, items) && IsGap(src.flags, gap) && Something(src, open, p)
    requires items == [] || src.flags.trailingCommas ==> Peek(src.text, p) != ']'
    requires Wrong(src, inner, p + |StopText(inner)|, code, off)
    ensures Wrong(src, InItem(items, gap, open, inner), p + |StopText(inner)|, code, off)
  {
    hide WrongLeaf, WrongComment, WrongString, IsGap, IsItem;
  }

  lemma NotAtEnd(src: Source, p: nat, t: Syntax)
    requires IsValue(src, t) && Stands(src.text, p, ValueText(t))
    ensures Peek(src.text, p) != '\0'
  {
    hide Stands, ValueText, IsValue;
    FirstOfValue(src, t);
    FirstStands(src.text, p, ValueText(t));
  }

  lemma {:induction false} BehindWrong(src: Source, s: nat, items: seq<Item>, q: nat, n: nat, evs: seq<Event>)
      returns (x: Stop)
    requires Willing(src) && q <= |src.text| && AfterElement(src, q, n, evs).Fail?
    requires items != [] && AreItems(src, items) && items[|items| - 1].after == []
    requires Stands(src.text, s, "[" + ItemsText(items)) && q == s + |"[" + ItemsText(items)|
    ensures Stuck(src, s, x, AfterElement(src, q, n, evs).code, AfterElement(src, q, n, evs).off)
    decreases |src.text| - q, 0
  {
    hide SkipFrom, Elements, Stands, GapText, ItemsText, IsItem, IsGap, WrongComment, Something, WithAfter;
    if SkipFrom(src, q).Broken? {
      var g := WrongGap(src, q);
      assert GapText(g) + "" == GapText(g);
      x := AfterItem(WithAfter(items, g), "");
      ItemsStand(src, s, items, g, "");
    } else {
      var c := SkipFrom(src, q).pos;
      var g, open := GapAndMore(src, q);
      var all := WithAfter(items, g);
      ItemsStand(src, s, items, g, open);
      if Peek(src.text, c) == ',' {
        NoOpen(src, open, c);
        assert "[" + ItemsText(all) + "" == "[" + ItemsText(all);
        CharHere(src.text, c, ',');
        StandsJoin(src.text, s, "[" + ItemsText(all), ",");
        Assoc("[", ItemsText(all), ",");
        SameBehind(src, q, c, n, evs);
        x := CommaWrong(src, s, all, c, n, evs);
      } else {
        x := AfterItem(all, open);
        MissingIsWrong(src, all, open, c);
      }
    }
  }

  /** White space that was skipped does not matter. */
  lemma SameBehind(src: Source, q: nat, c: nat, n: nat, evs: seq<Event>)
    requires q <= |src.text| && SkipFrom(src, q) == At(c) && Peek(src.text, c) == ','
    ensures c < |src.text| && AfterElement(src, c, n, evs) == AfterElement(src, q, n, evs)
    ensures AfterMember(src, c, n, evs) == AfterMember(src, q, n, evs)
  {
    hide SkipFrom, Elements, Members;
    HereAlready(src, c);
  }

  lemma NoOpen(src: Source, open: string, c: nat)
    requires Something(src, open, c) && Peek(src.text, c) != '\0'
    ensures open == ""
  {
  }

  lemma MissingIsWrong(src: Source, items: seq<Item>, open: string, c: nat)
    requires items != [] && AreItems(src, items) && Something(src, open, c)
    requires Peek(src.text, c) != ',' && Peek(src.text, c) != ']'
    ensures Wrong(src, AfterItem(items, open), c, ArrayMissCommaOrSquareBracket, c)
  {
    hide WrongComment, IsItem;
  }

  /** The items stand with the white space behind the last. */
  lemma ItemsStand(src: Source, s: nat, items: seq<Item>, g: seq<Piece>, open: string)
    requires items != [] && AreItems(src, items) && IsGap(src.flags, g) && items[|items| - 1].after == []
    requires Stands(src.text, s, "[" + ItemsText(items)) &&
             Stands(src.text, s + |"[" + ItemsText(items)|, GapText(g) + open)
    ensures var all := WithAfter(items, g);
            all != [] && AreItems(src, all) && Stands(src.text, s, "[" + ItemsText(all) + open) &&
            |"[" + ItemsText(all) + open| == |"[" + ItemsText(items)| + |GapText(g) + open|
  {
    hide Stands, ItemsText, GapText, IsItem, IsGap;
    ItemsWithAfter(src, items, g);
    StandsJoin(src.text, s, "[" + ItemsText(items), GapText(g) + open);
    Assoc("[", ItemsText(items), GapText(g));
    Assoc("[" + ItemsText(items), GapText(g), open);
  }

  /** Behind a comma at `c`. */
  lemma {:induction false} CommaWrong(src: Source, s: nat, items: seq<Item>, c: nat, n: nat, evs: seq<Event>)
      returns (x: Stop)
    requires Willing(src) && c < |src.text| && AfterElement(src, c, n, evs).Fail? && src.text[c] == ','
    requires items != [] && AreItems(src, items)
    requires Stands(src.text, s, "[" + (ItemsText(items) + ",")) && c + 1 == s + |"[" + (ItemsText(items) + ",")|
    ensures Stuck(src, s, x, AfterElement(src, c, n, evs).code, AfterElement(src, c, n, evs).off)
    decreases |src.text| - c - 1, 4
  {
    hide SkipFrom, Elements, Stands, GapText, ItemsText, IsItem, IsGap, WrongComment, Something;
    HereAlready(src, c);
    var w := "[" + (ItemsText(items) + ",");
    if SkipFrom(src, c + 1).Broken? {
      var g := WrongGap(src, c + 1);
      x := AtItem(items, g);
      StandsJoin(src.text, s, w, GapText(g));
    } else {
      var g, open := GapAndMore(src, c + 1);
      StandsJoin(src.text, s, w, GapText(g) + open);
      Assoc(w, GapText(g), open);
      x := ItemsWrong(src, s, items, g, open, SkipFrom(src, c + 1).pos, n, evs);
    }
  }

  lemma HereAlready(src: Source, c: nat)
    requires c < |src.text| && !IsBlank(src.text[c]) && src.text[c] != '/'
    ensures SkipFrom(src, c) == At(c)
  {
    SkipNothing(src.text, src.flags.comments, c);
  }

  // ---- objects ----------------------------------------------------------------------------------

  lemma FieldsMore(fields: seq<Field>, f: Field)
    requires f.after == []
    ensures "{" + FieldsText(fields + [f]) ==
            ToValue(fields, f.before, f.name, f.behind, f.front) + ValueText(f.value)
  {
    hide ValueText, GapText, QuotedText;
    var all, w := fields + [f], FieldsText(fields) + (if fields == [] then "" else ",");
    var b, n, g, h, t := GapText(f.before), QuotedText(f.name), GapText(f.behind), GapText(f.front), ValueText(f.value);
    assert all[..|fields|] == fields && all[|fields|] == f;
    NoGap();
    assert t + GapText([]) == t;
    if fields == [] { assert FieldsText(fields) + "" == ""; }
    assert FieldsText(all) == w + (b + (n + (g + (":" + (h + t)))));
    FieldParts(w, b, n, g, h, t);
  }

  lemma FieldParts(w: string, b: string, n: string, g: string, h: string, t: string)
    ensures "{" + (w + (b + (n + (g + (":" + (h + t)))))) == "{" + w + b + n + g + ":" + h + t
  {
    Assoc("{", w, b + (n + (g + (":" + (h + t)))));
    Assoc("{" + w, b, n + (g + (":" + (h + t))));
    Assoc("{" + w + b, n, g + (":" + (h + t)));
    Assoc("{" + w + b + n, g, ":" + (h + t));
    Assoc("{" + w + b + n + g, ":", h + t);
    Assoc("{" + w + b + n + g + ":", h, t);
  }

  function FieldsWithAfter(fields: seq<Field>, g: seq<Piece>): seq<Field>
    requires fields != []
  {
    fields[..|fields| - 1] + [fields[|fields| - 1].(after := g)]
  }

  lemma FieldsWithAfterAre(src: Source, fields: seq<Field>, g: seq<Piece>)
    requires fields != [] && AreFields(src, fields) && IsGap(src.flags, g) && fields[|fields| - 1].after == []
    ensures AreFields(src, FieldsWithAfter(fields, g))
    ensures FieldsText(FieldsWithAfter(fields, g)) == FieldsText(fields) + GapText(g)
  {
    hide ValueText, GapText, QuotedText, IsValue, IsGap, AreChars, FieldsText;
    var n, all := |fields| - 1, FieldsWithAfter(fields, g);
    forall k | 0 <= k < |all| ensures IsField(src, all[k]) { assert IsField(src, fields[k]); }
    var front := fields[..n];
    assert all[..n] == front && all == front + [all[n]] && fields == front + [fields[n]];
    NoGap();
    LastField(front, fields[n]);
    LastField(front, all[n]);
    var f := fields[n];
    var w := (if n == 0 then "" else FieldsText(front) + ",") + FieldHead(f);
    assert w + ValueText(f.value) + GapText([]) == w + ValueText(f.value);
  }

  /** A field up to its value. */
  function FieldHead(f: Field): string {
    GapText(f.before) + QuotedText(f.name) + GapText(f.behind) + ":" + GapText(f.front)
  }

  lemma LastField(front: seq<Field>, f: Field)
    ensures FieldsText(front + [f]) ==
            (if front == [] then "" else FieldsText(front) + ",") + FieldHead(f) + ValueText(f.value) + GapText(f.after)
  {
    hide ValueText, GapText, QuotedText;
    var all, w := front + [f], if front == [] then "" else FieldsText(front) + ",";
    var b, n, g, h, t, a := GapText(f.before), QuotedText(f.name), GapText(f.behind), GapText(f.front),
      ValueText(f.value), GapText(f.after);
    assert all[..|front|] == front && all[|front|] == f;
    assert FieldsText(all) == w + (b + (n + (g + (":" + (h + (t + a))))));
    HeadParts(b, n, g, h, t + a);
    Assoc(w, b + n + g + ":" + h, t + a);
    Assoc(w + (b + n + g + ":" + h), t, a);
  }

  lemma HeadParts(b: string, n: string, g: string, h: string, t: string)
    ensures b + (n + (g + (":" + (h + t)))) == b + n + g + ":" + h + t
  {
    Assoc(b, n, g + (":" + (h + t)));
    Assoc(b + n, g, ":" + (h + t));
    Assoc(b + n + g, ":", h + t);
    Assoc(b + n + g + ":", h, t);
  }

  lemma {:induction false} RecordWrong(src: Source, p: nat, evs: seq<Event>) returns (x: Stop)
    requires Willing(src) && p < |src.text| && src.text[p] == '{' && Object(src, p, evs).Fail?
    ensures Stuck(src, p, x, Object(src, p, evs).code, Object(src, p, evs).off)
    decreases |src.text| - p, 1
  {
    hide SkipFrom, Members, Stands, GapText, WrongComment, Something;
    CharHere(src.text, p, '{');
    assert AreFields(src, []);
    match SkipFrom(src, p + 1) {
      case Broken(off) =>
        var g := WrongGap(src, p + 1);
        StartIs(g);
        StandsJoin(src.text, p, "{", GapText(g));
        assert RecordStart([], g) + "" == RecordStart([], g);
        x := AtName([], g, "");
      case At(q) =>
        var g, open := GapAndMore(src, p + 1);
        StartIs(g);
        Assoc("{", GapText(g), open);
        StandsJoin(src.text, p, "{", GapText(g) + open);
        x := FieldsWrong(src, p, [], g, open, q, 0, evs + [StartObject]);
    }
  }

  /** A field at `p`. */
  lemma {:induction false} FieldsWrong(src: Source, s: nat, fields: seq<Field>, gap: seq<Piece>, open: string, p: nat,
      n: nat, evs: seq<Event>) returns (x: Stop)
    requires Willing(src) && p <= |src.text| && Members(src, p, n, evs).Fail?
    requires AreFields(src, fields) && IsGap(src.flags, gap) && Something(src, open, p)
    requires Stands(src.text, s, RecordStart(fields, gap) + open) && p == s + |RecordStart(fields, gap) + open|
    requires fields == [] || src.flags.trailingCommas ==> Peek(src.text, p) != '}'
    ensures Stuck(src, s, x, Members(src, p, n, evs).code, Members(src, p, n, evs).off)
    decreases |src.text| - p, 6
  {
    hide StringEvent, ValueOfMember, SkipFrom, Stands, RecordStart, FieldsText, QuotedText, GapText, IsField, IsGap;
    hide WrongString, Something, AreChars;
    if Peek(src.text, p) != '\"' {
      x := AtName(fields, gap, open);
      NameIsWrong(src, fields, gap, open, p, ObjectMissName, p);
      return;
    }
    NoOpen(src, open, p);
    assert RecordStart(fields, gap) + open == RecordStart(fields, gap);
    var o := StringEvent(src, p, evs, true);
    if o.Fail? {
      x := AtName(fields, gap, open);
      QuotedWrong(src, p, evs, true);
      NameIsWrong(src, fields, gap, open, p, o.code, o.off);
    } else {
      var name := QuotedFrom(src, p, evs, true);
      StandsJoin(src.text, s, RecordStart(fields, gap), QuotedText(name));
      x := ColonWrong(src, s, fields, gap, name, o.pos, p, n, evs);
    }
  }

  lemma NameIsWrong(src: Source, fields: seq<Field>, gap: seq<Piece>, open: string, p: nat, code: ErrorCode, off: nat)
    requires AreFields(src, fields) && IsGap(src.flags, gap) && Something(src, open, p)
    requires fields == [] || src.flags.trailingCommas ==> Peek(src.text, p) != '}'
    requires if Peek(src.text, p) == '\"' then open == "" && WrongString(src, p, code, off)
             else code == ObjectMissName && off == p
    ensures Wrong(src, AtName(fields, gap, open), p, code, off)
  {
    hide WrongString, WrongComment, IsField, IsGap, Something;
  }

  /** Behind a name. */
  lemma {:induction false} ColonWrong(src: Source, s: nat, fields: seq<Field>, gap: seq<Piece>, name: seq<Char>, q: nat,
      p: nat, n: nat, evs: seq<Event>) returns (x: Stop)
    requires Willing(src) && p < q <= |src.text| && Peek(src.text, p) == '\"' && Members(src, p, n, evs).Fail?
    requires StringEvent(src, p, evs, true).Ok? && StringEvent(src, p, evs, true).pos == q
    requires AreFields(src, fields) && IsGap(src.flags, gap) && AreChars(src.flags, name)
    requires Stands(src.text, s, RecordStart(fields, gap) + QuotedText(name))
    requires q == s + |RecordStart(fields, gap) + QuotedText(name)|
    ensures Stuck(src, s, x, Members(src, p, n, evs).code, Members(src, p, n, evs).off)
    decreases |src.text| - p, 5
  {
    hide StringEvent, ValueOfMember, SkipFrom, Stands, RecordStart, FieldsText, QuotedText, GapText, IsField, IsGap;
    hide WrongComment, Something, AreChars;
    var w := RecordStart(fields, gap) + QuotedText(name);
    if SkipFrom(src, q).Broken? {
      var g := WrongGap(src, q);
      StandsJoin(src.text, s, w, GapText(g));
      assert ToColon(fields, gap, name, g) + "" == ToColon(fields, gap, name, g);
      x := AtColon(fields, gap, name, g, "");
    } else {
      var c := SkipFrom(src, q).pos;
      var g, open := GapAndMore(src, q);
      StandsJoin(src.text, s, w, GapText(g) + open);
      Assoc(w, GapText(g), open);
      if Peek(src.text, c) != ':' {
        x := AtColon(fields, gap, name, g, open);
      } else {
        NoOpen(src, open, c);
        assert ToColon(fields, gap, name, g) + open == ToColon(fields, gap, name, g);
        CharHere(src.text, c, ':');
        StandsJoin(src.text, s, ToColon(fields, gap, name, g), ":");
        x := FrontWrong(src, s, fields, gap, name, g, c, n, StringEvent(src, p, evs, true).evs);
      }
    }
  }

  /** What the reader does behind a colon. */
  function BehindColon(src: Source, c: nat, n: nat, evs: seq<Event>): Outcome
    requires c < |src.text|
  {
    match SkipFrom(src, c + 1)
    case Broken(off) => Fail(UnspecificSyntaxError, off, evs)
    case At(v) => ValueOfMember(src, v, n, evs)
  }

  lemma {:induction false} FrontWrong(src: Source, s: nat, fields: seq<Field>, gap: seq<Piece>, name: seq<Char>,
      behind: seq<Piece>, c: nat, n: nat, evs: seq<Event>) returns (x: Stop)
    requires Willing(src) && c < |src.text| && BehindColon(src, c, n, evs).Fail?
    requires AreFields(src, fields) && IsGap(src.flags, gap) && AreChars(src.flags, name) && IsGap(src.flags, behind)
    requires Stands(src.text, s, ToColon(fields, gap, name, behind) + ":")
    requires c + 1 == s + |ToColon(fields, gap, name, behind) + ":"|
    ensures Stuck(src, s, x, BehindColon(src, c, n, evs).code, BehindColon(src, c, n, evs).off)
    decreases |src.text| - c, 4
  {
    hide ValueOfMember, SkipFrom, Stands, ToColon, GapText, IsField, IsGap, WrongComment, Something, AreChars;
    var w := ToColon(fields, gap, name, behind) + ":";
    if SkipFrom(src, c + 1).Broken? {
      var g := WrongGap(src, c + 1);
      StandsJoin(src.text, s, w, GapText(g));
      x := AtValue(fields, gap, name, behind, g);
    } else {
      var v := SkipFrom(src, c + 1).pos;
      var g, open := GapAndMore(src, c + 1);
      StandsJoin(src.text, s, w, GapText(g) + open);
      Assoc(w, GapText(g), open);
      var f := Field(gap, name, behind, g, Name(""), []);
      x := FieldValueWrong(src, s, fields, f, open, v, n, evs);
    }
  }

  /** The value of a field at `v`. */
  lemma {:induction false} FieldValueWrong(src: Source, s: nat, fields: seq<Field>, f: Field, open: string, v: nat,
      n: nat, evs: seq<Event>) returns (x: Stop)
    requires Willing(src) && v <= |src.text| && ValueOfMember(src, v, n, evs).Fail? && f.after == []
    requires AreFields(src, fields) && IsGap(src.flags, f.before) && AreChars(src.flags, f.name)
    requires IsGap(src.flags, f.behind) && IsGap(src.flags, f.front) && Something(src, open, v)
    requires Stands(src.text, s, ToValue(fields, f.before, f.name, f.behind, f.front) + open)
    requires v == s + |ToValue(fields, f.before, f.name, f.behind, f.front) + open|
    ensures Stuck(src, s, x, ValueOfMember(src, v, n, evs).code, ValueOfMember(src, v, n, evs).off)
    decreases |src.text| - v, 3
  {
    hide Value, AfterMember, Stands, ToValue, FieldsText, ValueText, IsValue, IsGap, GapText, Wrong, AreChars;
    var o := Value(src, v, evs);
    var w := ToValue(fields, f.before, f.name, f.behind, f.front);
    if o.Fail? {
      var inner := ValueWrong(src, v, evs);
      x := InValue(fields, f.before, f.name, f.behind, f.front, open, inner);
      StandsJoin(src.text, s, w + open, StopText(inner));
      ValueIsWrong(src, fields, f, open, inner, v, o.code, o.off);
    } else {
      var t := ValueFrom(src, v, evs);
      NotAtEnd(src, v, t);
      assert w + open == w;
      StandsJoin(src.text, s, w, ValueText(t));
      var all := fields + [f.(value := t)];
      FieldsMore(fields, f.(value := t));
      NothingIsGap(src.flags);
      forall k | 0 <= k < |all| ensures IsField(src, all[k]) { if k < |fields| { assert IsField(src, fields[k]); } }
      x := BehindFieldWrong(src, s, all, o.pos, Count(n), o.evs);
    }
  }

  lemma ValueIsWrong(src: Source, fields: seq<Field>, f: Field, open: string, inner: Stop, v: nat, code: ErrorCode,
      off: nat)
    requires AreFields(src, fields) && IsGap(src.flags, f.before) && AreChars(src.flags, f.name)
    requires IsGap(src.flags, f.behind) && IsGap(src.flags, f.front) && Something(src, open, v)
    requires Wrong(src, inner, v + |StopText(inner)|, code, off)
    ensures Wrong(src, InValue(fields, f.before, f.name, f.behind, f.front, open, inner), v + |StopText(inner)|,
                  code, off)
  {
    hide WrongLeaf, WrongComment, WrongString, IsGap, IsField, AreChars;
  }

  lemma FieldsStand(src: Source, s: nat, fields: seq<Field>, g: seq<Piece>, open: string)
    requires fields != [] && AreFields(src, fields) && IsGap(src.flags, g) && fields[|fields| - 1].after == []
    requires Stands(src.text, s, "{" + FieldsText(fields)) &&
             Stands(src.text, s + |"{" + FieldsText(fields)|, GapText(g) + open)
    ensures var all := FieldsWithAfter(fields, g);
            all != [] && AreFields(src, all) && Stands(src.text, s, "{" + FieldsText(all) + open) &&
            |"{" + FieldsText(all) + open| == |"{" + FieldsText(fields)| + |GapText(g) + open|
  {
    hide Stands, FieldsText, GapText, IsField, IsGap;
    FieldsWithAfterAre(src, fields, g);
    StandsJoin(src.text, s, "{" + FieldsText(fields), GapText(g) + open);
    Assoc("{", FieldsText(fields), GapText(g));
    Assoc("{" + FieldsText(fields), GapText(g), open);
  }

  lemma FieldMissingIsWrong(src: Source, fields: seq<Field>, open: string, c: nat)
    requires fields != [] && AreFields(src, fields) && Something(src, open, c)
    requires Peek(src.text, c) != ',' && Peek(src.text, c) != '}'
    ensures Wrong(src, AfterField(fields, open), c, ObjectMissCommaOrCurlyBracket, c)
  {
    hide WrongComment, IsField;
  }

  lemma {:induction false} BehindFieldWrong(src: Source, s: nat, fields: seq<Field>, q: nat, n: nat, evs: seq<Event>)
      returns (x: Stop)
    requires Willing(src) && q <= |src.text| && AfterMember(src, q, n, evs).Fail?
    requires fields != [] && AreFields(src, fields) && fields[|fields| - 1].after == []
    requires Stands(src.text, s, "{" + FieldsText(fields)) && q == s + |"{" + FieldsText(fields)|
    ensures Stuck(src, s, x, AfterMember(src, q, n, evs).code, AfterMember(src, q, n, evs).off)
    decreases |src.text| - q, 0
  {
    hide SkipFrom, Members, Stands, GapText, FieldsText, IsField, IsGap, WrongComment, Something, FieldsWithAfter;
    if SkipFrom(src, q).Broken? {
      var g := WrongGap(src, q);
      assert GapText(g) + "" == GapText(g);
      x := AfterField(FieldsWithAfter(fields, g), "");
      FieldsStand(src, s, fields, g, "");
    } else {
      var c := SkipFrom(src, q).pos;
      var g, open := GapAndMore(src, q);
      var all := FieldsWithAfter(fields, g);
      FieldsStand(src, s, fields, g, open);
      if Peek(src.text, c) == ',' {
        NoOpen(src, open, c);
        assert "{" + FieldsText(all) + "" == "{" + FieldsText(all);
        CharHere(src.text, c, ',');
        StandsJoin(src.text, s, "{" + FieldsText(all), ",");
        Assoc("{", FieldsText(all), ",");
        SameBehind(src, q, c, n, evs);
        x := FieldCommaWrong(src, s, all, c, n, evs);
      } else {
        x := AfterField(all, open);
        FieldMissingIsWrong(src, all, open, c);
      }
    }
  }

  lemma {:induction false} FieldCommaWrong(src: Source, s: nat, fields: seq<Field>, c: nat, n: nat, evs: seq<Event>)
      returns (x: Stop)
    requires Willing(src) && c < |src.text| && AfterMember(src, c, n, evs).Fail? && src.text[c] == ','
    requires fields != [] && AreFields(src, fields)
    requires Stands(src.text, s, "{" + (FieldsText(fields) + ",")) && c + 1 == s + |"{" + (FieldsText(fields) + ",")|
    ensures Stuck(src, s, x, AfterMember(src, c, n, evs).code, AfterMember(src, c, n, evs).off)
    decreases |src.text| - c - 1, 7
  {
    hide SkipFrom, Members, Stands, GapText, FieldsText, IsField, IsGap, WrongComment, Something;
    HereAlready(src, c);
    var w := "{" + (FieldsText(fields) + ",");
    if SkipFrom(src, c + 1).Broken? {
      var g := WrongGap(src, c + 1);
      x := AtName(fields, g, "");
      StandsJoin(src.text, s, w, GapText(g));
      assert RecordStart(fields, g) + "" == RecordStart(fields, g);
    } else {
      var g, open := GapAndMore(src, c + 1);
      StandsJoin(src.text, s, w, GapText(g) + open);
      Assoc(w, GapText(g), open);
      x := FieldsWrong(src, s, fields, g, open, SkipFrom(src, c + 1).pos, n, evs);
    }
  }

  // ---- whole texts ------------------------------------------------------------------------------

  /** How far a whole text was read: before the value, in it, or behind it. */
  datatype Halt =
    | Before(before: seq<Piece>, open: string)
    | During(before: seq<Piece>, inner: Stop)
    | Behind(before: seq<Piece>, root: Syntax, after: seq<Piece>, open: string)

  function HaltText(h: Halt): string {
    match h
    case Before(before, open) => GapText(before) + open
    case During(before, inner) => GapText(before) + StopText(inner)
    case Behind(before, root, after, open) => GapText(before) + ValueText(root) + GapText(after) + open
  }

  /** The text was read so far, and this is what is wrong there. */
  ghost predicate Refused(src: Source, h: Halt, code: ErrorCode, off: nat) {
    var q := |HaltText(h)|;
    var c := Peek(src.text, q);
    Stands(src.text, 0, HaltText(h)) && IsGap(src.flags, h.before) &&
    match h
    case Before(_, open) =>
      (open == "" && WrongComment(src, q, code, off)) ||
      (Something(src, open, q) && c == '\0' && code == DocumentEmpty && off == q)
    case During(_, inner) => Wrong(src, inner, q, code, off)
    case Behind(_, root, after, open) =>
      IsValue(src, root) && IsGap(src.flags, after) && !src.flags.stopWhenDone &&
      ((open == "" && WrongComment(src, q, code, off)) ||
       (Something(src, open, q) && c != '\0' && code == DocumentRootNotSingular && off == q))
  }

  /** In front of the value. */
  lemma BeforeWrong(src: Source) returns (h: Halt)
    requires Willing(src) && Parse(src).Fail?
    requires SkipFrom(src, 0).Broken? || Peek(src.text, SkipFrom(src, 0).pos) == '\0'
    ensures Refused(src, h, Parse(src).code, Parse(src).off)
  {
    hide SkipFrom, Value, Stands, GapText, IsGap, WrongComment, Something;
    if SkipFrom(src, 0).Broken? {
      var g := WrongGap(src, 0);
      assert GapText(g) + "" == GapText(g);
      h := Before(g, "");
    } else {
      var g, open := GapAndMore(src, 0);
      h := Before(g, open);
    }
  }

  /** Behind the value. */
  lemma RestWrong(src: Source, g: seq<Piece>, t: Syntax, q: nat, evs: seq<Event>) returns (h: Halt)
    requires Willing(src) && q <= |src.text| && !src.flags.stopWhenDone
    requires IsGap(src.flags, g) && IsValue(src, t) && Stands(src.text, 0, GapText(g) + ValueText(t))
    requires q == |GapText(g) + ValueText(t)| && BehindRoot(src, q, evs).Fail?
    ensures Refused(src, h, BehindRoot(src, q, evs).code, BehindRoot(src, q, evs).off)
  {
    hide SkipFrom, Stands, GapText, ValueText, IsValue, IsGap, WrongComment, Something;
    var w := GapText(g) + ValueText(t);
    if SkipFrom(src, q).Broken? {
      var a := WrongGap(src, q);
      StandsJoin(src.text, 0, w, GapText(a));
      assert w + GapText(a) + "" == w + GapText(a);
      h := Behind(g, t, a, "");
    } else {
      var a, last := GapAndMore(src, q);
      StandsJoin(src.text, 0, w, GapText(a) + last);
      Assoc(w, GapText(a), last);
      h := Behind(g, t, a, last);
    }
  }

  /** What the reader does behind the root. */
  function BehindRoot(src: Source, q: nat, evs: seq<Event>): Outcome
    requires q <= |src.text|
  {
    match SkipFrom(src, q)
    case Broken(off) => Fail(UnspecificSyntaxError, off, evs)
    case At(e) => if Peek(src.text, e) == '\0' then Ok(e, evs) else Fail(DocumentRootNotSingular, e, evs)
  }

  /** Every error has its reason: what the grammar has stands up to it, and what is there cannot go on. */
  lemma ErrorsAreReasoned(src: Source) returns (h: Halt)
    requires Willing(src) && Parse(src).Fail?
    ensures Refused(src, h, Parse(src).code, Parse(src).off)
  {
    hide SkipFrom, Value, Stands, GapText, ValueText, IsValue, IsGap, Wrong, WrongComment, Something;
    if SkipFrom(src, 0).Broken? || Peek(src.text, SkipFrom(src, 0).pos) == '\0' {
      h := BeforeWrong(src);
      return;
    }
    hide Refused;
    var p := SkipFrom(src, 0).pos;
    var g, open := GapAndMore(src, 0);
    NoOpen(src, open, p);
    assert GapText(g) + "" == GapText(g);
    if Value(src, p, []).Fail? {
      h := DuringWrong(src, g, p);
    } else {
      var t := ValueFrom(src, p, []);
      StandsJoin(src.text, 0, GapText(g), ValueText(t));
      h := RestWrong(src, g, t, Value(src, p, []).pos, Value(src, p, []).evs);
    }
  }

  /** In the value. */
  lemma DuringWrong(src: Source, g: seq<Piece>, p: nat) returns (h: Halt)
    requires Willing(src) && p < |src.text| && IsGap(src.flags, g) && Value(src, p, []).Fail?
    requires Stands(src.text, 0, GapText(g)) && p == |GapText(g)|
    ensures Refused(src, h, Value(src, p, []).code, Value(src, p, []).off)
  {
    hide Value, Stands, GapText, IsGap, Wrong;
    var x := ValueWrong(src, p, []);
    StandsJoin(src.text, 0, GapText(g), StopText(x));
    h := During(g, x);
  }
}
