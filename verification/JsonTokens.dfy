/** What the reader skips and how it reads strings, against the grammar: white space, comments, and the
    characters of a string. */
module JsonTokens {
  import opened Common
  import opened JsonStream
  import opened JsonGrammar
  import opened JsonString
  import Utf8

  // ---- white space and comments that stand are skipped ------------------------------------------

  lemma SkipBlank(s: string, comments: bool, p: nat)
    requires IsBlank(Peek(s, p))
    ensures p < |s| && Skip(s, comments, p) == Skip(s, comments, p + 1)
  {
  }

  lemma SkipNothing(s: string, comments: bool, p: nat)
    requires p <= |s| && !IsBlank(Peek(s, p)) && (comments ==> Peek(s, p) != '/')
    ensures Skip(s, comments, p) == At(p)
  {
  }

  lemma {:induction false} BlockEndIs(s: string, p: nat, body: string)
    requires Stands(s, p, body + "*/") && '\0' !in body
    requires forall k :: 0 <= k < |body| - 1 ==> body[k] != '*' || body[k + 1] != '/'
    ensures BlockEnd(s, p) == At(p + |body| + 2)
    decreases |body|
  {
    StandsConcat(s, p, body, "*/");
    CharStands(s, p + |body|, "*/", 0);
    CharStands(s, p + |body|, "*/", 1);
    if body != "" {
      CharStands(s, p, body, 0);
      CharStands(s, p, body, 1);
      assert body[0] in body;
      assert body + "*/" == [body[0]] + (body[1..] + "*/");
      StandsConcat(s, p, [body[0]], body[1..] + "*/");
      BlockEndIs(s, p + 1, body[1..]);
    }
  }

  lemma {:induction false} LineEndIs(s: string, p: nat, body: string)
    requires Stands(s, p, body) && '\0' !in body && '\n' !in body
    requires Peek(s, p + |body|) == '\n' || Peek(s, p + |body|) == '\0'
    ensures LineEnd(s, p) == if Peek(s, p + |body|) == '\n' then p + |body| + 1 else p + |body|
    decreases |body|
  {
    if body != "" {
      CharStands(s, p, body, 0);
      assert body[0] in body;
      assert body == [body[0]] + body[1..];
      StandsConcat(s, p, [body[0]], body[1..]);
      LineEndIs(s, p + 1, body[1..]);
    }
  }

  /** A comment's two first characters. */
  lemma CommentStarts(s: string, p: nat, open: string, rest: string)
    requires Stands(s, p, open + rest) && |open| == 2
    ensures p + 2 <= |s| && s[p] == open[0] && s[p + 1] == open[1] && Stands(s, p + 2, rest)
  {
    StandsConcat(s, p, open, rest);
    CharStands(s, p, open, 0);
    CharStands(s, p, open, 1);
  }

  lemma SkipBlock(s: string, p: nat, body: string)
    requires '\0' !in body && forall k :: 0 <= k < |body| - 1 ==> body[k] != '*' || body[k + 1] != '/'
    requires Stands(s, p, "/*" + (body + "*/"))
    ensures var q := p + |"/*" + (body + "*/")|; q <= |s| && Skip(s, true, p) == Skip(s, true, q)
  {
    hide Stands, BlockEnd, LineEnd;
    CommentStarts(s, p, "/*", body + "*/");
    BlockEndIs(s, p + 2, body);
  }

  lemma SkipLine(s: string, p: nat, body: string)
    requires '\0' !in body && '\n' !in body && Stands(s, p, "//" + (body + "\n"))
    ensures var q := p + |"//" + (body + "\n")|; q <= |s| && Skip(s, true, p) == Skip(s, true, q)
  {
    hide Stands, BlockEnd, LineEnd;
    CommentStarts(s, p, "//", body + "\n");
    StandsConcat(s, p + 2, body, "\n");
    FirstStands(s, p + 2 + |body|, "\n");
    LineEndIs(s, p + 2, body);
  }

  lemma SkipPiece(s: string, flags: Flags, p: nat, g: Piece)
    requires IsPiece(flags, g) && Stands(s, p, PieceText(g))
    ensures var q := p + |PieceText(g)|;
            q <= |s| && Skip(s, flags.comments, p) == Skip(s, flags.comments, q)
  {
    hide Stands, Skip;
    match g
    case Blank(c) =>
      FirstStands(s, p, [c]);
      SkipBlank(s, flags.comments, p);
    case Block(body) => SkipBlock(s, p, body);
    case Line(body) => SkipLine(s, p, body);
  }

  /** White space and comments up to something else. */
  lemma {:induction false} SkipGap(s: string, flags: Flags, p: nat, g: seq<Piece>)
    requires IsGap(flags, g) && Stands(s, p, GapText(g))
    requires !IsBlank(Peek(s, p + |GapText(g)|)) && Peek(s, p + |GapText(g)|) != '/'
    ensures Skip(s, flags.comments, p) == At(p + |GapText(g)|)
    decreases |g|
  {
    hide Stands, Skip, PieceText;
    StandsAsSlice(s, p, GapText(g));
    if g == [] {
      SkipNothing(s, flags.comments, p);
    } else {
      StandsConcat(s, p, PieceText(g[0]), GapText(g[1..]));
      SkipPiece(s, flags, p, g[0]);
      SkipGap(s, flags, p + |PieceText(g[0])|, g[1..]);
    }
  }

  lemma SkipOpen(s: string, flags: Flags, p: nat, w: string)
    requires IsOpen(flags, w) && Stands(s, p, w) && Peek(s, p + |w|) == '\0'
    ensures Skip(s, flags.comments, p) == At(p + |w|)
  {
    hide Stands, LineEnd;
    StandsAsSlice(s, p, w);
    if w == "" {
      SkipNothing(s, flags.comments, p);
    } else {
      assert w == "//" + w[2..];
      CommentStarts(s, p, "//", w[2..]);
      LineEndIs(s, p + 2, w[2..]);
      SkipNothing(s, flags.comments, p + |w|);
    }
  }

  lemma {:induction false} SkipAll(s: string, flags: Flags, p: nat, g: seq<Piece>, w: string)
    requires IsGap(flags, g) && IsOpen(flags, w) && Stands(s, p, GapText(g) + w) &&
             Peek(s, p + |GapText(g) + w|) == '\0'
    ensures Skip(s, flags.comments, p) == At(p + |GapText(g) + w|)
    decreases |g|
  {
    hide Stands, Skip, PieceText;
    if g == [] {
      assert GapText(g) + w == w;
      SkipOpen(s, flags, p, w);
    } else {
      Assoc(PieceText(g[0]), GapText(g[1..]), w);
      StandsConcat(s, p, PieceText(g[0]), GapText(g[1..]) + w);
      SkipPiece(s, flags, p, g[0]);
      SkipAll(s, flags, p + |PieceText(g[0])|, g[1..], w);
    }
  }

  // ---- what is skipped is white space and comments ----------------------------------------------

  lemma {:induction false} BlockBody(s: string, p: nat) returns (body: string)
    requires p <= |s| && BlockEnd(s, p).At?
    ensures IsPiece(Flags(false, true, false, false, false), Block(body))
    ensures Stands(s, p, body + "*/") && BlockEnd(s, p).pos == p + |body| + 2
    decreases |s| - p
  {
    if s[p] == '*' && Peek(s, p + 1) == '/' {
      body := "";
      assert body + "*/" == "*/" && s[p + 1] == "*/"[1];
    } else {
      var rest := BlockBody(s, p + 1);
      body := [s[p]] + rest;
      Assoc([s[p]], rest, "*/");
      FirstStands(s, p + 1, rest + "*/");
      StandsJoin(s, p, [s[p]], rest + "*/");
    }
  }

  lemma {:induction false} LineBody(s: string, p: nat) returns (body: string)
    requires p <= |s|
    ensures Stands(s, p, body) && '\0' !in body && '\n' !in body
    ensures if LineEnd(s, p) == p + |body| then Peek(s, p + |body|) == '\0'
            else LineEnd(s, p) == p + |body| + 1 && Peek(s, p + |body|) == '\n'
    decreases |s| - p
  {
    body := "";
    if Peek(s, p) != '\0' && s[p] != '\n' {
      var rest := LineBody(s, p + 1);
      body := [s[p]] + rest;
      StandsJoin(s, p, [s[p]], rest);
    }
  }

  /** One comment is skipped: a piece, or the last line. */
  lemma CommentSkipped(s: string, flags: Flags, p: nat) returns (g: Piece, open: string)
    requires p <= |s| && flags.comments && Peek(s, p) == '/' && Skip(s, true, p).At?
    ensures IsOpen(flags, open)
    ensures if open == "" then IsPiece(flags, g) && Stands(s, p, PieceText(g))
            else Stands(s, p, open) && Peek(s, p + |open|) == '\0'
  {
    hide Stands, BlockEnd, LineEnd;
    open, g := "", Blank(' ');
    SliceStands(s, p, p + 2);
    if Peek(s, p + 1) == '*' {
      assert s[p..p + 2] == "/*";
      var body := BlockBody(s, p + 2);
      g := Block(body);
      StandsJoin(s, p, "/*", body + "*/");
    } else {
      assert s[p..p + 2] == "//";
      var body := LineBody(s, p + 2);
      StandsJoin(s, p, "//", body);
      if Peek(s, p + 2 + |body|) == '\n' {
        g := Line(body);
        NewLineStands(s, p + 2 + |body|);
        StandsJoin(s, p + 2, body, "\n");
        StandsJoin(s, p, "//", body + "\n");
      } else {
        open := "//" + body;
      }
    }
  }

  lemma NewLineStands(s: string, p: nat)
    requires Peek(s, p) == '\n'
    ensures Stands(s, p, "\n")
  {
  }

  /** What is skipped, and that something else follows. */
  lemma {:induction false} SkippedIsGap(s: string, flags: Flags, p: nat) returns (g: seq<Piece>, open: string)
    requires p <= |s| && Skip(s, flags.comments, p).At?
    ensures var q := Skip(s, flags.comments, p).pos;
            IsGap(flags, g) && IsOpen(flags, open) && Stands(s, p, GapText(g) + open) && q == p + |GapText(g) + open| &&
            (open != "" ==> Peek(s, q) == '\0') && !IsBlank(Peek(s, q)) && (flags.comments ==> Peek(s, q) != '/')
    decreases |s| - p
  {
    hide Skip, Stands, PieceText;
    g, open := [], "";
    if IsBlank(Peek(s, p)) {
      BlankHere(s, p);
      SkipBlank(s, flags.comments, p);
      var rest, last := SkippedIsGap(s, flags, p + 1);
      OneMorePiece(s, flags, p, Blank(s[p]), rest, last);
      g, open := [Blank(s[p])] + rest, last;
    } else if flags.comments && Peek(s, p) == '/' {
      var piece, last := CommentSkipped(s, flags, p);
      if last == "" {
        SkipPiece(s, flags, p, piece);
        PieceIsSome(piece);
        var rest, end := SkippedIsGap(s, flags, p + |PieceText(piece)|);
        OneMorePiece(s, flags, p, piece, rest, end);
        g, open := [piece] + rest, end;
      } else {
        open := last;
        SkipOpen(s, flags, p, open);
        assert GapText(g) + open == open;
      }
    } else {
      SkipNothing(s, flags.comments, p);
      NothingStands(s, p);
      assert GapText(g) + open == "";
    }
  }

  lemma BlankHere(s: string, p: nat)
    requires IsBlank(Peek(s, p))
    ensures p < |s| && Stands(s, p, PieceText(Blank(s[p]))) && |PieceText(Blank(s[p]))| == 1
  {
  }

  lemma PieceIsSome(g: Piece)
    ensures PieceText(g) != ""
  {
  }

  lemma OneMorePiece(s: string, flags: Flags, p: nat, g: Piece, rest: seq<Piece>, open: string)
    requires IsPiece(flags, g) && IsGap(flags, rest) && Stands(s, p, PieceText(g))
    requires Stands(s, p + |PieceText(g)|, GapText(rest) + open)
    ensures IsGap(flags, [g] + rest) && Stands(s, p, GapText([g] + rest) + open)
    ensures |GapText([g] + rest) + open| == |PieceText(g)| + |GapText(rest) + open|
  {
    hide Stands, PieceText, IsPiece;
    assert ([g] + rest)[1..] == rest;
    Assoc(PieceText(g), GapText(rest), open);
    StandsJoin(s, p, PieceText(g), GapText(rest) + open);
  }

  // ---- the characters of a string ---------------------------------------------------------------

  lemma HexValueIs(c: char)
    ensures HexValue(c) == if IsHex(c) then Some(HexDigitValue(c)) else None
  {
  }

  /** Four hexadecimal digits and their value. */
  lemma HexIs(s: string, p: nat, w: string)
    requires Stands(s, p, w) && IsHex4(w)
    ensures Hex(s, p, 4) == Some(Hex4Value(w))
  {
    hide HexValue, HexDigitValue, IsHex;
    forall k | 0 <= k < 4 ensures HexValue(Peek(s, p + k)) == Some(HexDigitValue(w[k])) {
      CharStands(s, p, w, k);
      HexValueIs(w[k]);
    }
    assert Hex(s, p, 0) == Some(0);
    HexStep(s, p, 0, 0, HexDigitValue(w[0]));
    HexStep(s, p, 1, HexDigitValue(w[0]), HexDigitValue(w[1]));
    HexStep(s, p, 2, HexDigitValue(w[0]) * 16 + HexDigitValue(w[1]), HexDigitValue(w[2]));
    HexStep(s, p, 3, (HexDigitValue(w[0]) * 16 + HexDigitValue(w[1])) * 16 + HexDigitValue(w[2]), HexDigitValue(w[3]));
  }

  lemma HexFrom(s: string, p: nat) returns (w: string)
    requires Hex(s, p, 4).Some?
    ensures IsHex4(w) && Stands(s, p, w) && Hex(s, p, 4) == Some(Hex4Value(w))
  {
    hide HexValue, HexDigitValue, IsHex;
    assert Hex(s, p, 3).Some? && Hex(s, p, 2).Some? && Hex(s, p, 1).Some?;
    w := s[p..p + 4];
    forall k | 0 <= k < 4 ensures IsHex(w[k]) {
      assert w[k] == Peek(s, p + k);
      HexValueIs(w[k]);
    }
    SliceStands(s, p, p + 4);
    HexIs(s, p, w);
  }

  /** A surrogate is known by its first two digits. */
  lemma SurrogateIs(w: string)
    requires IsHex4(w)
    ensures IsHigh(w) <==> 0xD800 <= Hex4Value(w) <= 0xDBFF
    ensures IsLow(w) <==> 0xDC00 <= Hex4Value(w) <= 0xDFFF
    ensures Hex4Value(w) < 0x10000
  {
    hide HexDigitValue;
    var a, b, c, d := HexDigitValue(w[0]), HexDigitValue(w[1]), HexDigitValue(w[2]), HexDigitValue(w[3]);
    assert a < 16 && b < 16 && c < 16 && d < 16 by {
      forall k | 0 <= k < 4 ensures HexDigitValue(w[k]) < 16 { SmallDigit(w[k]); }
    }
    assert a == 13 <==> w[0] == 'D' || w[0] == 'd' by { SmallDigit(w[0]); }
    assert 8 <= b <= 11 <==> w[1] in {'8', '9', 'A', 'B', 'a', 'b'} by { SmallDigit(w[1]); }
    assert 12 <= b <==> w[1] in {'C', 'D', 'E', 'F', 'c', 'd', 'e', 'f'} by { SmallDigit(w[1]); }
  }

  lemma SmallDigit(c: char)
    requires IsHex(c)
    ensures HexDigitValue(c) < 16
    ensures HexDigitValue(c) == 13 <==> c == 'D' || c == 'd'
    ensures 8 <= HexDigitValue(c) <= 11 <==> c in {'8', '9', 'A', 'B', 'a', 'b'}
    ensures 12 <= HexDigitValue(c) <==> c in {'C', 'D', 'E', 'F', 'c', 'd', 'e', 'f'}
  {
  }

  lemma UnitScans(s: string, p: nat, w: string)
    requires Stands(s, p, w) && IsHex4(w) && !IsHigh(w) && !IsLow(w)
    ensures var u := UnicodeAt(s, p); u.Unicode? && u.cp == Hex4Value(w) && u.end == p + 4 <= |s|
  {
    hide Hex, Hex4Value, IsHigh, IsLow;
    HexIs(s, p, w);
    SurrogateIs(w);
  }

  lemma PairScans(s: string, p: nat, high: string, low: string)
    requires Stands(s, p, high + ("\\u" + low)) && IsHigh(high) && IsLow(low)
    ensures var u := UnicodeAt(s, p);
            u.Unicode? && u.end == p + 10 <= |s| && |high| == 4 && |low| == 4 &&
            u.cp == 0x10000 + (Hex4Value(high) - 0xD800) * 0x400 + (Hex4Value(low) - 0xDC00)
  {
    hide Hex, Hex4Value, Stands;
    StandsConcat(s, p, high, "\\u" + low);
    StandsConcat(s, p + 4, "\\u", low);
    CharStands(s, p + 4, "\\u", 0);
    CharStands(s, p + 4, "\\u", 1);
    StandsAsSlice(s, p + 6, low);
    HexIs(s, p, high);
    HexIs(s, p + 6, low);
    SurrogateIs(high);
    SurrogateIs(low);
  }

  /** An escape that stands is read as what it means. */
  lemma EscapeScans(s: string, flags: Flags, p: nat, c: Char)
    requires IsChar(flags, c) && !c.Plain? && Stands(s, p, CharText(c))
    ensures s[p] == '\\' && EscapeAt(s, p, flags.escapedApostrophe) == Escaped(CharMeaning(c), p + |CharText(c)|)
  {
    hide UnicodeAt, Hex4Value, Stands, IsHigh, IsLow;
    CharStands(s, p, CharText(c), 0);
    CharStands(s, p, CharText(c), 1);
    match c
    case Escape(e) => LetterScans(e);
    case Unit(w) =>
      StandsConcat(s, p, "\\u", w);
      UnitScans(s, p + 2, w);
    case Pair(high, low) =>
      StandsConcat(s, p, "\\u", high + ("\\u" + low));
      PairScans(s, p + 2, high, low);
  }

  lemma LetterScans(e: char)
    ensures Unescape(e) ==
            if e in {'\"', '\\', '/', 'b', 'f', 'n', 'r', 't'} then Some(JsonGrammar.Escaped(e)) else None
  {
  }

  lemma {:induction false} CharsScan(s: string, flags: Flags, p: nat, acc: string, cs: seq<Char>)
    requires AreChars(flags, cs) && Stands(s, p, CharsText(cs) + "\"")
    ensures Scan(s, p, flags.escapedApostrophe, acc) == Scanned(acc + CharsMeaning(cs), p + |CharsText(cs)| + 1)
    decreases |cs|
  {
    hide Stands, CharText, CharMeaning, IsChar, EscapeAt;
    if cs == [] {
      FirstStands(s, p, CharsText(cs) + "\"");
      assert acc + "" == acc;
    } else {
      var c, rest := cs[0], cs[1..];
      Assoc(CharText(c), CharsText(rest), "\"");
      StandsConcat(s, p, CharText(c), CharsText(rest) + "\"");
      OneCharScans(s, flags, p, acc, c);
      CharsScan(s, flags, p + |CharText(c)|, acc + CharMeaning(c), rest);
      Assoc(acc, CharMeaning(c), CharsMeaning(rest));
    }
  }

  lemma OneCharScans(s: string, flags: Flags, p: nat, acc: string, c: Char)
    requires IsChar(flags, c) && Stands(s, p, CharText(c))
    ensures p < p + |CharText(c)| <= |s|
    ensures Scan(s, p, flags.escapedApostrophe, acc) ==
            Scan(s, p + |CharText(c)|, flags.escapedApostrophe, acc + CharMeaning(c))
  {
    hide EscapeAt, Stands, CharMeaning;
    FirstStands(s, p, CharText(c));
    StandsAsSlice(s, p, CharText(c));
    if c.Plain? { assert CharMeaning(c) == [c.c] by { PlainMeans(c); } } else { EscapeScans(s, flags, p, c); }
  }

  lemma PlainMeans(c: Char)
    requires c.Plain?
    ensures CharMeaning(c) == [c.c]
  {
  }

  /** An escape that is read. */
  lemma EscapeFrom(s: string, flags: Flags, p: nat) returns (c: Char)
    requires p < |s| && s[p] == '\\' && EscapeAt(s, p, flags.escapedApostrophe).Escaped?
    ensures IsChar(flags, c) && Stands(s, p, CharText(c))
    ensures EscapeAt(s, p, flags.escapedApostrophe) == Escaped(CharMeaning(c), p + |CharText(c)|)
  {
    hide UnicodeAt, Hex4Value, Stands, IsHigh, IsLow;
    var e := Peek(s, p + 1);
    LetterScans(e);
    if Unescape(e).Some? || (flags.escapedApostrophe && e == '\'') {
      c := Escape(e);
      SliceStands(s, p, p + 2);
      assert s[p..p + 2] == CharText(c);
    } else {
      SliceStands(s, p, p + 2);
      assert s[p..p + 2] == "\\u";
      c := UnicodeFrom(s, flags, p + 2);
      if c.Unit? { StandsJoin(s, p, "\\u", c.hex); } else { StandsJoin(s, p, "\\u", c.high + ("\\u" + c.low)); }
    }
    EscapeScans(s, flags, p, c);
  }

  lemma UnicodeFrom(s: string, flags: Flags, p: nat) returns (c: Char)
    requires UnicodeAt(s, p).Unicode?
    ensures IsChar(flags, c) && (c.Unit? || c.Pair?)
    ensures if c.Unit? then Stands(s, p, c.hex) else Stands(s, p, c.high + ("\\u" + c.low))
  {
    hide Hex, Hex4Value, Stands, IsHigh, IsLow;
    var w := HexFrom(s, p);
    SurrogateIs(w);
    if !IsHigh(w) {
      c := Unit(w);
    } else {
      var low := HexFrom(s, p + 6);
      SurrogateIs(low);
      c := Pair(w, low);
      StandsAsSlice(s, p + 6, low);
      SliceStands(s, p + 4, p + 6);
      assert s[p + 4..p + 6] == "\\u";
      StandsJoin(s, p + 4, "\\u", low);
      StandsJoin(s, p, w, "\\u" + low);
    }
  }

  /** The characters of a string that is read. */
  lemma {:induction false} CharsFrom(s: string, flags: Flags, p: nat, acc: string) returns (cs: seq<Char>)
    requires p <= |s| && Scan(s, p, flags.escapedApostrophe, acc).Scanned?
    ensures AreChars(flags, cs) && Stands(s, p, CharsText(cs) + "\"")
    decreases |s| - p
  {
    hide Stands, EscapeAt, CharText, CharMeaning, IsChar;
    if s[p] == '\"' {
      cs := [];
      SliceStands(s, p, p + 1);
      assert s[p..p + 1] == CharsText(cs) + "\"";
    } else {
      var c: Char;
      if s[p] == '\\' { c := EscapeFrom(s, flags, p); } else { c := PlainFrom(s, flags, p); }
      OneCharScans(s, flags, p, acc, c);
      var rest := CharsFrom(s, flags, p + |CharText(c)|, acc + CharMeaning(c));
      cs := [c] + rest;
      assert cs[1..] == rest;
      Assoc(CharText(c), CharsText(rest), "\"");
      StandsJoin(s, p, CharText(c), CharsText(rest) + "\"");
    }
  }

  lemma PlainFrom(s: string, flags: Flags, p: nat) returns (c: Char)
    requires p < |s| && s[p] as int >= 0x20 && s[p] != '\"' && s[p] != '\\'
    ensures IsChar(flags, c) && Stands(s, p, CharText(c))
  {
    c := Plain(s[p]);
  }
}
