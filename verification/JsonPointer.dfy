/** JSON Pointer (RFC 6901): parsing and printing of the string and of the URI fragment form. */
module JsonPointer {
  import opened Common
  import Decimal
  import opened Utf8

  const INVALID_INDEX := 0xFFFF_FFFF

  datatype Token = Token(name: Bytes, index: nat)

  datatype ErrorCode = TokenMustBeginWithSolidus | InvalidEscape | InvalidPercentEncoding | CharacterMustPercentEncode

  datatype Parsed = Pointer(tokens: seq<Token>) | BadPointer(code: ErrorCode, off: nat)

  /** Past the end the source reads as the null terminator. */
  function At(s: Bytes, i: nat): char {
    if i < |s| then s[i] else '\0'
  }

  // ---- array indices ------------------------------------------------------------------------

  /** The conversion of digits to a 32-bit index, with its check against wrapping around. */
  function Convert(name: Bytes, j: nat, n: nat): nat
    requires j <= |name|
    decreases |name| - j
  {
    if j == |name| then n
    else
      var m := (n * 10 + Decimal.Digit(name[j])) % 0x1_0000_0000;
      if m < n then INVALID_INDEX else Convert(name, j + 1, m)
  }

  function IndexOf(name: Bytes): nat {
    if name == [] || !Decimal.AllDigits(name) || (|name| > 1 && name[0] == '0') then INVALID_INDEX
    else Convert(name, 0, 0)
  }

  /** A numeral below 2^32 without leading zeros is its own index. */
  lemma IndexIsValue(name: Bytes)
    requires name != [] && Decimal.AllDigits(name) && (|name| > 1 ==> name[0] != '0')
    requires Decimal.Value(name) < 0x1_0000_0000
    ensures IndexOf(name) == Decimal.Value(name)
  {
    assert name[0..0] == [];
    ConvertIsValue(name, 0);
  }

  /** Only numerals without leading zeros have an index. */
  lemma OnlyNumeralsIndex(name: Bytes)
    requires IndexOf(name) != INVALID_INDEX
    ensures name != "" && (forall k :: 0 <= k < |name| ==> '0' <= name[k] <= '9') && (name[0] == '0' ==> name == "0")
  {
  }

  /** The conversion yields the value of a numeral exactly if that fits into 32 bits. */
  lemma IndexIffFits(name: Bytes)
    requires name != [] && Decimal.AllDigits(name) && (|name| > 1 ==> name[0] != '0')
    ensures IndexOf(name) == Decimal.Value(name) <==> Decimal.Value(name) < 0x1_0000_0000
  {
    ConvertFits(name, 0, 0);
    if Decimal.Value(name) < 0x1_0000_0000 { IndexIsValue(name); }
  }

  lemma {:induction false} ConvertFits(name: Bytes, j: nat, n: nat)
    requires j <= |name| && n < 0x1_0000_0000
    ensures Convert(name, j, n) < 0x1_0000_0000
    decreases |name| - j
  {
    if j < |name| { ConvertFits(name, j + 1, (n * 10 + Decimal.Digit(name[j])) % 0x1_0000_0000); }
  }

  /** The check does not notice every wrap-around: this numeral gets the index 1705032704. */
  lemma WrapNotNoticed()
    ensures var name: Bytes := "6000000000";
            IndexOf(name) == 1705032704 && Decimal.Value(name) == 6000000000
  {
    hide Convert, Decimal.Value;
    var name: Bytes := "6000000000";
    FirstDigit(name);
    ZeroNext(name, 1, 6);
    ZeroNext(name, 2, 60);
    ZeroNext(name, 3, 600);
    ZeroNext(name, 4, 6000);
    ZeroNext(name, 5, 60000);
    ZeroNext(name, 6, 600000);
    ZeroNext(name, 7, 6000000);
    ZeroNext(name, 8, 60000000);
    ZeroNext(name, 9, 600000000);
    ConvertEnd(name, 1705032704);
    assert name[0..10] == name;
  }

  /** One more zero, in the conversion and in the value of what was read. */
  lemma ZeroNext(name: Bytes, j: nat, n: nat)
    requires j < |name| && name[j] == '0'
    ensures var m := n * 10 % 0x1_0000_0000;
            Convert(name, j, n) == if m < n then INVALID_INDEX else Convert(name, j + 1, m)
    ensures Decimal.Value(name[0..j + 1]) == Decimal.Value(name[0..j]) * 10
  {
    Decimal.ValueSnoc(name, 0, j);
  }

  lemma FirstDigit(name: Bytes)
    requires name != []
    ensures Convert(name, 0, 0) == Convert(name, 1, Decimal.Digit(name[0]))
    ensures Decimal.Value(name[0..1]) == Decimal.Digit(name[0])
  {
    Decimal.ValueOne(name, 0);
  }

  lemma ConvertEnd(name: Bytes, n: nat)
    ensures Convert(name, |name|, n) == n
  {
  }

  lemma {:induction false} ConvertIsValue(name: Bytes, j: nat)
    requires j <= |name| && Decimal.Value(name) < 0x1_0000_0000
    ensures Convert(name, j, Decimal.Value(name[0..j])) == Decimal.Value(name)
    decreases |name| - j
  {
    hide Decimal.Value;
    if j == |name| {
      assert name[0..j] == name;
    } else {
      Decimal.ValueSnoc(name, 0, j);
      Decimal.ValueGrows(name, 0, j + 1, |name|);
      assert name[0..|name|] == name;
      ConvertIsValue(name, j + 1);
    }
  }

  // ---- percent encoding -----------------------------------------------------------------------

  /** All but the unreserved characters of RFC 3986 section 2.3. */
  predicate NeedPercentEncode(c: char) {
    !(('0' <= c <= '9') || ('A' <= c <= 'Z') || ('a' <= c <= 'z') || c == '-' || c == '.' || c == '_' || c == '~')
  }

  function HexValue(c: char): Option<nat> {
    if '0' <= c <= '9' then Some(c as int - '0' as int)
    else if 'A' <= c <= 'F' then Some(c as int - 'A' as int + 10)
    else if 'a' <= c <= 'f' then Some(c as int - 'a' as int + 10)
    else None
  }

  /** The byte that a percent triplet at `i` stands for. */
  function Triplet(s: Bytes, i: nat): (r: Option<nat>)
    ensures r.Some? ==> i + 3 <= |s| && r.value < 256
  {
    if i + 3 > |s| || s[i] != '%' then None
    else
      match (HexValue(s[i + 1]), HexValue(s[i + 2]))
      case (Some(h), Some(l)) => Some(h * 16 + l)
      case _ => None
  }

  /** The bytes of the `n` triplets from `i` on. */
  function Triplets(s: Bytes, i: nat, n: nat): (r: Option<Bytes>)
    ensures r.Some? ==> |r.value| == n && (n == 0 || i + 3 * n <= |s|)
    decreases n
  {
    if n == 0 then Some([])
    else
      match (Triplet(s, i), Triplets(s, i + 3, n - 1))
      case (Some(b), Some(bs)) => Some([U(b)] + bs)
      case _ => None
  }

  /** The UTF-8 character that triplets from `i` on spell. */
  function PercentAt(s: Bytes, i: nat): (r: Option<Bytes>)
    ensures r.Some? ==> 1 <= |r.value| <= 4 && i + 3 * |r.value| <= |s|
  {
    match Triplet(s, i)
    case None => None
    case Some(b) =>
      if b < 0x80 then Some([U(b)])
      else
        match Triplets(s, i, |Masks(GetRange(b))| + 1)
        case None => None
        case Some(bytes) => if Decode(bytes, 0).ok then Some(bytes) else None
  }

  function HexDigit(d: nat): Byte
    requires d < 16
  {
    if d < 10 then U(d + '0' as int) else U(d - 10 + 'A' as int)
  }

  function Percent(b: Byte): Bytes {
    ['%', HexDigit(b as int / 16), HexDigit(b as int % 16)]
  }

  function PercentAll(bs: Bytes): (r: Bytes)
    ensures |r| == 3 * |bs|
  {
    if bs == [] then [] else Percent(bs[0]) + PercentAll(bs[1..])
  }

  // ---- parsing --------------------------------------------------------------------------------

  /** A name and the position of the slash, or of the end, behind it. */
  datatype Name = Name(name: Bytes, end: nat) | BadName(code: ErrorCode, off: nat)

  /** A character `c` that was taken, `next` being the position behind it: its escape is undone. */
  function Unescape(s: Bytes, uri: bool, c: Byte, next: nat, acc: Bytes): (r: Name)
    requires next <= |s|
    ensures r.Name? ==> next <= r.end <= |s| && (r.end == |s| || s[r.end] == '/')
    decreases |s| - next, 1
  {
    if c != '~' then NameFrom(s, uri, next, acc + [c])
    else if next == |s| then BadName(InvalidEscape, next)
    else if s[next] == '0' then NameFrom(s, uri, next + 1, acc + ['~'])
    else if s[next] == '1' then NameFrom(s, uri, next + 1, acc + ['/'])
    else BadName(InvalidEscape, next)
  }

  /** The rest of a name from `i` on, `acc` having been read. */
  function NameFrom(s: Bytes, uri: bool, i: nat, acc: Bytes): (r: Name)
    requires i <= |s|
    ensures r.Name? ==> i <= r.end <= |s| && (r.end == |s| || s[r.end] == '/')
    decreases |s| - i, 0
  {
    if i == |s| || s[i] == '/' then Name(acc, i)
    else if uri && s[i] == '%' then
      match PercentAt(s, i)
      case None => BadName(InvalidPercentEncoding, i)
      case Some(bytes) =>
        if |bytes| == 1 then Unescape(s, uri, bytes[0], i + 3, acc)
        else NameFrom(s, uri, i + 3 * |bytes|, acc + bytes)
    else if uri && NeedPercentEncode(s[i]) then BadName(CharacterMustPercentEncode, i)
    else Unescape(s, uri, s[i], i + 1, acc)
  }

  /** The tokens from the slash at `i` on. */
  function TokensFrom(s: Bytes, uri: bool, i: nat): Parsed
    requires i <= |s| && (i == |s| || s[i] == '/')
    decreases |s| - i
  {
    if i == |s| then Pointer([])
    else
      match NameFrom(s, uri, i + 1, [])
      case BadName(code, off) => BadPointer(code, off)
      case Name(name, end) =>
        match TokensFrom(s, uri, end)
        case BadPointer(code, off) => BadPointer(code, off)
        case Pointer(rest) => Pointer([Token(name, IndexOf(name))] + rest)
  }

  /** GenericPointer::Parse. */
  function Parse(s: Bytes): Parsed {
    var uri := At(s, 0) == '#';
    var i := if uri then 1 else 0;
    if i != |s| && s[i] != '/' then BadPointer(TokenMustBeginWithSolidus, i)
    else TokensFrom(s, uri, i)
  }

  // ---- printing -------------------------------------------------------------------------------

  function EscapeName(name: Bytes): Bytes {
    if name == [] then []
    else (if name[0] == '~' then "~0" else if name[0] == '/' then "~1" else [name[0]]) + EscapeName(name[1..])
  }

  /** Stringify<false>. */
  function Stringify(ts: seq<Token>): Bytes {
    if ts == [] then [] else ['/'] + EscapeName(ts[0].name) + Stringify(ts[1..])
  }

  /** A name in a URI fragment from its `j`-th byte on; none when it is not UTF-8 there. */
  function UriName(name: Bytes, j: nat): Option<Bytes>
    requires j <= |name|
    decreases |name| - j
  {
    if j == |name| then Some([])
    else if name[j] == '~' || name[j] == '/' || !NeedPercentEncode(name[j]) then
      match UriName(name, j + 1)
      case None => None
      case Some(rest) => Some((if name[j] == '~' then "~0" else if name[j] == '/' then "~1" else [name[j]]) + rest)
    else
      var d := Decode(name, j);
      if !d.ok then None
      else
        EncodeDecode(name, j);
        match UriName(name, d.pos)
        case None => None
        case Some(rest) => Some(PercentAll(name[j..d.pos]) + rest)
  }

  function UriTokens(ts: seq<Token>): Option<Bytes> {
    if ts == [] then Some([])
    else
      match (UriName(ts[0].name, 0), UriTokens(ts[1..]))
      case (Some(name), Some(rest)) => Some(['/'] + name + rest)
      case _ => None
  }

  /** Stringify<true>: the text, or none where it returns false. */
  function StringifyUri(ts: seq<Token>): Option<Bytes> {
    match UriTokens(ts)
    case None => None
    case Some(rest) => Some(['#'] + rest)
  }

  // ---- the round trip -------------------------------------------------------------------------

  lemma StandsInside(s: Bytes, i: nat, v: Bytes, w: Bytes, x: Bytes)
    requires i <= |s| && s[i..] == v + w + x
    ensures Stands(s, i + |v|, w)
  {
    forall k | 0 <= k < |w| ensures s[i + |v| + k] == w[k] {
      assert s[i..][|v| + k] == w[k];
    }
  }

  /** One character of a name and its escape. */
  function EscapeChar(c: Byte): Bytes {
    if c == '~' then "~0" else if c == '/' then "~1" else [c]
  }

  lemma EscapedBack(s: Bytes, uri: bool, i: nat, acc: Bytes, c: Byte)
    requires Stands(s, i, EscapeChar(c)) && (uri ==> c == '~' || c == '/' || !NeedPercentEncode(c))
    ensures NameFrom(s, uri, i, acc) == NameFrom(s, uri, i + |EscapeChar(c)|, acc + [c])
  {
    var w := EscapeChar(c);
    assert s[i] == w[0];
    if |w| == 2 { assert s[i + 1] == w[1]; }
  }

  /** Reading an escaped name, up to a slash or the end. */
  lemma {:induction false} NameBack(s: Bytes, i: nat, acc: Bytes, name: Bytes)
    requires Stands(s, i, EscapeName(name))
    requires i + |EscapeName(name)| == |s| || s[i + |EscapeName(name)|] == '/'
    ensures NameFrom(s, false, i, acc) == Name(acc + name, i + |EscapeName(name)|)
    decreases |name|
  {
    hide Unescape;
    if name == [] {
      assert acc + name == acc;
    } else {
      var c, rest := name[0], name[1..];
      StandsConcat(s, i, EscapeChar(c), EscapeName(rest));
      EscapedBack(s, false, i, acc, c);
      NameBack(s, i + |EscapeChar(c)|, acc + [c], rest);
      assert acc + [c] + rest == acc + name;
    }
  }

  /** The tokens of every pointer that Parse produces carry the index of their name. */
  predicate Indexed(ts: seq<Token>) {
    forall k :: 0 <= k < |ts| ==> ts[k].index == IndexOf(ts[k].name)
  }

  lemma {:induction false} TokensAreIndexed(s: Bytes, uri: bool, i: nat)
    requires i <= |s| && (i == |s| || s[i] == '/')
    ensures TokensFrom(s, uri, i).Pointer? ==> Indexed(TokensFrom(s, uri, i).tokens)
    decreases |s| - i
  {
    hide NameFrom, IndexOf;
    if i < |s| && NameFrom(s, uri, i + 1, []).Name? {
      TokensAreIndexed(s, uri, NameFrom(s, uri, i + 1, []).end);
    }
  }

  lemma ParsedIsIndexed(s: Bytes)
    ensures Parse(s).Pointer? ==> Indexed(Parse(s).tokens)
  {
    hide TokensFrom, IndexOf;
    var i := if At(s, 0) == '#' then 1 else 0;
    if i == |s| || s[i] == '/' { TokensAreIndexed(s, At(s, 0) == '#', i); }
  }

  lemma NoTokensText()
    ensures Stringify([]) == []
  {
  }

  lemma StringifyCons(ts: seq<Token>)
    requires ts != []
    ensures Stringify(ts) == ['/'] + EscapeName(ts[0].name) + Stringify(ts[1..])
  {
  }

  lemma {:induction false} TokensBack(s: Bytes, i: nat, ts: seq<Token>)
    requires Indexed(ts) && i <= |s| && s[i..] == Stringify(ts)
    ensures i == |s| || s[i] == '/'
    ensures TokensFrom(s, false, i) == Pointer(ts)
    decreases |ts|
  {
    hide NameFrom, IndexOf, EscapeName, Stringify;
    if ts == [] {
      assert |s[i..]| == 0 by { assert Stringify([]) == [] by { NoTokensText(); } }
    } else {
      var name, rest := EscapeName(ts[0].name), ts[1..];
      StringifyCons(ts);
      var end := i + 1 + |name|;
      assert s[i..] == ['/'] + name + Stringify(rest);
      assert s[i] == s[i..][0] && s[end..] == s[i..][1 + |name|..];
      StandsInside(s, i, ['/'], name, Stringify(rest));
      TokensBack(s, end, rest);
      NameBack(s, i + 1, [], ts[0].name);
      assert [] + ts[0].name == ts[0].name;
      assert [ts[0]] + rest == ts;
    }
  }

  /** Printing and parsing a pointer gives the pointer; the text is no fragment. */
  lemma StringifyBack(ts: seq<Token>)
    requires Indexed(ts)
    ensures Parse(Stringify(ts)) == Pointer(ts) && (ts != [] ==> Stringify(ts) != [] && Stringify(ts)[0] == '/')
  {
    hide TokensFrom, IndexOf;
    var s := Stringify(ts);
    assert s[0..] == s;
    TokensBack(s, 0, ts);
  }

  // ---- the URI fragment form --------------------------------------------------------------------

  lemma TripletBack(s: Bytes, i: nat, b: Byte)
    requires Stands(s, i, Percent(b))
    ensures Triplet(s, i) == Some(b as int)
  {
    var w := Percent(b);
    assert s[i] == w[0] && s[i + 1] == w[1] && s[i + 2] == w[2];
  }

  lemma {:induction false} TripletsBack(s: Bytes, i: nat, bs: Bytes)
    requires Stands(s, i, PercentAll(bs))
    ensures Triplets(s, i, |bs|) == Some(bs)
    decreases |bs|
  {
    hide Triplet, Percent;
    if bs != [] {
      StandsConcat(s, i, Percent(bs[0]), PercentAll(bs[1..]));
      TripletBack(s, i, bs[0]);
      TripletsBack(s, i + 3, bs[1..]);
      assert [bs[0]] + bs[1..] == bs;
    }
  }

  /** Decode looks at nothing but the bytes it takes. */
  lemma DecodeSlice(name: Bytes, j: nat)
    requires j < |name| && Decode(name, j).ok
    ensures j < Decode(name, j).pos <= |name|
    ensures
      var bs := name[j..Decode(name, j).pos];
      && |bs| <= 4
      && Decode(bs, 0) == Decoded(true, Decode(name, j).cp, |bs|)
      && (name[j] as int < 0x80 ==> |bs| == 1)
      && (name[j] as int >= 0x80 ==> |bs| == |Masks(GetRange(name[j] as int))| + 1)
  {
    hide Decode, Encode;
    EncodeDecode(name, j);
    var d := Decode(name, j);
    var bs := name[j..d.pos];
    assert bs[0..0 + |Encode(d.cp)|] == bs;
    DecodeEncode(bs, 0, d.cp);
    LengthByLead(name, j);
  }

  lemma LengthByLead(name: Bytes, j: nat)
    requires j < |name| && Decode(name, j).ok
    ensures Decode(name, j).pos == j + (if name[j] as int < 0x80 then 1 else |Masks(GetRange(name[j] as int))| + 1)
  {
    hide Decode;
    DecodeByLead(name, j);
  }

  /** A character that was percent-encoded is read back. */
  lemma EncodedBack(s: Bytes, i: nat, acc: Bytes, name: Bytes, j: nat)
    requires j < |name| && Decode(name, j).ok && NeedPercentEncode(name[j]) && name[j] != '/'
    requires Decode(name, j).pos <= |name| && j < Decode(name, j).pos
    requires Stands(s, i, PercentAll(name[j..Decode(name, j).pos]))
    ensures
      var bs := name[j..Decode(name, j).pos];
      NameFrom(s, true, i, acc) == NameFrom(s, true, i + 3 * |bs|, acc + bs)
  {
    hide Decode, Triplet, Triplets, PercentAll, NeedPercentEncode;
    var bs := name[j..Decode(name, j).pos];
    DecodeSlice(name, j);
    TripletsBack(s, i, bs);
    FirstTriplet(s, i, bs);
    assert bs[0] == name[j];
    PercentAtIs(s, i, bs);
    assert name[j] != '~' by { assert !NeedPercentEncode('~') by { NoPercentForTilde(); } }
    if |bs| == 1 { assert bs == [name[j]]; }
  }

  lemma PercentAtIs(s: Bytes, i: nat, bs: Bytes)
    requires bs != [] && Triplet(s, i) == Some(bs[0] as int) && Triplets(s, i, |bs|) == Some(bs)
    requires if bs[0] as int < 0x80 then |bs| == 1 else Decode(bs, 0).ok && |bs| == |Masks(GetRange(bs[0] as int))| + 1
    ensures PercentAt(s, i) == Some(bs)
  {
    hide Decode, Triplet, Triplets, GetRange;
    if |bs| == 1 { assert bs == [bs[0]]; }
  }

  lemma NoPercentForTilde()
    ensures !NeedPercentEncode('~')
  {
  }

  lemma FirstTriplet(s: Bytes, i: nat, bs: Bytes)
    requires bs != [] && Stands(s, i, PercentAll(bs))
    ensures i < |s| && s[i] == '%' && Triplet(s, i) == Some(bs[0] as int)
  {
    hide Triplet;
    StandsConcat(s, i, Percent(bs[0]), PercentAll(bs[1..]));
    TripletBack(s, i, bs[0]);
    assert s[i] == Percent(bs[0])[0];
  }

  lemma NameEnds(s: Bytes, uri: bool, i: nat, acc: Bytes)
    requires i <= |s| && (i == |s| || s[i] == '/')
    ensures NameFrom(s, uri, i, acc) == Name(acc, i)
  {
  }

  lemma UriNameStep(name: Bytes, j: nat)
    requires j <= |name| && UriName(name, j).Some?
    ensures if j == |name| then UriName(name, j).value == []
            else if name[j] == '~' || name[j] == '/' || !NeedPercentEncode(name[j]) then
              UriName(name, j + 1).Some? && UriName(name, j).value == EscapeChar(name[j]) + UriName(name, j + 1).value
            else
              var d := Decode(name, j);
              d.ok && j < d.pos <= |name| && UriName(name, d.pos).Some? &&
              UriName(name, j).value == PercentAll(name[j..d.pos]) + UriName(name, d.pos).value
  {
    hide Decode, PercentAll, NeedPercentEncode;
    if j < |name| && Decode(name, j).ok { EncodeDecode(name, j); }
  }

  lemma PercentAllLength(bs: Bytes)
    ensures |PercentAll(bs)| == 3 * |bs|
  {
  }

  lemma {:induction false} UriNameBack(s: Bytes, i: nat, acc: Bytes, name: Bytes, j: nat)
    requires j <= |name| && UriName(name, j).Some? && Stands(s, i, UriName(name, j).value)
    requires i + |UriName(name, j).value| == |s| || s[i + |UriName(name, j).value|] == '/'
    ensures NameFrom(s, true, i, acc) == Name(acc + name[j..], i + |UriName(name, j).value|)
    decreases |name| - j
  {
    hide Unescape, Decode, PercentAll, NeedPercentEncode, PercentAt, NameFrom, UriName, EscapeChar;
    UriNameStep(name, j);
    if j == |name| {
      NameEnds(s, true, i, acc);
      assert acc + name[j..] == acc;
    } else if name[j] == '~' || name[j] == '/' || !NeedPercentEncode(name[j]) {
      var w := EscapeChar(name[j]);
      StandsConcat(s, i, w, UriName(name, j + 1).value);
      EscapedBack(s, true, i, acc, name[j]);
      UriNameBack(s, i + |w|, acc + [name[j]], name, j + 1);
      assert acc + [name[j]] + name[j + 1..] == acc + name[j..];
    } else {
      var bs, end := name[j..Decode(name, j).pos], Decode(name, j).pos;
      PercentAllLength(bs);
      StandsConcat(s, i, PercentAll(bs), UriName(name, end).value);
      EncodedBack(s, i, acc, name, j);
      UriNameBack(s, i + 3 * |bs|, acc + bs, name, end);
      assert acc + bs + name[end..] == acc + name[j..];
    }
  }

  lemma TailOf(s: Bytes, i: nat, first: Byte, name: Bytes, rest: Bytes)
    requires i <= |s| && s[i..] == [first] + name + rest
    ensures i + 1 + |name| <= |s| && s[i] == first && s[i + 1 + |name|..] == rest
  {
    assert s[i] == s[i..][0];
    assert s[i + 1 + |name|..] == s[i..][1 + |name|..];
  }

  lemma {:induction false} UriTokensBack(s: Bytes, i: nat, ts: seq<Token>)
    requires Indexed(ts) && i <= |s| && UriTokens(ts) == Some(s[i..])
    ensures i == |s| || s[i] == '/'
    ensures TokensFrom(s, true, i) == Pointer(ts)
    decreases |ts|
  {
    hide NameFrom, IndexOf, UriName, Stands;
    if ts != [] {
      var name, rest := UriName(ts[0].name, 0).value, ts[1..];
      var end := i + 1 + |name|;
      assert s[i..] == ['/'] + name + UriTokens(rest).value;
      TailOf(s, i, '/', name, UriTokens(rest).value);
      StandsInside(s, i, ['/'], name, UriTokens(rest).value);
      UriTokensBack(s, end, rest);
      UriNameBack(s, i + 1, [], ts[0].name, 0);
      assert [] + ts[0].name[0..] == ts[0].name;
      assert [ts[0]] + rest == ts;
    }
  }

  /** Whenever the URI fragment can be printed, parsing it gives the pointer. */
  lemma StringifyUriBack(ts: seq<Token>)
    requires Indexed(ts) && StringifyUri(ts).Some?
    ensures Parse(StringifyUri(ts).value) == Pointer(ts)
  {
    hide TokensFrom, IndexOf, UriTokens;
    var s := StringifyUri(ts).value;
    assert s[1..] == UriTokens(ts).value;
    UriTokensBack(s, 1, ts);
  }

  /** It can be printed exactly when every name is well-formed UTF-8. */
  lemma {:induction false} UriNameIffUtf8(name: Bytes, j: nat)
    requires j <= |name|
    ensures UriName(name, j).Some? <==> DecodeAll(name, j).Some?
    decreases |name| - j
  {
    hide PercentAll, Encode;
    if j < |name| {
      if name[j] == '~' || name[j] == '/' || !NeedPercentEncode(name[j]) {
        assert name[j] as int < 0x80;
        assert Decode(name, j) == Decoded(true, name[j] as int, j + 1);
        UriNameIffUtf8(name, j + 1);
      } else {
        UriNameIffUtf8Step(name, j);
        if Decode(name, j).ok { EncodeDecode(name, j); UriNameIffUtf8(name, Decode(name, j).pos); }
      }
    }
  }

  lemma UriNameIffUtf8Step(name: Bytes, j: nat)
    requires j < |name| && name[j] != '~' && name[j] != '/' && NeedPercentEncode(name[j])
    ensures !Decode(name, j).ok ==> UriName(name, j).None? && DecodeAll(name, j).None?
    ensures Decode(name, j).ok ==>
      && j < Decode(name, j).pos <= |name|
      && (UriName(name, j).Some? <==> UriName(name, Decode(name, j).pos).Some?)
      && (DecodeAll(name, j).Some? <==> DecodeAll(name, Decode(name, j).pos).Some?)
  {
    hide Decode, PercentAll, Encode;
    if Decode(name, j).ok { EncodeDecode(name, j); }
  }

  lemma {:induction false} PrintableIffUtf8(ts: seq<Token>)
    ensures StringifyUri(ts).Some? <==> forall k :: 0 <= k < |ts| ==> DecodeAll(ts[k].name, 0).Some?
    decreases |ts|
  {
    hide UriName, DecodeAll;
    if ts != [] {
      UriNameIffUtf8(ts[0].name, 0);
      PrintableIffUtf8(ts[1..]);
    }
  }

  // ---- names read from a URI fragment -----------------------------------------------------------

  predicate IsUtf8(bs: Bytes) {
    DecodeAll(bs, 0).Some?
  }

  lemma {:induction false} EncodeAllSnoc(cps: seq<CodePoint>, cp: CodePoint)
    ensures EncodeAll(cps + [cp]) == EncodeAll(cps) + Encode(cp)
  {
    hide Encode;
    if cps == [] {
      assert cps + [cp] == [cp] && [cp][1..] == [] && EncodeAll([]) == [];
    } else {
      assert (cps + [cp])[1..] == cps[1..] + [cp];
      EncodeAllSnoc(cps[1..], cp);
    }
  }

  lemma AppendChar(acc: Bytes, bs: Bytes)
    requires IsUtf8(acc) && bs != [] && Decode(bs, 0).ok && Decode(bs, 0).pos == |bs|
    ensures IsUtf8(acc + bs)
  {
    hide Decode, Encode, DecodeAll;
    EncodeAllDecodeAll(acc, 0);
    EncodeDecode(bs, 0);
    var cps, cp: CodePoint := DecodeAll(acc, 0).value, Decode(bs, 0).cp;
    EncodeAllSnoc(cps, cp);
    assert acc[0..] == acc && bs[0..|bs|] == bs;
    assert (acc + bs)[0..] == EncodeAll(cps + [cp]);
    DecodeAllEncodeAll(acc + bs, 0, cps + [cp]);
  }

  lemma AppendAscii(acc: Bytes, c: Byte)
    requires IsUtf8(acc) && c as int < 0x80
    ensures IsUtf8(acc + [c])
  {
    AppendChar(acc, [c]);
  }

  /** A name read from a URI fragment is well-formed UTF-8. */
  lemma {:induction false} UriNameIsUtf8(s: Bytes, i: nat, acc: Bytes)
    requires i <= |s| && IsUtf8(acc)
    ensures NameFrom(s, true, i, acc).Name? ==> IsUtf8(NameFrom(s, true, i, acc).name)
    decreases |s| - i, 0
  {
    hide IsUtf8, PercentAt, Unescape, NeedPercentEncode;
    if i < |s| && s[i] != '/' {
      if s[i] == '%' {
        if PercentAt(s, i).Some? {
          var bytes := PercentAt(s, i).value;
          PercentIsChar(s, i);
          if |bytes| == 1 {
            UnescapeIsUtf8(s, bytes[0], i + 3, acc);
          } else {
            AppendChar(acc, bytes);
            UriNameIsUtf8(s, i + 3 * |bytes|, acc + bytes);
          }
        }
      } else if !NeedPercentEncode(s[i]) {
        UnreservedIsAscii(s[i]);
        UnescapeIsUtf8(s, s[i], i + 1, acc);
      }
    }
  }

  lemma {:induction false} UnescapeIsUtf8(s: Bytes, c: Byte, next: nat, acc: Bytes)
    requires next <= |s| && IsUtf8(acc) && c as int < 0x80
    ensures Unescape(s, true, c, next, acc).Name? ==> IsUtf8(Unescape(s, true, c, next, acc).name)
    decreases |s| - next, 1
  {
    hide IsUtf8, NameFrom;
    AppendAscii(acc, c);
    AppendAscii(acc, '/');
    if c != '~' {
      UriNameIsUtf8(s, next, acc + [c]);
    } else if next < |s| {
      UriNameIsUtf8(s, next + 1, acc + ['~']);
      UriNameIsUtf8(s, next + 1, acc + ['/']);
    }
  }

  lemma UnreservedIsAscii(c: char)
    requires !NeedPercentEncode(c)
    ensures c as int < 0x80
  {
  }

  /** What triplets spell is exactly one character. */
  lemma PercentIsChar(s: Bytes, i: nat)
    requires PercentAt(s, i).Some?
    ensures
      var bytes := PercentAt(s, i).value;
      && Decode(bytes, 0).ok && Decode(bytes, 0).pos == |bytes|
      && (|bytes| == 1 ==> bytes[0] as int < 0x80)
  {
    hide Decode, Triplet;
    var bytes, b := PercentAt(s, i).value, Triplet(s, i).value;
    if b < 0x80 {
      AsciiDecodes(bytes);
    } else {
      assert Triplets(s, i, |Masks(GetRange(b))| + 1) == Some(bytes) && bytes[0] as int == b;
      LengthByLead(bytes, 0);
      EncodeDecode(bytes, 0);
    }
  }

  lemma AsciiDecodes(bytes: Bytes)
    requires |bytes| == 1 && bytes[0] as int < 0x80
    ensures Decode(bytes, 0).ok && Decode(bytes, 0).pos == 1
  {
  }

  lemma {:induction false} UriTokensAreUtf8(s: Bytes, i: nat)
    requires i <= |s| && (i == |s| || s[i] == '/')
    ensures TokensFrom(s, true, i).Pointer? ==>
      forall k :: 0 <= k < |TokensFrom(s, true, i).tokens| ==> IsUtf8(TokensFrom(s, true, i).tokens[k].name)
    decreases |s| - i
  {
    hide NameFrom, IndexOf, IsUtf8;
    if i < |s| {
      assert IsUtf8([]) by { EmptyIsUtf8(); }
      UriNameIsUtf8(s, i + 1, []);
      if NameFrom(s, true, i + 1, []).Name? {
        UriTokensAreUtf8(s, NameFrom(s, true, i + 1, []).end);
      }
    }
  }

  lemma EmptyIsUtf8()
    ensures IsUtf8([])
  {
  }

  /** A pointer that was parsed from a URI fragment survives printing as one: no condition is
      left, because all its names are well-formed. */
  lemma UriFormIsClosed(s: Bytes)
    requires At(s, 0) == '#' && Parse(s).Pointer?
    ensures StringifyUri(Parse(s).tokens).Some?
    ensures Parse(StringifyUri(Parse(s).tokens).value) == Parse(s)
  {
    hide TokensFrom, StringifyUri, DecodeAll, IndexOf;
    UriTokensAreUtf8(s, 1);
    PrintableIffUtf8(Parse(s).tokens);
    ParsedIsIndexed(s);
    StringifyUriBack(Parse(s).tokens);
  }
}
