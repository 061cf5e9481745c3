/** JSON Pointers as sections 3 and 6 of RFC 6901 spell them, as a string and as a URI fragment, and that
    the parser takes just these and gives each name as they mean it. */
module PointerGrammar {
  import opened Common
  import opened Utf8
  import opened JsonPointer

  /** What a name is made of: a character as it is, an escape, or, in a fragment, a character spelled by
      percent triplets; so may the tilde of an escape be. */
  datatype Unit = Plain(c: Byte) | Escape(tilde: Bytes, digit: Byte) | Percent(bytes: Bytes, spelled: Bytes)

  predicate IsHex(c: char) {
    '0' <= c <= '9' || 'A' <= c <= 'F' || 'a' <= c <= 'f'
  }

  function HexDigitValue(c: char): nat {
    if '0' <= c <= '9' then c as int - 48
    else if 'A' <= c <= 'F' then c as int - 55
    else if 'a' <= c <= 'f' then c as int - 87
    else 0
  }

  /** Each byte is a percent sign and two hexadecimal digits. */
  predicate IsTriplets(w: Bytes, bs: Bytes) {
    if bs == [] then w == []
    else
      |w| >= 3 && w[0] == '%' && IsHex(w[1]) && IsHex(w[2]) &&
      bs[0] as int == 16 * HexDigitValue(w[1]) + HexDigitValue(w[2]) && IsTriplets(w[3..], bs[1..])
  }

  ghost predicate IsUtf8Char(bs: Bytes) {
    exists cp: CodePoint :: bs == Encode(cp)
  }

  /** Section 2.3 of RFC 3986. */
  predicate IsUnreserved(c: char) {
    '0' <= c <= '9' || 'A' <= c <= 'Z' || 'a' <= c <= 'z' || c == '-' || c == '.' || c == '_' || c == '~'
  }

  ghost predicate IsUnit(uri: bool, u: Unit) {
    match u
    case Plain(c) =>
      if uri then IsUnreserved(c) && c != '~' else c != '/' && c != '~'
    case Escape(tilde, digit) =>
      (tilde == "~" || (uri && (tilde == "%7E" || tilde == "%7e"))) && (digit == '0' || digit == '1')
    case Percent(bs, w) => uri && IsUtf8Char(bs) && bs != "~" && IsTriplets(w, bs)
  }

  function UnitText(u: Unit): Bytes {
    match u
    case Plain(c) => [c]
    case Escape(tilde, digit) => tilde + [digit]
    case Percent(_, w) => w
  }

  function UnitMeaning(u: Unit): Bytes {
    match u
    case Plain(c) => [c]
    case Escape(_, digit) => if digit == '0' then ['~'] else ['/']
    case Percent(bs, _) => bs
  }

  ghost predicate AreUnits(uri: bool, us: seq<Unit>) {
    forall k :: 0 <= k < |us| ==> IsUnit(uri, us[k])
  }

  ghost predicate AllUnits(uri: bool, names: seq<seq<Unit>>) {
    forall k :: 0 <= k < |names| ==> AreUnits(uri, names[k])
  }

  function NameText(us: seq<Unit>): Bytes {
    if us == [] then [] else UnitText(us[0]) + NameText(us[1..])
  }

  function NameMeaning(us: seq<Unit>): Bytes {
    if us == [] then [] else UnitMeaning(us[0]) + NameMeaning(us[1..])
  }

  /** Names behind slashes. */
  function NamesText(names: seq<seq<Unit>>): Bytes {
    if names == [] then [] else ['/'] + (NameText(names[0]) + NamesText(names[1..]))
  }

  function NamesMeaning(names: seq<seq<Unit>>): seq<Token> {
    if names == [] then []
    else [Token(NameMeaning(names[0]), IndexOf(NameMeaning(names[0])))] + NamesMeaning(names[1..])
  }

  /** The text spells these names; a fragment starts with a number sign. */
  ghost predicate Spells(s: Bytes, names: seq<seq<Unit>>) {
    var uri := s != [] && s[0] == '#';
    AllUnits(uri, names) &&
    s == (if uri then ['#'] else []) + NamesText(names)
  }

  // ---- what is spelled is read ------------------------------------------------------------------

  lemma HexIs(c: char)
    ensures HexValue(c) == if IsHex(c) then Some(HexDigitValue(c)) else None
  {
  }

  lemma {:induction false} TripletsRead(s: Bytes, i: nat, w: Bytes, bs: Bytes)
    requires Stands(s, i, w) && IsTriplets(w, bs)
    ensures Triplets(s, i, |bs|) == Some(bs) && (bs != [] ==> Triplet(s, i) == Some(bs[0] as int))
    decreases |bs|
  {
    hide HexValue, HexDigitValue, IsHex, Stands;
    if bs != [] {
      CharStands(s, i, w, 0);
      CharStands(s, i, w, 1);
      CharStands(s, i, w, 2);
      HexIs(w[1]);
      HexIs(w[2]);
      assert w == w[..3] + w[3..];
      StandsConcat(s, i, w[..3], w[3..]);
      TripletsRead(s, i + 3, w[3..], bs[1..]);
      assert [bs[0]] + bs[1..] == bs;
    }
  }

  lemma {:induction false} TripletsLength(w: Bytes, bs: Bytes)
    requires IsTriplets(w, bs)
    ensures |w| == 3 * |bs|
  {
    if bs != [] { TripletsLength(w[3..], bs[1..]); }
  }

  /** A character's triplets are read as its bytes. */
  lemma PercentRead(s: Bytes, i: nat, w: Bytes, bs: Bytes)
    requires Stands(s, i, w) && IsTriplets(w, bs) && IsUtf8Char(bs)
    ensures PercentAt(s, i) == Some(bs) && bs != [] && i < |s| && s[i] == '%' && |w| == 3 * |bs|
  {
    hide Decode, Encode, Triplet, Triplets, HexDigitValue, IsHex;
    var cp: CodePoint :| bs == Encode(cp);
    assert bs[0..0 + |Encode(cp)|] == Encode(cp);
    DecodeEncode(bs, 0, cp);
    LengthByLead(bs, 0);
    TripletsRead(s, i, w, bs);
    TripletsLength(w, bs);
    PercentAtIs(s, i, bs);
    CharStands(s, i, w, 0);
  }

  lemma {:induction false} UnitRead(s: Bytes, uri: bool, i: nat, acc: Bytes, u: Unit)
    requires IsUnit(uri, u) && Stands(s, i, UnitText(u))
    ensures i + |UnitText(u)| <= |s| && UnitText(u) != []
    ensures NameFrom(s, uri, i, acc) == NameFrom(s, uri, i + |UnitText(u)|, acc + UnitMeaning(u))
  {
    hide PercentAt, Stands, IsTriplets, IsUtf8Char;
    StandsAsSlice(s, i, UnitText(u));
    match u
    case Plain(c) => FirstStands(s, i, [c]);
    case Escape(tilde, digit) =>
      StandsConcat(s, i, tilde, [digit]);
      FirstStands(s, i + |tilde|, [digit]);
      FirstStands(s, i, tilde);
      if |tilde| == 3 { TildeRead(s, i, tilde); }
    case Percent(bs, w) =>
      PercentRead(s, i, w, bs);
      if |bs| == 1 { assert bs == [bs[0]] && bs[0] != '~'; }
  }

  lemma TildeRead(s: Bytes, i: nat, tilde: Bytes)
    requires Stands(s, i, tilde) && (tilde == "%7E" || tilde == "%7e")
    ensures PercentAt(s, i) == Some(['~']) && s[i] == '%'
  {
    assert tilde[3..] == [] && ['~'][1..] == [];
    assert ['~'] == Encode(126);
    PercentRead(s, i, tilde, ['~']);
  }

  lemma {:induction false} NameRead(s: Bytes, uri: bool, i: nat, acc: Bytes, us: seq<Unit>)
    requires AreUnits(uri, us) && Stands(s, i, NameText(us))
    requires i + |NameText(us)| == |s| || s[i + |NameText(us)|] == '/'
    ensures i <= |s| && NameFrom(s, uri, i, acc) == Name(acc + NameMeaning(us), i + |NameText(us)|)
    decreases |us|
  {
    hide NameFrom, IsUnit, UnitText, UnitMeaning, Stands;
    StandsAsSlice(s, i, NameText(us));
    if us == [] {
      NameEnds(s, uri, i, acc);
      assert acc + [] == acc;
    } else {
      StandsConcat(s, i, UnitText(us[0]), NameText(us[1..]));
      UnitRead(s, uri, i, acc, us[0]);
      NameRead(s, uri, i + |UnitText(us[0])|, acc + UnitMeaning(us[0]), us[1..]);
      Assoc(acc, UnitMeaning(us[0]), NameMeaning(us[1..]));
    }
  }

  /** One name more. */
  lemma TokensStep(s: Bytes, uri: bool, i: nat, name: Bytes, end: nat)
    requires i < |s| && s[i] == '/' && NameFrom(s, uri, i + 1, []) == Name(name, end)
    ensures TokensFrom(s, uri, i) ==
            match TokensFrom(s, uri, end)
            case BadPointer(code, off) => BadPointer(code, off)
            case Pointer(rest) => Pointer([Token(name, IndexOf(name))] + rest)
  {
    hide NameFrom, IndexOf;
  }

  lemma NoTokens(s: Bytes, uri: bool)
    ensures TokensFrom(s, uri, |s|) == Pointer([])
  {
  }

  /** One name behind its slash. */
  lemma OneNameRead(s: Bytes, uri: bool, i: nat, us: seq<Unit>, rest: Bytes)
    requires AreUnits(uri, us) && i <= |s| && s[i..] == ['/'] + NameText(us) + rest
    requires rest == [] || rest[0] == '/'
    ensures var end := i + 1 + |NameText(us)|;
            i < |s| && s[i] == '/' && end <= |s| && s[end..] == rest &&
            NameFrom(s, uri, i + 1, []) == Name(NameMeaning(us), end)
  {
    hide NameFrom, AreUnits, NameText, NameMeaning, Stands;
    var name := NameText(us);
    TailOf(s, i, '/', name, rest);
    StandsInside(s, i, ['/'], name, rest);
    var end := i + 1 + |name|;
    assert end < |s| ==> s[end] == s[end..][0];
    NameRead(s, uri, i + 1, [], us);
    assert [] + NameMeaning(us) == NameMeaning(us);
  }

  lemma {:induction false} NamesRead(s: Bytes, uri: bool, i: nat, names: seq<seq<Unit>>)
    requires AllUnits(uri, names) && i <= |s| && s[i..] == NamesText(names)
    ensures i == |s| || s[i] == '/'
    ensures TokensFrom(s, uri, i) == Pointer(NamesMeaning(names))
    decreases |names|
  {
    hide NameFrom, IndexOf, AreUnits, NameText, NameMeaning, Stands, NamesText, TokensFrom, NamesMeaning, AllUnits;
    NamesMeaningIs(names);
    if names == [] {
      NamesTextIs(names);
      assert |s[i..]| == 0;
      NoTokens(s, uri);
    } else {
      FirstAndRest(uri, names);
      var end := FirstNameRead(s, uri, i, names);
      NamesRead(s, uri, end, names[1..]);
      TokensStep(s, uri, i, NameMeaning(names[0]), end);
    }
  }

  lemma FirstNameRead(s: Bytes, uri: bool, i: nat, names: seq<seq<Unit>>) returns (end: nat)
    requires names != [] && AllUnits(uri, names) && i <= |s| && s[i..] == NamesText(names)
    ensures i < end <= |s| && s[i] == '/' && s[end..] == NamesText(names[1..])
    ensures NameFrom(s, uri, i + 1, []) == Name(NameMeaning(names[0]), end)
  {
    hide NameFrom, AreUnits, NameText, NameMeaning, NamesText;
    NamesTextIs(names);
    NamesTextIs(names[1..]);
    OneNameRead(s, uri, i, names[0], NamesText(names[1..]));
    end := i + 1 + |NameText(names[0])|;
  }

  lemma FirstAndRest(uri: bool, names: seq<seq<Unit>>)
    requires AllUnits(uri, names) && names != []
    ensures AreUnits(uri, names[0]) && AllUnits(uri, names[1..])
  {
    hide AreUnits;
  }

  lemma NamesMeaningIs(names: seq<seq<Unit>>)
    ensures NamesMeaning(names) ==
            if names == [] then []
            else [Token(NameMeaning(names[0]), IndexOf(NameMeaning(names[0])))] + NamesMeaning(names[1..])
  {
    hide NameMeaning, IndexOf;
  }

  lemma NamesTextIs(names: seq<seq<Unit>>)
    ensures NamesText(names) == if names == [] then [] else ['/'] + NameText(names[0]) + NamesText(names[1..])
  {
    hide NameText;
    if names != [] { Assoc(['/'], NameText(names[0]), NamesText(names[1..])); }
  }

  // ---- what is read is spelled ------------------------------------------------------------------

  lemma {:induction false} TripletsFrom(s: Bytes, i: nat, n: nat) returns (w: Bytes)
    requires Triplets(s, i, n).Some? && i <= |s|
    ensures IsTriplets(w, Triplets(s, i, n).value) && |w| == 3 * n && Stands(s, i, w)
    decreases n
  {
    hide HexValue, HexDigitValue, IsHex, Stands;
    w := [];
    if n == 0 {
      NothingStands(s, i);
    } else {
      HexIs(s[i + 1]);
      HexIs(s[i + 2]);
      SliceStands(s, i, i + 3);
      var rest := TripletsFrom(s, i + 3, n - 1);
      w := s[i..i + 3] + rest;
      assert w[3..] == rest && w[1] == s[i + 1] && w[2] == s[i + 2];
      StandsJoin(s, i, s[i..i + 3], rest);
    }
  }

  /** A character that triplets spell. */
  lemma PercentFrom(s: Bytes, i: nat) returns (w: Bytes)
    requires i < |s| && PercentAt(s, i).Some?
    ensures IsTriplets(w, PercentAt(s, i).value) && Stands(s, i, w) && |w| == 3 * |PercentAt(s, i).value|
    ensures IsUtf8Char(PercentAt(s, i).value)
  {
    hide Decode, Encode, Triplet, Triplets, Stands, GetRange, IsTriplets;
    var bs := PercentAt(s, i).value;
    PercentIsChar(s, i);
    EncodeDecode(bs, 0);
    assert bs[0..|bs|] == bs;
    var cp: CodePoint := Decode(bs, 0).cp;
    assert bs == Encode(cp);
    OneTriplet(s, i);
    w := TripletsFrom(s, i, |bs|);
  }

  lemma OneTriplet(s: Bytes, i: nat)
    requires PercentAt(s, i).Some?
    ensures Triplets(s, i, |PercentAt(s, i).value|) == PercentAt(s, i)
  {
    hide Decode, GetRange;
    if Triplet(s, i).value < 0x80 {
      var one := [U(Triplet(s, i).value)];
      assert Triplets(s, i + 3, 0) == Some([]) && one + [] == one;
    }
  }

  /** A unit can be read here. */
  predicate StepsOn(s: Bytes, uri: bool, i: nat) {
    i < |s| && s[i] != '/' &&
    if uri && s[i] == '%' then
      PercentAt(s, i).Some? &&
      (PercentAt(s, i).value == ['~'] ==> i + 3 < |s| && (s[i + 3] == '0' || s[i + 3] == '1'))
    else if s[i] == '~' then i + 1 < |s| && (s[i + 1] == '0' || s[i + 1] == '1')
    else uri ==> !NeedPercentEncode(s[i])
  }

  lemma {:induction false} NameSteps(s: Bytes, uri: bool, i: nat, acc: Bytes)
    requires i < |s| && s[i] != '/' && NameFrom(s, uri, i, acc).Name?
    ensures StepsOn(s, uri, i)
  {
    hide PercentAt;
  }

  /** The unit that is read. */
  lemma {:induction false} UnitFrom(s: Bytes, uri: bool, i: nat) returns (u: Unit)
    requires StepsOn(s, uri, i)
    ensures IsUnit(uri, u) && Stands(s, i, UnitText(u))
  {
    hide PercentAt, Stands, IsTriplets, IsUtf8Char;
    if uri && s[i] == '%' {
      var bs := PercentAt(s, i).value;
      var w := PercentFrom(s, i);
      if bs == ['~'] {
        TildeSpelled(w);
        u := Escape(w, s[i + 3]);
        SliceStands(s, i + 3, i + 4);
        assert s[i + 3..i + 4] == [s[i + 3]];
        StandsJoin(s, i, w, [s[i + 3]]);
      } else {
        u := Percent(bs, w);
      }
    } else if s[i] == '~' {
      u := Escape("~", s[i + 1]);
      SliceStands(s, i, i + 2);
      assert s[i..i + 2] == "~" + [s[i + 1]];
    } else {
      u := Plain(s[i]);
      SliceStands(s, i, i + 1);
      assert s[i..i + 1] == [s[i]];
    }
  }

  lemma TildeSpelled(w: Bytes)
    requires IsTriplets(w, ['~'])
    ensures w == "%7E" || w == "%7e"
  {
    assert |w| == 3 && ['~'][1..] == [];
    assert w == [w[0], w[1], w[2]];
  }

  lemma {:induction false} NameIsSpelled(s: Bytes, uri: bool, i: nat, acc: Bytes) returns (us: seq<Unit>)
    requires i <= |s| && NameFrom(s, uri, i, acc).Name?
    ensures AreUnits(uri, us) && Stands(s, i, NameText(us)) && NameFrom(s, uri, i, acc).end == i + |NameText(us)|
    decreases |s| - i
  {
    hide Stands, IsUnit, UnitText, UnitMeaning, PercentAt, Unescape, NeedPercentEncode;
    us := [];
    if i == |s| || s[i] == '/' {
      NothingStands(s, i);
    } else {
      NameSteps(s, uri, i, acc);
      var u := UnitFrom(s, uri, i);
      UnitRead(s, uri, i, acc, u);
      var rest := NameIsSpelled(s, uri, i + |UnitText(u)|, acc + UnitMeaning(u));
      us := [u] + rest;
      assert us[1..] == rest;
      StandsJoin(s, i, UnitText(u), NameText(rest));
    }
  }

  lemma {:induction false} NamesAreSpelled(s: Bytes, uri: bool, i: nat) returns (names: seq<seq<Unit>>)
    requires i <= |s| && (i == |s| || s[i] == '/') && TokensFrom(s, uri, i).Pointer?
    ensures AllUnits(uri, names)
    ensures s[i..] == NamesText(names)
    decreases |s| - i
  {
    hide Stands, NameFrom, AreUnits, NameText, IndexOf;
    names := [];
    if i < |s| {
      var end := NameFrom(s, uri, i + 1, []).end;
      var us := NameIsSpelled(s, uri, i + 1, []);
      var rest := NamesAreSpelled(s, uri, end);
      StandsAsSlice(s, i + 1, NameText(us));
      names := [us] + rest;
      assert names[1..] == rest;
      assert s[i..] == ['/'] + (s[i + 1..end] + s[end..]);
    }
  }

  /** The parser takes exactly the texts that RFC 6901 has, and each name is what it means there. */
  lemma ParsesIffSpelled(s: Bytes)
    ensures Parse(s).Pointer? <==> exists names :: Spells(s, names)
    ensures forall names :: Spells(s, names) ==> Parse(s) == Pointer(NamesMeaning(names))
  {
    hide TokensFrom, AreUnits, NamesText, NamesMeaning;
    var uri := s != [] && s[0] == '#';
    var i := if uri then 1 else 0;
    forall names | Spells(s, names) ensures Parse(s) == Pointer(NamesMeaning(names)) {
      assert s[i..] == NamesText(names);
      NamesRead(s, uri, i, names);
    }
    if Parse(s).Pointer? {
      var names := NamesAreSpelled(s, uri, i);
      assert s == s[..i] + s[i..];
      assert Spells(s, names);
    }
  }

  // ---- what is wrong ----------------------------------------------------------------------------

  /** Behind a name's units up to `q` this is wrong. */
  ghost predicate WrongName(s: Bytes, uri: bool, q: nat, code: ErrorCode, off: nat) {
    match code
    case TokenMustBeginWithSolidus => false
    case InvalidEscape =>
      (exists tilde: Bytes :: (tilde == "~" || (uri && (tilde == "%7E" || tilde == "%7e"))) && Stands(s, q, tilde) &&
        off == q + |tilde|) &&
      (off < |s| ==> s[off] != '0' && s[off] != '1')
    case InvalidPercentEncoding =>
      uri && off == q < |s| && s[q] == '%' &&
      !exists bs: Bytes, w: Bytes :: IsUtf8Char(bs) && IsTriplets(w, bs) && Stands(s, q, w)
    case CharacterMustPercentEncode =>
      uri && off == q < |s| && !IsUnreserved(s[q]) && s[q] != '%' && s[q] != '/'
  }

  /** Up to here the text can be read, and here it cannot. */
  ghost predicate Wrong(s: Bytes, names: seq<seq<Unit>>, us: seq<Unit>, code: ErrorCode, off: nat) {
    var uri := s != [] && s[0] == '#';
    var i := if uri then 1 else 0;
    if code == TokenMustBeginWithSolidus then off == i < |s| && s[i] != '/'
    else
      var w := NamesText(names) + (['/'] + NameText(us));
      AllUnits(uri, names) && AreUnits(uri, us) &&
      Stands(s, i, w) && WrongName(s, uri, i + |w|, code, off)
  }

  lemma {:induction false} NameWrong(s: Bytes, uri: bool, i: nat, acc: Bytes) returns (us: seq<Unit>)
    requires i <= |s| && NameFrom(s, uri, i, acc).BadName?
    ensures AreUnits(uri, us) && Stands(s, i, NameText(us))
    ensures WrongName(s, uri, i + |NameText(us)|, NameFrom(s, uri, i, acc).code, NameFrom(s, uri, i, acc).off)
    decreases |s| - i
  {
    hide Stands, IsUnit, UnitText, UnitMeaning, PercentAt, NameFrom, WrongName;
    us := [];
    NothingStands(s, i);
    if StepsOn(s, uri, i) {
      var u := UnitFrom(s, uri, i);
      UnitRead(s, uri, i, acc, u);
      var rest := NameWrong(s, uri, i + |UnitText(u)|, acc + UnitMeaning(u));
      us := [u] + rest;
      assert us[1..] == rest;
      StandsJoin(s, i, UnitText(u), NameText(rest));
    } else {
      StopsHere(s, uri, i, acc);
    }
  }

  lemma {:induction false} StopsHere(s: Bytes, uri: bool, i: nat, acc: Bytes)
    requires i <= |s| && NameFrom(s, uri, i, acc).BadName? && !StepsOn(s, uri, i)
    ensures WrongName(s, uri, i, NameFrom(s, uri, i, acc).code, NameFrom(s, uri, i, acc).off)
  {
    hide PercentAt, Stands, IsTriplets, IsUtf8Char;
    if uri && s[i] == '%' {
      if PercentAt(s, i).None? {
        forall bs: Bytes, w: Bytes | IsUtf8Char(bs) && IsTriplets(w, bs) && Stands(s, i, w) ensures false {
          PercentRead(s, i, w, bs);
        }
      } else {
        var w := PercentFrom(s, i);
        TildeSpelled(w);
      }
    } else if s[i] == '~' {
      SliceStands(s, i, i + 1);
      assert s[i..i + 1] == "~";
    }
  }

  lemma {:induction false} TokensWrong(s: Bytes, uri: bool, i: nat) returns (names: seq<seq<Unit>>, us: seq<Unit>)
    requires i <= |s| && (i == |s| || s[i] == '/') && TokensFrom(s, uri, i).BadPointer?
    ensures AllUnits(uri, names) && AreUnits(uri, us)
    ensures var w := NamesText(names) + (['/'] + NameText(us));
            Stands(s, i, w) &&
            WrongName(s, uri, i + |w|, TokensFrom(s, uri, i).code, TokensFrom(s, uri, i).off)
    decreases |s| - i
  {
    hide Stands, NameFrom, AreUnits, NameText, IndexOf, WrongName;
    names := [];
    SliceStands(s, i, i + 1);
    assert s[i..i + 1] == ['/'];
    if NameFrom(s, uri, i + 1, []).BadName? {
      us := NameWrong(s, uri, i + 1, []);
      StandsJoin(s, i, ['/'], NameText(us));
      assert NamesText(names) + (['/'] + NameText(us)) == ['/'] + NameText(us);
    } else {
      var end := NameFrom(s, uri, i + 1, []).end;
      var first := NameIsSpelled(s, uri, i + 1, []);
      var rest;
      rest, us := TokensWrong(s, uri, end);
      names := [first] + rest;
      assert names[1..] == rest;
      var w := NamesText(rest) + (['/'] + NameText(us));
      StandsJoin(s, i + 1, NameText(first), w);
      StandsJoin(s, i, ['/'], NameText(first) + w);
      Assoc(NameText(first), NamesText(rest), ['/'] + NameText(us));
      Assoc(['/'], NameText(first) + NamesText(rest), ['/'] + NameText(us));
    }
  }

  /** Every error has its reason, and its place is the reason's. */
  lemma ErrorsAreReasoned(s: Bytes) returns (names: seq<seq<Unit>>, us: seq<Unit>)
    requires Parse(s).BadPointer?
    ensures Wrong(s, names, us, Parse(s).code, Parse(s).off)
  {
    hide TokensFrom, AreUnits, NamesText, WrongName, Stands;
    var uri := s != [] && s[0] == '#';
    var i := if uri then 1 else 0;
    names, us := [], [];
    if i == |s| || s[i] == '/' {
      names, us := TokensWrong(s, uri, i);
      WrongIsNoStart(s, uri, i + |NamesText(names) + (['/'] + NameText(us))|, Parse(s).code, Parse(s).off);
    }
  }

  lemma WrongIsNoStart(s: Bytes, uri: bool, q: nat, code: ErrorCode, off: nat)
    requires WrongName(s, uri, q, code, off)
    ensures code != TokenMustBeginWithSolidus
  {
  }

  // ---- how a fragment is printed ----------------------------------------------------------------

  /** Spelled no longer than it must be, and with capital digits. */
  predicate IsLean(u: Unit) {
    match u
    case Plain(_) => true
    case Escape(tilde, _) => tilde == "~"
    case Percent(bs, w) =>
      bs != [] && bs[0] != '/' && !IsUnreserved(bs[0]) && forall k :: 0 <= k < |w| ==> !('a' <= w[k] <= 'f')
  }

  lemma {:induction false} PercentAllIs(bs: Bytes)
    ensures IsTriplets(PercentAll(bs), bs)
    ensures forall k :: 0 <= k < |PercentAll(bs)| ==> !('a' <= PercentAll(bs)[k] <= 'f')
  {
    if bs != [] {
      PercentAllIs(bs[1..]);
      var w := JsonPointer.Percent(bs[0]);
      assert PercentAll(bs)[3..] == PercentAll(bs[1..]);
      assert PercentAll(bs)[0] == w[0] && PercentAll(bs)[1] == w[1] && PercentAll(bs)[2] == w[2];
      forall k | 0 <= k < |PercentAll(bs)| ensures !('a' <= PercentAll(bs)[k] <= 'f') {
        if k >= 3 { assert PercentAll(bs)[k] == PercentAll(bs[1..])[k - 3]; }
      }
    }
  }

  lemma {:induction false} NameUnits(name: Bytes, j: nat) returns (us: seq<Unit>)
    requires j <= |name| && UriName(name, j).Some?
    ensures NameText(us) == UriName(name, j).value && NameMeaning(us) == name[j..]
    ensures forall k :: 0 <= k < |us| ==> IsUnit(true, us[k]) && IsLean(us[k])
    decreases |name| - j
  {
    hide UriName, Decode, Encode, PercentAll, IsTriplets, IsUtf8Char;
    UriNameStep(name, j);
    us := [];
    if j < |name| {
      var u, end;
      if name[j] == '~' || name[j] == '/' || !NeedPercentEncode(name[j]) {
        end := j + 1;
        u := if name[j] == '~' then Escape("~", '0') else if name[j] == '/' then Escape("~", '1') else Plain(name[j]);
        assert name[j..] == [name[j]] + name[end..];
      } else {
        end := Decode(name, j).pos;
        CharAt(name, j);
        PercentAllIs(name[j..end]);
        u := Percent(name[j..end], PercentAll(name[j..end]));
        assert name[j..] == name[j..end] + name[end..];
      }
      var rest := NameUnits(name, end);
      us := [u] + rest;
      assert us[1..] == rest;
    }
  }

  lemma CharAt(name: Bytes, j: nat)
    requires j < |name| && Decode(name, j).ok
    ensures j < Decode(name, j).pos <= |name| && IsUtf8Char(name[j..Decode(name, j).pos])
  {
    hide Decode, Encode;
    EncodeDecode(name, j);
    var cp: CodePoint := Decode(name, j).cp;
    assert name[j..Decode(name, j).pos] == Encode(cp);
  }

  lemma {:induction false} FragmentUnits(ts: seq<Token>) returns (names: seq<seq<Unit>>)
    requires UriTokens(ts).Some?
    ensures NamesText(names) == UriTokens(ts).value && |names| == |ts|
    ensures forall n :: 0 <= n < |ts| ==>
      NameMeaning(names[n]) == ts[n].name && forall k :: 0 <= k < |names[n]| ==>
        IsUnit(true, names[n][k]) && IsLean(names[n][k])
  {
    hide UriName, NameText, NameMeaning, IsUnit, IsLean;
    names := [];
    if ts != [] {
      var first := NameUnits(ts[0].name, 0);
      var rest := FragmentUnits(ts[1..]);
      names := [first] + rest;
      assert names[1..] == rest;
      Assoc(['/'], NameText(first), NamesText(rest));
      forall n | 0 <= n < |ts|
        ensures NameMeaning(names[n]) == ts[n].name && forall k :: 0 <= k < |names[n]| ==>
          IsUnit(true, names[n][k]) && IsLean(names[n][k])
      {
        if n > 0 { assert names[n] == rest[n - 1] && ts[n] == ts[1..][n - 1]; }
      }
    }
  }

  /** The printed fragment spells the names, and each character no longer than it must. */
  lemma FragmentIsLean(ts: seq<Token>) returns (names: seq<seq<Unit>>)
    requires StringifyUri(ts).Some?
    ensures Spells(StringifyUri(ts).value, names) && |names| == |ts|
    ensures forall n :: 0 <= n < |ts| ==>
      NameMeaning(names[n]) == ts[n].name && forall k :: 0 <= k < |names[n]| ==> IsLean(names[n][k])
  {
    hide UriTokens, NamesText, NameMeaning, IsUnit, IsLean;
    names := FragmentUnits(ts);
  }
}
