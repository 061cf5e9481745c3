/** JSON strings: the writer's escaping and the reader's unescaping (section 7 of RFC 8259). */
module JsonString {
  import opened Common
  import opened JsonStream
  import Utf8

  /** The decoded string and the position behind the closing quote, or the error. */
  datatype Scanned = Scanned(text: string, end: nat) | BadString(code: ErrorCode, off: nat)

  // ---- reading ------------------------------------------------------------------------------

  /** The reader's escape table. */
  function Unescape(e: char): Option<char> {
    match e
    case '\"' => Some('\"')
    case '/' => Some('/')
    case '\\' => Some('\\')
    case 'b' => Some(8 as char)
    case 'f' => Some(12 as char)
    case 'n' => Some('\n')
    case 'r' => Some('\r')
    case 't' => Some('\t')
    case _ => None
  }

  function HexValue(c: char): (r: Option<nat>)
    ensures r.Some? ==> r.value < 16 && c != '\0'
  {
    if '0' <= c <= '9' then Some(c as int - '0' as int)
    else if 'A' <= c <= 'F' then Some(c as int - 'A' as int + 10)
    else if 'a' <= c <= 'f' then Some(c as int - 'a' as int + 10)
    else None
  }

  /** The value of the first `n` hexadecimal digits at `p`. */
  function Hex(s: string, p: nat, n: nat): (r: Option<nat>)
    ensures r.Some? ==> n == 0 || p + n <= |s|
    ensures r.Some? && n == 0 ==> r.value == 0
    ensures r.Some? && n <= 1 ==> r.value < 0x10
    ensures r.Some? && n <= 2 ==> r.value < 0x100
    ensures r.Some? && n <= 3 ==> r.value < 0x1000
    ensures r.Some? && n <= 4 ==> r.value < 0x10000
  {
    if n == 0 then Some(0)
    else
      match (Hex(s, p, n - 1), HexValue(Peek(s, p + n - 1)))
      case (Some(v), Some(d)) => Some(v * 16 + d)
      case _ => None
  }

  /** A `\u` escape: its code point and the position behind it. */
  datatype Unicode = Unicode(cp: Utf8.CodePoint, end: nat) | BadUnicode(code: ErrorCode)

  /** The `\u` escape whose hexadecimal digits start at `p`; a high surrogate takes a second. */
  function UnicodeAt(s: string, p: nat): (r: Unicode)
    ensures r.Unicode? ==> p < r.end <= |s|
    ensures r.BadUnicode? ==> r.code != Termination
  {
    match Hex(s, p, 4)
    case None => BadUnicode(StringUnicodeEscapeInvalidHex)
    case Some(u) =>
      if !(0xD800 <= u <= 0xDFFF) then Unicode(u, p + 4)
      else if u > 0xDBFF || Peek(s, p + 4) != '\\' || Peek(s, p + 5) != 'u' then
        BadUnicode(StringUnicodeSurrogateInvalid)
      else
        match Hex(s, p + 6, 4)
        case None => BadUnicode(StringUnicodeEscapeInvalidHex)
        case Some(v) =>
          if !(0xDC00 <= v <= 0xDFFF) then BadUnicode(StringUnicodeSurrogateInvalid)
          else Unicode((u - 0xD800) * 0x400 + (v - 0xDC00) + 0x10000, p + 10)
  }

  /** What an escape stands for and the position behind it. */
  datatype Escaped = Escaped(text: string, end: nat) | BadEscape(code: ErrorCode)

  /** The escape whose backslash is at `p`. */
  function EscapeAt(s: string, p: nat, apostrophe: bool): (r: Escaped)
    ensures r.Escaped? ==> p < r.end <= |s|
    ensures r.BadEscape? ==> r.code != Termination
  {
    var e := Peek(s, p + 1);
    if Unescape(e).Some? then Escaped([Unescape(e).value], p + 2)
    else if apostrophe && e == '\'' then Escaped([e], p + 2)
    else if e == 'u' then
      match UnicodeAt(s, p + 2)
      case BadUnicode(code) => BadEscape(code)
      case Unicode(cp, end) => Escaped(Utf8.Encode(cp), end)
    else BadEscape(StringEscapeInvalid)
  }

  /** ParseStringToStream from `p` on, with `acc` decoded so far. */
  function Scan(s: string, p: nat, apostrophe: bool, acc: string): (r: Scanned)
    requires p <= |s|
    ensures r.Scanned? ==> p < r.end <= |s|
    ensures r.BadString? ==> r.code != Termination
    decreases |s| - p
  {
    var c := Peek(s, p);
    if c == '\\' then
      match EscapeAt(s, p, apostrophe)
      case BadEscape(code) => BadString(code, p)
      case Escaped(text, end) => Scan(s, end, apostrophe, acc + text)
    else if c == '\"' then Scanned(acc, p + 1)
    else if c < ' ' then BadString(if c == '\0' then StringMissQuotationMark else StringInvalidEncoding, p)
    else Scan(s, p + 1, apostrophe, acc + [c])
  }

  /** ParseStringToStream. */
  method ParseString(s: string, start: nat, apostrophe: bool) returns (r: Scanned)
    requires start <= |s|
    ensures r == Scan(s, start, apostrophe, "")
  {
    var p, acc := start, "";
    while true
      invariant p <= |s| && Scan(s, p, apostrophe, acc) == Scan(s, start, apostrophe, "")
      decreases |s| - p
    {
      var c := Peek(s, p);
      if c == '\\' {
        var e := ParseEscape(s, p, apostrophe);
        if e.BadEscape? {
          return BadString(e.code, p);
        }
        p, acc := e.end, acc + e.text;
      } else if c == '\"' {
        return Scanned(acc, p + 1);
      } else if c < ' ' {
        return BadString(if c == '\0' then StringMissQuotationMark else StringInvalidEncoding, p);
      } else {
        p, acc := p + 1, acc + [c];
      }
    }
  }

  method ParseEscape(s: string, p: nat, apostrophe: bool) returns (r: Escaped)
    ensures r == EscapeAt(s, p, apostrophe)
  {
    var e := Peek(s, p + 1);
    if Unescape(e).Some? {
      r := Escaped([Unescape(e).value], p + 2);
    } else if apostrophe && e == '\'' {
      r := Escaped([e], p + 2);
    } else if e == 'u' {
      var u := ParseUnicode(s, p + 2);
      r := match u
        case BadUnicode(code) => BadEscape(code)
        case Unicode(cp, end) => Escaped(Utf8.Encode(cp), end);
    } else {
      r := BadEscape(StringEscapeInvalid);
    }
  }

  method ParseUnicode(s: string, p: nat) returns (r: Unicode)
    ensures r == UnicodeAt(s, p)
  {
    var u := ParseHex4(s, p);
    if u.None? {
      return BadUnicode(StringUnicodeEscapeInvalidHex);
    }
    var codepoint := u.value;
    if 0xD800 <= codepoint <= 0xDFFF {
      if codepoint > 0xDBFF || Peek(s, p + 4) != '\\' || Peek(s, p + 5) != 'u' {
        return BadUnicode(StringUnicodeSurrogateInvalid);
      }
      var v := ParseHex4(s, p + 6);
      if v.None? {
        return BadUnicode(StringUnicodeEscapeInvalidHex);
      }
      if v.value < 0xDC00 || v.value > 0xDFFF {
        return BadUnicode(StringUnicodeSurrogateInvalid);
      }
      return Unicode((codepoint - 0xD800) * 0x400 + (v.value - 0xDC00) + 0x10000, p + 10);
    }
    return Unicode(codepoint, p + 4);
  }

  /** ParseHex4. */
  method ParseHex4(s: string, p: nat) returns (r: Option<nat>)
    ensures r == Hex(s, p, 4)
  {
    hide HexValue;
    var codepoint: nat := 0;
    for i := 0 to 4
      invariant Hex(s, p, i) == Some(codepoint)
    {
      match HexValue(Peek(s, p + i)) {
        case None =>
          HexFails(s, p, i + 1, 4);
          return None;
        case Some(d) => codepoint := codepoint * 16 + d;
      }
    }
    return Some(codepoint);
  }

  lemma HexFails(s: string, p: nat, m: nat, n: nat)
    requires m <= n && Hex(s, p, m).None?
    ensures Hex(s, p, n).None?
    decreases n
  {
    if m < n { HexFails(s, p, m, n - 1); }
  }

  // ---- writing ------------------------------------------------------------------------------

  function HexDigit(d: nat): char
    requires d < 16
  {
    "0123456789ABCDEF"[d]
  }

  /** The writer's escape table: the letter behind the backslash, or none. */
  function EscapeLetter(c: char): Option<char> {
    if c == '\"' || c == '\\' then Some(c)
    else if c >= ' ' then None
    else match c as int
      case 8 => Some('b')
      case 9 => Some('t')
      case 10 => Some('n')
      case 12 => Some('f')
      case 13 => Some('r')
      case _ => Some('u')
  }

  /** What one character is written as. */
  function Escape(c: char): (r: string)
    ensures |r| >= 1
  {
    match EscapeLetter(c)
    case None => [c]
    case Some(letter) =>
      if letter == 'u' then
        assert c as int < 32;
        ['\\', 'u', '0', '0', HexDigit(c as int / 16), HexDigit(c as int % 16)]
      else ['\\', letter]
  }

  function EscapeAll(t: string): string {
    if t == [] then [] else Escape(t[0]) + EscapeAll(t[1..])
  }

  lemma EscapeAllFrom(t: string, i: nat)
    requires i <= |t|
    ensures EscapeAll(t[i..]) == if i == |t| then [] else Escape(t[i]) + EscapeAll(t[i + 1..])
  {
    if i < |t| { assert t[i..][1..] == t[i + 1..]; }
  }

  /** What WriteString puts for `t`. */
  function Quote(t: string): string {
    ['\"'] + EscapeAll(t) + ['\"']
  }

  // ---- escapes of scalar values -------------------------------------------------------------

  /** The four hexadecimal digits of a code unit. */
  function Hex4(u: nat): (w: string)
    requires u < 0x10000
    ensures |w| == 4
  {
    [HexDigit(u / 4096), HexDigit(u / 256 % 16), HexDigit(u / 16 % 16), HexDigit(u % 16)]
  }

  /** What follows `\u` when a code point is escaped: its UTF-16 code units. */
  function EscapeScalar(cp: Utf8.CodePoint): string {
    if cp <= 0xFFFF then Hex4(cp)
    else Hex4((cp - 0x10000) / 0x400 + 0xD800) + "\\u" + Hex4((cp - 0x10000) % 0x400 + 0xDC00)
  }

  lemma HexBack(d: nat)
    requires d < 16
    ensures HexValue(HexDigit(d)) == Some(d)
  {
  }

  lemma Nibbles(u: nat)
    requires u < 0x10000
    ensures u / 256 == u / 4096 * 16 + u / 256 % 16 && u / 16 == u / 256 * 16 + u / 16 % 16 && u == u / 16 * 16 + u % 16
  {
  }

  lemma HexStep(s: string, p: nat, n: nat, v: nat, d: nat)
    requires Hex(s, p, n) == Some(v) && HexValue(Peek(s, p + n)) == Some(d)
    ensures Hex(s, p, n + 1) == Some(v * 16 + d)
  {
  }

  lemma Hex4At(s: string, p: nat, u: nat)
    requires u < 0x10000 && Stands(s, p, Hex4(u))
    ensures p + 4 <= |s| && s[p] == HexDigit(u / 4096) && s[p + 1] == HexDigit(u / 256 % 16)
    ensures s[p + 2] == HexDigit(u / 16 % 16) && s[p + 3] == HexDigit(u % 16)
  {
    hide HexDigit;
    var w := Hex4(u);
    assert s[p] == w[0] && s[p + 1] == w[1] && s[p + 2] == w[2] && s[p + 3] == w[3];
  }

  lemma Hex4Back(s: string, p: nat, u: nat)
    requires u < 0x10000 && Stands(s, p, Hex4(u))
    ensures Hex(s, p, 4) == Some(u)
  {
    hide HexDigit, HexValue, Hex4, Stands;
    Hex4At(s, p, u);
    HexBack(u / 4096);
    HexBack(u / 256 % 16);
    HexBack(u / 16 % 16);
    HexBack(u % 16);
    Nibbles(u);
    assert Hex(s, p, 0) == Some(0);
    HexStep(s, p, 0, 0, u / 4096);
    HexStep(s, p, 1, u / 4096, u / 256 % 16);
    HexStep(s, p, 2, u / 256, u / 16 % 16);
    HexStep(s, p, 3, u / 16, u % 16);
  }

  /** Every scalar value survives being escaped by its code units, a surrogate pair where it takes two. */
  lemma ScalarBack(s: string, p: nat, cp: Utf8.CodePoint)
    requires Stands(s, p, EscapeScalar(cp))
    ensures UnicodeAt(s, p) == Unicode(cp, p + |EscapeScalar(cp)|)
  {
    hide Hex, Hex4;
    if cp <= 0xFFFF {
      Hex4Back(s, p, cp);
    } else {
      var high, low := (cp - 0x10000) / 0x400 + 0xD800, (cp - 0x10000) % 0x400 + 0xDC00;
      StandsConcat(s, p, Hex4(high) + "\\u", Hex4(low));
      StandsConcat(s, p, Hex4(high), "\\u");
      assert s[p + 4] == "\\u"[0] && s[p + 5] == "\\u"[1];
      Hex4Back(s, p, high);
      Hex4Back(s, p + 6, low);
    }
  }

  /** No control character is ever written inside a string. */
  lemma {:induction false} EscapeAllIsPrintable(t: string)
    ensures forall k :: 0 <= k < |EscapeAll(t)| ==> EscapeAll(t)[k] >= ' '
  {
    if t != [] { EscapeAllIsPrintable(t[1..]); }
  }
}
