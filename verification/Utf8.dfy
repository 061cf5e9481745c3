/** RapidJSON's UTF-8 and UTF-16 encodings, one code point at a time, against the grammar of
    section 4 of RFC 3629. */
module Utf8 {
  import opened Common

  /** The unit with code `n`. */
  function U(n: nat): (c: Byte)
    requires n < 256
    ensures c as int == n
  {
    n as char
  }

  /** Past the end the stream reads as the null terminator. */
  function Code(s: Bytes, p: nat): (n: nat)
    ensures n < 256
  {
    if p < |s| then s[p] as int else 0
  }

  /** A Unicode scalar value. */
  predicate Scalar(cp: nat) {
    cp <= 0xD7FF || 0xE000 <= cp <= 0x10FFFF
  }

  type CodePoint = cp: nat | cp <= 0xD7FF || 0xE000 <= cp <= 0x10FFFF

  function Encode(cp: nat): (r: Bytes)
    requires cp <= 0x10FFFF
    ensures 1 <= |r| <= 4
  {
    if cp <= 0x7F then [U(cp)]
    else if cp <= 0x7FF then [U(0xC0 + cp / 64), U(0x80 + cp % 64)]
    else if cp <= 0xFFFF then [U(0xE0 + cp / 4096), U(0x80 + cp / 64 % 64), U(0x80 + cp % 64)]
    else [U(0xF0 + cp / 262144), U(0x80 + cp / 4096 % 64), U(0x80 + cp / 64 % 64), U(0x80 + cp % 64)]
  }

  /** The bits of a scalar value in its bytes, as the table in section 3 of RFC 3629 places them. */
  lemma EncodeBits(cp: CodePoint)
    ensures
      var e := Encode(cp);
      var n := |e|;
      (n == 1 <==> cp < 0x80) && (n <= 2 <==> cp < 0x800) && (n <= 3 <==> cp < 0x1_0000) &&
      (forall k :: 1 <= k < n ==> 0x80 <= e[k] as int < 0xC0) &&
      if n == 1 then e[0] as int == cp
      else if n == 2 then 0xC0 <= e[0] as int < 0xE0 && cp == (e[0] as int - 0xC0) * 0x40 + (e[1] as int - 0x80)
      else if n == 3 then
        0xE0 <= e[0] as int < 0xF0 &&
        cp == ((e[0] as int - 0xE0) * 0x40 + (e[1] as int - 0x80)) * 0x40 + (e[2] as int - 0x80)
      else
        0xF0 <= e[0] as int < 0xF8 &&
        cp == (((e[0] as int - 0xF0) * 0x40 + (e[1] as int - 0x80)) * 0x40 + (e[2] as int - 0x80)) * 0x40 +
              (e[3] as int - 0x80)
  {
    if cp > 0xFFFF { assert cp / 4096 == cp / 262144 * 64 + cp / 4096 % 64; }
    if cp > 0x7FF { assert cp / 64 == cp / 4096 * 64 + cp / 64 % 64; }
  }

  /** The class of a byte in the decoding automaton. */
  function GetRange(c: nat): nat
    requires c < 256
  {
    if c < 0x80 then 0
    else if c < 0x90 then 0x10
    else if c < 0xA0 then 0x40
    else if c < 0xC0 then 0x20
    else if c < 0xC2 then 8
    else if c < 0xE0 then 2
    else if c == 0xE0 then 10
    else if c == 0xED then 4
    else if c < 0xF0 then 3
    else if c == 0xF0 then 11
    else if c < 0xF4 then 6
    else if c == 0xF4 then 5
    else 8
  }

  /** The bit test `range & mask` for the masks of the automaton, which hold only the bits of the
      three classes of continuation bytes. */
  predicate Meets(range: nat, mask: nat) {
    (range == 0x10 && mask in {0x10, 0x50, 0x70}) ||
    (range == 0x20 && mask in {0x20, 0x60, 0x70}) ||
    (range == 0x40 && mask in {0x50, 0x60, 0x70})
  }

  /** The masks for the bytes behind a lead byte of the given class. */
  function Masks(range: nat): seq<nat> {
    match range
    case 2 => [0x70]
    case 3 => [0x70, 0x70]
    case 4 => [0x50, 0x70]
    case 5 => [0x10, 0x70, 0x70]
    case 6 => [0x70, 0x70, 0x70]
    case 10 => [0x20, 0x70]
    case 11 => [0x60, 0x70, 0x70]
    case _ => []
  }

  /** The bits of the lead byte that belong to the code point: `(0xFF >> range) & c`. */
  function LeadBits(range: nat, c: nat): nat {
    match range
    case 2 => c % 64
    case 3 => c % 32
    case 4 => c % 16
    case 5 => c % 8
    case 6 => c % 4
    case _ => 0
  }

  /** The verdict, the code point and the position behind the bytes taken. */
  datatype Decoded = Decoded(ok: bool, cp: nat, pos: nat)

  function Follow(s: Bytes, p: nat, masks: seq<nat>, cp: nat, ok: bool): Decoded
    decreases |masks|
  {
    if masks == [] then Decoded(ok, cp, p)
    else
      var c := Code(s, p);
      Follow(s, p + 1, masks[1..], cp * 64 + c % 64, ok && Meets(GetRange(c), masks[0]))
  }

  function Decode(s: Bytes, p: nat): Decoded {
    var c := Code(s, p);
    if c < 0x80 then Decoded(true, c, p + 1)
    else
      var range := GetRange(c);
      Follow(s, p + 1, Masks(range), LeadBits(range, c), Masks(range) != [])
  }

  /** Validate copies the bytes that Decode takes and gives the same verdict. */
  method Validate(s: Bytes, p: nat) returns (ok: bool, q: nat, copied: Bytes)
    requires p < |s|
    ensures ok == Decode(s, p).ok && q == Decode(s, p).pos
    ensures q - p == |copied| <= 4
    ensures forall k :: 0 <= k < |copied| ==> copied[k] as int == Code(s, p + k)
    ensures ok ==> q <= |s| && copied == s[p..q]
  {
    copied, q, ok := [s[p]], p + 1, true;
    var c := s[p] as int;
    if c < 0x80 {
      return;
    }
    var masks := Masks(GetRange(c));
    ok := masks != [];
    ghost var cp: nat := LeadBits(GetRange(c), c);
    ghost var all := masks;
    while masks != []
      invariant |masks| + |copied| == |all| + 1 && |all| <= 3
      invariant q == p + |copied| && |copied| >= 1
      invariant forall k :: 0 <= k < |copied| ==> copied[k] as int == Code(s, p + k)
      invariant Follow(s, q, masks, cp, ok) == Decode(s, p)
      invariant ok ==> q <= |s|
      decreases |masks|
    {
      c := Code(s, q);
      cp := cp * 64 + c % 64;
      ok := ok && Meets(GetRange(c), masks[0]);
      copied, q, masks := copied + [U(c)], q + 1, masks[1..];
    }
  }

  // ---- RFC 3629 -----------------------------------------------------------------------------

  predicate Tail(s: Bytes, p: nat) {
    0x80 <= Code(s, p) <= 0xBF
  }

  /** The length of the character that the grammar of RFC 3629 section 4 finds at `p`, if any. */
  function CharLength(s: Bytes, p: nat): nat {
    var a, b := Code(s, p), Code(s, p + 1);
    if p >= |s| then 0
    else if a <= 0x7F then 1
    else if 0xC2 <= a <= 0xDF && Tail(s, p + 1) then 2
    else if a == 0xE0 && 0xA0 <= b <= 0xBF && Tail(s, p + 2) then 3
    else if 0xE1 <= a <= 0xEC && Tail(s, p + 1) && Tail(s, p + 2) then 3
    else if a == 0xED && 0x80 <= b <= 0x9F && Tail(s, p + 2) then 3
    else if 0xEE <= a <= 0xEF && Tail(s, p + 1) && Tail(s, p + 2) then 3
    else if a == 0xF0 && 0x90 <= b <= 0xBF && Tail(s, p + 2) && Tail(s, p + 3) then 4
    else if 0xF1 <= a <= 0xF3 && Tail(s, p + 1) && Tail(s, p + 2) && Tail(s, p + 3) then 4
    else if a == 0xF4 && 0x80 <= b <= 0x8F && Tail(s, p + 2) && Tail(s, p + 3) then 4
    else 0
  }

  lemma Follow1(s: Bytes, p: nat, m: nat, cp: nat, ok: bool)
    ensures Follow(s, p, [m], cp, ok) ==
      Decoded(ok && Meets(GetRange(Code(s, p)), m), cp * 64 + Code(s, p) % 64, p + 1)
  {
  }

  lemma Follow2(s: Bytes, p: nat, m: nat, n: nat, cp: nat, ok: bool)
    ensures Follow(s, p, [m, n], cp, ok) ==
      Decoded(ok && Meets(GetRange(Code(s, p)), m) && Meets(GetRange(Code(s, p + 1)), n),
              (cp * 64 + Code(s, p) % 64) * 64 + Code(s, p + 1) % 64, p + 2)
  {
    var c := Code(s, p);
    assert [m, n][1..] == [n];
    Follow1(s, p + 1, n, cp * 64 + c % 64, ok && Meets(GetRange(c), m));
  }

  lemma Follow3(s: Bytes, p: nat, m: nat, n: nat, o: nat, cp: nat, ok: bool)
    ensures Follow(s, p, [m, n, o], cp, ok) ==
      Decoded(ok && Meets(GetRange(Code(s, p)), m) && Meets(GetRange(Code(s, p + 1)), n)
                && Meets(GetRange(Code(s, p + 2)), o),
              ((cp * 64 + Code(s, p) % 64) * 64 + Code(s, p + 1) % 64) * 64 + Code(s, p + 2) % 64, p + 3)
  {
    var c := Code(s, p);
    assert [m, n, o][1..] == [n, o];
    Follow2(s, p + 1, n, o, cp * 64 + c % 64, ok && Meets(GetRange(c), m));
  }

  /** Decode, by the length that the lead byte announces. */
  lemma DecodeByLead(s: Bytes, p: nat)
    ensures
      var c, range := Code(s, p), GetRange(Code(s, p));
      var x, y, z := Code(s, p + 1), Code(s, p + 2), Code(s, p + 3);
      var lead := LeadBits(range, c);
      && (c < 0x80 ==> Decode(s, p) == Decoded(true, c, p + 1))
      && (range == 8 || (c >= 0x80 && range >= 0x10) ==> !Decode(s, p).ok)
      && (range == 2 ==> Decode(s, p) == Decoded(0x80 <= x <= 0xBF, lead * 64 + x % 64, p + 2))
      && (range in {3, 4, 10} ==>
            && Decode(s, p).ok == (Meets(GetRange(x), Masks(range)[0]) && 0x80 <= y <= 0xBF)
            && Decode(s, p).cp == (lead * 64 + x % 64) * 64 + y % 64
            && Decode(s, p).pos == p + 3)
      && (range in {5, 6, 11} ==>
            && Decode(s, p).ok == (Meets(GetRange(x), Masks(range)[0]) && 0x80 <= y <= 0xBF && 0x80 <= z <= 0xBF)
            && Decode(s, p).cp == ((lead * 64 + x % 64) * 64 + y % 64) * 64 + z % 64
            && Decode(s, p).pos == p + 4)
  {
    var c := Code(s, p);
    var range := GetRange(c);
    var lead := LeadBits(range, c);
    if range == 2 {
      Follow1(s, p + 1, 0x70, lead, true);
    } else if range in {3, 4, 10} {
      Follow2(s, p + 1, Masks(range)[0], 0x70, lead, true);
    } else if range in {5, 6, 11} {
      Follow3(s, p + 1, Masks(range)[0], 0x70, 0x70, lead, true);
    }
  }

  /** Decode accepts exactly the characters of the grammar, and takes exactly their bytes. */
  lemma DecodeIsRfc3629(s: Bytes, p: nat)
    requires p < |s|
    ensures Decode(s, p).ok <==> CharLength(s, p) > 0
    ensures Decode(s, p).ok ==> Decode(s, p).pos == p + CharLength(s, p) <= |s|
  {
    DecodeByLead(s, p);
  }

  /** The 6-bit digits of a code point. */
  lemma SixBits(cp: nat, lead: nat, x: nat, y: nat, z: nat)
    requires x < 64 && y < 64 && z < 64
    requires cp == ((lead * 64 + x) * 64 + y) * 64 + z
    ensures cp / 262144 == lead && cp / 4096 == lead * 64 + x && cp / 64 == lead * 4096 + x * 64 + y
    ensures cp / 4096 % 64 == x && cp / 64 % 64 == y && cp % 64 == z
  {
  }

  lemma CodesOfEncode(s: Bytes, p: nat, cp: nat)
    requires cp <= 0x10FFFF && p + |Encode(cp)| <= |s| && s[p..p + |Encode(cp)|] == Encode(cp)
    ensures forall k {:trigger Encode(cp)[k]} :: 0 <= k < |Encode(cp)| ==> Code(s, p + k) == Encode(cp)[k] as int
  {
    var e := Encode(cp);
    forall k | 0 <= k < |e| ensures Code(s, p + k) == e[k] as int {
      assert s[p..p + |e|][k] == s[p + k];
    }
  }

  /** The shortest form of every scalar value is decoded to it, wherever it stands. */
  lemma DecodeEncode(s: Bytes, p: nat, cp: CodePoint)
    requires p + |Encode(cp)| <= |s| && s[p..p + |Encode(cp)|] == Encode(cp)
    ensures Decode(s, p) == Decoded(true, cp, p + |Encode(cp)|)
  {
    var e := Encode(cp);
    CodesOfEncode(s, p, cp);
    assert Code(s, p) == e[0] as int;
    if cp <= 0x7FF {
      if |e| == 2 { assert Code(s, p + 1) == e[1] as int; }
      DecodeByLead(s, p);
    } else if cp <= 0xFFFF {
      assert Code(s, p + 1) == e[1] as int && Code(s, p + 2) == e[2] as int;
      DecodeThree(s, p, cp);
    } else {
      assert Code(s, p + 1) == e[1] as int && Code(s, p + 2) == e[2] as int && Code(s, p + 3) == e[3] as int;
      DecodeFour(s, p, cp);
    }
  }

  lemma DecodeThree(s: Bytes, p: nat, cp: CodePoint)
    requires 0x800 <= cp <= 0xFFFF
    requires Code(s, p) == 0xE0 + cp / 4096 && Code(s, p + 1) == 0x80 + cp / 64 % 64 && Code(s, p + 2) == 0x80 + cp % 64
    ensures Decode(s, p) == Decoded(true, cp, p + 3)
  {
    hide Decode, Code;
    var lead, x := cp / 4096, cp / 64 % 64;
    assert cp / 64 == lead * 64 + x;
    assert lead == 0 ==> x >= 32;
    assert lead == 13 ==> x < 32;
    DecodeByLead(s, p);
  }

  lemma DecodeFour(s: Bytes, p: nat, cp: CodePoint)
    requires cp > 0xFFFF
    requires Code(s, p) == 0xF0 + cp / 262144 && Code(s, p + 1) == 0x80 + cp / 4096 % 64
    requires Code(s, p + 2) == 0x80 + cp / 64 % 64 && Code(s, p + 3) == 0x80 + cp % 64
    ensures Decode(s, p) == Decoded(true, cp, p + 4)
  {
    hide Decode, Code;
    var lead, x := cp / 262144, cp / 4096 % 64;
    assert cp / 4096 == lead * 64 + x;
    assert cp / 64 == (lead * 64 + x) * 64 + cp / 64 % 64;
    DecodeFourBytes(s, p, lead, x, cp / 64 % 64, cp % 64);
  }

  lemma DecodeFourBytes(s: Bytes, p: nat, lead: nat, x: nat, y: nat, z: nat)
    requires x < 64 && y < 64 && z < 64 && 16 <= lead * 64 + x < 272
    requires Code(s, p) == 0xF0 + lead && Code(s, p + 1) == 0x80 + x
    requires Code(s, p + 2) == 0x80 + y && Code(s, p + 3) == 0x80 + z
    ensures Decode(s, p) == Decoded(true, ((lead * 64 + x) * 64 + y) * 64 + z, p + 4)
  {
    hide Decode, Code;
    assert lead == 0 || lead == 1 || lead == 2 || lead == 3 || lead == 4;
    DecodeByLead(s, p);
  }

  /** What decodes is the shortest form of a scalar value. */
  lemma EncodeDecode(s: Bytes, p: nat)
    requires p < |s| && Decode(s, p).ok
    ensures p < Decode(s, p).pos <= |s| && Scalar(Decode(s, p).cp)
    ensures Encode(Decode(s, p).cp) == s[p..Decode(s, p).pos]
  {
    DecodeIsRfc3629(s, p);
    DecodeByLead(s, p);
    var range := GetRange(Code(s, p));
    if range == 2 {
      SixBits(Decode(s, p).cp, 0, 0, LeadBits(range, Code(s, p)), Code(s, p + 1) % 64);
    } else if range in {3, 4, 10} {
      EncodeThree(s, p);
    } else if range in {5, 6, 11} {
      EncodeFour(s, p);
    }
  }

  lemma EncodeOfThree(lead: nat, x: nat, y: nat)
    requires lead < 16 && x < 64 && y < 64 && lead * 64 + x >= 32
    ensures var cp := (lead * 64 + x) * 64 + y;
            0x800 <= cp <= 0xFFFF && Encode(cp) == [U(0xE0 + lead), U(0x80 + x), U(0x80 + y)]
  {
    SixBits((lead * 64 + x) * 64 + y, 0, lead, x, y);
  }

  lemma EncodeOfFour(lead: nat, x: nat, y: nat, z: nat)
    requires x < 64 && y < 64 && z < 64 && 16 <= lead * 64 + x < 272
    ensures var cp := ((lead * 64 + x) * 64 + y) * 64 + z;
            0x10000 <= cp <= 0x10FFFF && Encode(cp) == [U(0xF0 + lead), U(0x80 + x), U(0x80 + y), U(0x80 + z)]
  {
    SixBits(((lead * 64 + x) * 64 + y) * 64 + z, lead, x, y, z);
  }

  /** What three bytes that are accepted look like. */
  lemma ThreeBytes(s: Bytes, p: nat)
    requires p + 3 <= |s| && Decode(s, p).ok && GetRange(Code(s, p)) in {3, 4, 10}
    ensures var lead, x, y := Code(s, p) - 0xE0, Code(s, p + 1) - 0x80, Code(s, p + 2) - 0x80;
            0 <= lead < 16 && 0 <= x < 64 && 0 <= y < 64 && lead * 64 + x >= 32 && !(lead == 13 && x >= 32) &&
            Decode(s, p).cp == (lead * 64 + x) * 64 + y
  {
    hide Decode, Code;
    DecodeByLead(s, p);
  }

  lemma FourBytes(s: Bytes, p: nat)
    requires p + 4 <= |s| && Decode(s, p).ok && GetRange(Code(s, p)) in {5, 6, 11}
    ensures var lead, x, y, z := Code(s, p) - 0xF0, Code(s, p + 1) - 0x80, Code(s, p + 2) - 0x80, Code(s, p + 3) - 0x80;
            0 <= lead && 0 <= x < 64 && 0 <= y < 64 && 0 <= z < 64 && 16 <= lead * 64 + x < 272 &&
            Decode(s, p).cp == ((lead * 64 + x) * 64 + y) * 64 + z
  {
    hide Decode, Code;
    DecodeByLead(s, p);
  }

  lemma EncodeThree(s: Bytes, p: nat)
    requires p + 3 <= |s| && Decode(s, p).ok && GetRange(Code(s, p)) in {3, 4, 10}
    ensures Scalar(Decode(s, p).cp) && Encode(Decode(s, p).cp) == s[p..p + 3]
  {
    hide Decode, Encode, GetRange;
    ThreeBytes(s, p);
    EncodeOfThree(Code(s, p) - 0xE0, Code(s, p + 1) - 0x80, Code(s, p + 2) - 0x80);
    assert s[p..p + 3] == [s[p], s[p + 1], s[p + 2]];
  }

  lemma EncodeFour(s: Bytes, p: nat)
    requires p + 4 <= |s| && Decode(s, p).ok && GetRange(Code(s, p)) in {5, 6, 11}
    ensures Scalar(Decode(s, p).cp) && Encode(Decode(s, p).cp) == s[p..p + 4]
  {
    hide Decode, Encode, GetRange;
    FourBytes(s, p);
    EncodeOfFour(Code(s, p) - 0xF0, Code(s, p + 1) - 0x80, Code(s, p + 2) - 0x80, Code(s, p + 3) - 0x80);
    assert s[p..p + 4] == [s[p], s[p + 1], s[p + 2], s[p + 3]];
  }

  // ---- whole texts --------------------------------------------------------------------------

  function EncodeAll(cps: seq<CodePoint>): Bytes {
    if cps == [] then [] else Encode(cps[0]) + EncodeAll(cps[1..])
  }

  /** The code points of the text from `p` on, if all of it is well-formed. */
  function DecodeAll(s: Bytes, p: nat): Option<seq<CodePoint>>
    requires p <= |s|
    decreases |s| - p
  {
    if p == |s| then Some([])
    else
      var d := Decode(s, p);
      if !d.ok then None
      else
        EncodeDecode(s, p);
        match DecodeAll(s, d.pos)
        case None => None
        case Some(rest) => Some([d.cp] + rest)
  }

  lemma {:induction false} DecodeAllEncodeAll(s: Bytes, p: nat, cps: seq<CodePoint>)
    requires p <= |s| && s[p..] == EncodeAll(cps)
    ensures DecodeAll(s, p) == Some(cps)
    decreases |cps|
  {
    hide Decode, Encode;
    if cps != [] {
      var e := Encode(cps[0]);
      assert s[p..p + |e|] == s[p..][..|e|] == e;
      assert s[p + |e|..] == s[p..][|e|..] == EncodeAll(cps[1..]);
      DecodeEncode(s, p, cps[0]);
      DecodeAllEncodeAll(s, p + |e|, cps[1..]);
      assert [cps[0]] + cps[1..] == cps;
    }
  }

  lemma {:induction false} EncodeAllDecodeAll(s: Bytes, p: nat)
    requires p <= |s| && DecodeAll(s, p).Some?
    ensures EncodeAll(DecodeAll(s, p).value) == s[p..]
    decreases |s| - p
  {
    if p < |s| {
      EncodeDecode(s, p);
      EncodeAllDecodeAll(s, Decode(s, p).pos);
      assert DecodeAll(s, p).value[1..] == DecodeAll(s, Decode(s, p).pos).value;
    }
  }

  // ---- UTF-16 -------------------------------------------------------------------------------

  /** 16-bit code units. */
  function Encode16(cp: CodePoint): (r: seq<nat>)
    ensures 1 <= |r| <= 2
  {
    if cp <= 0xFFFF then [cp]
    else [(cp - 0x10000) / 0x400 + 0xD800, (cp - 0x10000) % 0x400 + 0xDC00]
  }

  function Unit16(w: seq<nat>, p: nat): nat {
    if p < |w| then w[p] else 0
  }

  /** Section 2.1 of RFC 2781: a value beyond 16 bits is ten bits in each of two surrogates. */
  lemma Encode16Bits(cp: CodePoint)
    ensures
      var e := Encode16(cp);
      if cp < 0x1_0000 then e == [cp]
      else |e| == 2 && 0xD800 <= e[0] < 0xDC00 <= e[1] < 0xE000 &&
           cp == 0x1_0000 + (e[0] - 0xD800) * 0x400 + (e[1] - 0xDC00)
  {
  }

  function Decode16(w: seq<nat>, p: nat): Decoded {
    var c := Unit16(w, p);
    if c < 0xD800 || c > 0xDFFF then Decoded(true, c, p + 1)
    else if c <= 0xDBFF then
      var d := Unit16(w, p + 1);
      Decoded(0xDC00 <= d <= 0xDFFF, c % 0x400 * 0x400 + d % 0x400 + 0x10000, p + 2)
    else Decoded(false, 0, p + 1)
  }

  lemma Decode16Encode16(w: seq<nat>, q: nat, cp: CodePoint)
    requires q + |Encode16(cp)| <= |w| && w[q..q + |Encode16(cp)|] == Encode16(cp)
    ensures Decode16(w, q) == Decoded(true, cp, q + |Encode16(cp)|)
  {
    var e := Encode16(cp);
    assert w[q] == w[q..q + |e|][0];
    if |e| == 2 { assert w[q + 1] == w[q..q + |e|][1]; }
  }

  /** Transcoder<UTF8, UTF16> over a whole text. */
  function ToUtf16(s: Bytes, p: nat): Option<seq<nat>>
    requires p <= |s|
    decreases |s| - p
  {
    if p == |s| then Some([])
    else
      var d := Decode(s, p);
      if !d.ok then None
      else
        EncodeDecode(s, p);
        match ToUtf16(s, d.pos)
        case None => None
        case Some(rest) => Some(Encode16(d.cp) + rest)
  }

  /** Transcoder<UTF16, UTF8> over a whole text. */
  function ToUtf8(w: seq<nat>, p: nat): Option<Bytes>
    requires p <= |w|
    decreases |w| - p
  {
    if p == |w| then Some([])
    else
      var d := Decode16(w, p);
      if !d.ok || d.pos > |w| || d.cp > 0x10FFFF then None
      else
        match ToUtf8(w, d.pos)
        case None => None
        case Some(rest) => Some(Encode(d.cp) + rest)
  }

  lemma ToUtf8Cons(w: seq<nat>, q: nat, cp: CodePoint, rest: Bytes)
    requires q + |Encode16(cp)| <= |w| && w[q..q + |Encode16(cp)|] == Encode16(cp)
    requires ToUtf8(w, q + |Encode16(cp)|) == Some(rest)
    ensures ToUtf8(w, q) == Some(Encode(cp) + rest)
  {
    Decode16Encode16(w, q, cp);
  }

  /** A text that goes to UTF-16 comes back unchanged. */
  lemma {:induction false} TranscodeBack(s: Bytes, p: nat, w: seq<nat>, q: nat)
    requires p <= |s| && q <= |w|
    requires ToUtf16(s, p) == Some(w[q..])
    ensures ToUtf8(w, q) == Some(s[p..])
    decreases |s| - p
  {
    if p == |s| {
      assert |w[q..]| == 0 && s[p..] == [];
    } else {
      EncodeDecode(s, p);
      var cp: CodePoint, end := Decode(s, p).cp, Decode(s, p).pos;
      var e, rest := Encode16(cp), ToUtf16(s, end).value;
      assert w[q..] == e + rest;
      assert |w[q..]| == |w| - q == |e| + |rest|;
      assert w[q..q + |e|] == w[q..][..|e|] == e;
      assert w[q + |e|..] == w[q..][|e|..] == rest;
      TranscodeBack(s, end, w, q + |e|);
      ToUtf8Cons(w, q, cp, s[end..]);
      assert s[p..] == s[p..end] + s[end..];
    }
  }

  /** A text goes to UTF-16 exactly when all of it is well-formed. */
  lemma {:induction false} TranscodesIffWellFormed(s: Bytes, p: nat)
    requires p <= |s|
    ensures ToUtf16(s, p).Some? <==> DecodeAll(s, p).Some?
    decreases |s| - p
  {
    if p < |s| && Decode(s, p).ok {
      EncodeDecode(s, p);
      TranscodesIffWellFormed(s, Decode(s, p).pos);
    }
  }
}
