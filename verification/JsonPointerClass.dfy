/** GenericPointer as an object: one buffer holds the names of all tokens, a second array the
    tokens. Parsing fills exactly the tokens it counted, stays inside the buffer, and yields the
    pointer that JsonPointer.Parse describes. */
module JsonPointerClass {
  import opened Common
  import Decimal
  import opened Utf8
  import JsonPointer

  /** A token: its name is `length` bytes of the name buffer from `start` on. */
  datatype TokenRef = TokenRef(start: nat, length: nat, index: nat)

  function Slashes(s: Bytes, i: nat): nat
    requires i <= |s|
    decreases |s| - i
  {
    if i == |s| then 0 else (if s[i] == '/' then 1 else 0) + Slashes(s, i + 1)
  }

  lemma {:induction false} NoSlashInName(s: Bytes, i: nat, end: nat)
    requires i <= end <= |s| && forall k :: i <= k < end ==> s[k] != '/'
    ensures Slashes(s, i) == Slashes(s, end)
    decreases end - i
  {
    if i < end { NoSlashInName(s, i + 1, end); }
  }

  lemma {:induction false} FollowVerdict(s: Bytes, p: nat, masks: seq<nat>, cp: nat, ok: bool)
    ensures Follow(s, p, masks, cp, ok).ok <==>
      ok && forall k :: 0 <= k < |masks| ==> Meets(GetRange(Code(s, p + k)), masks[k])
    decreases |masks|
  {
    hide Meets, GetRange, Code;
    if masks != [] {
      var c := Code(s, p);
      var met := Meets(GetRange(c), masks[0]);
      FollowVerdict(s, p + 1, masks[1..], cp * 64 + c % 64, ok && met);
      if ok && met && Follow(s, p, masks, cp, ok).ok {
        forall k | 0 <= k < |masks| ensures Meets(GetRange(Code(s, p + k)), masks[k]) {
          if k > 0 { assert masks[1..][k - 1] == masks[k] && p + 1 + (k - 1) == p + k; }
        }
      }
      if ok && forall k :: 0 <= k < |masks| ==> Meets(GetRange(Code(s, p + k)), masks[k]) {
        assert Meets(GetRange(Code(s, p + 0)), masks[0]);
        forall k | 0 <= k < |masks[1..]| ensures Meets(GetRange(Code(s, p + 1 + k)), masks[1..][k]) {
          assert masks[1..][k] == masks[k + 1] && p + 1 + k == p + (k + 1);
        }
      }
    }
  }

  /** PercentDecodeStream::Take: the byte of a triplet, or NUL where there is none. */
  method Take(s: Bytes, pos: nat) returns (c: Byte, next: nat, good: bool)
    requires pos <= |s|
    ensures good == JsonPointer.Triplet(s, pos).Some? && next <= |s|
    ensures if good then c as int == JsonPointer.Triplet(s, pos).value && next == pos + 3 else c == '\0'
  {
    if JsonPointer.At(s, pos) != '%' || pos + 3 > |s| {
      return '\0', pos, false;
    }
    var h, l := JsonPointer.HexValue(s[pos + 1]), JsonPointer.HexValue(s[pos + 2]);
    if h.None? { return '\0', pos + 1, false; }
    if l.None? { return '\0', pos + 2, false; }
    return U(h.value * 16 + l.value), pos + 3, true;
  }

  lemma {:induction false} TripletsSnoc(s: Bytes, i: nat, n: nat)
    ensures JsonPointer.Triplets(s, i, n + 1) ==
      match (JsonPointer.Triplets(s, i, n), JsonPointer.Triplet(s, i + 3 * n))
      case (Some(bs), Some(b)) => Some(bs + [U(b)])
      case _ => None
    decreases n
  {
    hide JsonPointer.Triplet;
    if n == 0 {
      var b := JsonPointer.Triplet(s, i);
      if b.Some? { assert [U(b.value)] + [] == [] + [U(b.value)]; }
    } else {
      TripletsSnoc(s, i + 3, n - 1);
      assert i + 3 + 3 * (n - 1) == i + 3 * n;
      var b, bs, x := JsonPointer.Triplet(s, i), JsonPointer.Triplets(s, i + 3, n - 1),
        JsonPointer.Triplet(s, i + 3 * n);
      if b.Some? && bs.Some? && x.Some? {
        assert [U(b.value)] + (bs.value + [U(x.value)]) == [U(b.value)] + bs.value + [U(x.value)];
      }
    }
  }

  /** UTF8::Validate from the percent stream into the name buffer: at most four bytes are
      written, even when the sequence is broken off, and they fit. */
  method ValidateInto(s: Bytes, i: nat, buffer: array<Byte>, n: nat) returns (ok: bool, len: nat, end: nat)
    requires i < |s| && s[i] == '%' && buffer.Length == |s| && n + 2 <= i
    modifies buffer
    ensures ok == JsonPointer.PercentAt(s, i).Some?
    ensures ok ==> n + len <= |s| && buffer[n..n + len] == JsonPointer.PercentAt(s, i).value && end == i + 3 * len
    ensures buffer[..n] == old(buffer[..n])
  {
    hide JsonPointer.Triplets, Masks, Decode;
    var c: Byte, pos: nat, valid: bool := Take(s, i);
    buffer[n] := c;
    len := 1;
    if c as int < 0x80 {
      assert valid ==> c == U(c as int);
      return valid, len, pos;
    }
    TripletsSnoc(s, i, 0);
    NoTriplets(s, i);
    assert valid && [] + [c] == [c];
    ok, len, end := FollowInto(s, i, buffer, n, c, pos);
  }

  /** The continuation bytes behind the lead byte `c`, which is in the buffer. */
  method FollowInto(s: Bytes, i: nat, buffer: array<Byte>, n: nat, c: Byte, start: nat)
      returns (ok: bool, len: nat, end: nat)
    requires start == i + 3 <= |s| && s[i] == '%' && buffer.Length == |s| && n + 2 <= i
    requires c as int >= 0x80 && buffer[n] == c
    requires JsonPointer.Triplet(s, i) == Some(c as int) && JsonPointer.Triplets(s, i, 1) == Some([c])
    modifies buffer
    ensures ok == JsonPointer.PercentAt(s, i).Some?
    ensures ok ==> n + len <= |s| && buffer[n..n + len] == JsonPointer.PercentAt(s, i).value && end == i + 3 * len
    ensures buffer[..n] == old(buffer[..n])
  {
    hide JsonPointer.Triplet, JsonPointer.Triplets, Meets, GetRange, Masks, Decode, MeetsFirst;
    var pos: nat, k: nat, valid, masks := start, 0, true, Masks(GetRange(c as int));
    len := 1;
    MasksAreFew(c as int);
    var met := masks != [];
    NothingToMeet([c], masks);
    ghost var bytes: Bytes := [c];
    while k < |masks|
      invariant k <= |masks| <= 3 && len == k + 1 == |bytes|
      invariant n + len <= |s| && buffer[n..n + len] == bytes && buffer[..n] == old(buffer[..n]) && bytes[0] == c
      invariant pos <= |s| && (valid ==> pos == i + 3 * len)
      invariant if valid then JsonPointer.Triplets(s, i, len) == Some(bytes) else JsonPointer.Triplets(s, i, len).None?
      invariant met <==> masks != [] && MeetsFirst(bytes, masks, k)
    {
      var b, next, good := Take(s, pos);
      TripletsSnoc(s, i, len);
      SameVerdict(bytes, bytes + [b], masks, k);
      PutByte(buffer, n, len, b, bytes);
      met := met && Meets(GetRange(b as int), masks[k]);
      valid, pos, len, k := valid && good, next, len + 1, k + 1;
      bytes := bytes + [b];
    }
    ok, end := met && valid, pos;
    if valid { DecodeVerdict(bytes); }
  }

  /** One byte behind those that were written. */
  method PutByte(buffer: array<Byte>, n: nat, len: nat, b: Byte, ghost bytes: Bytes)
    requires n + len < buffer.Length && buffer[n..n + len] == bytes
    modifies buffer
    ensures buffer[n..n + len + 1] == bytes + [b] && buffer[..n] == old(buffer[..n])
  {
    buffer[n + len] := b;
    assert buffer[n..n + len] == bytes;
    OneMoreByte(buffer, n, len, bytes, b);
  }

  lemma OneMoreByte(buffer: array<Byte>, n: nat, len: nat, bytes: Bytes, b: Byte)
    requires n + len < buffer.Length && buffer[n..n + len] == bytes && buffer[n + len] == b
    ensures buffer[n..n + len + 1] == bytes + [b]
  {
    JoinedName(buffer, n, n + len, n + len + 1);
    assert buffer[n + len..n + len + 1] == [b];
  }

  /** The first `k` continuation bytes meet their masks. */
  predicate MeetsFirst(bytes: Bytes, masks: seq<nat>, k: nat)
    requires k <= |masks|
  {
    forall m :: 0 <= m < k ==> Meets(GetRange(Code(bytes, 1 + m)), masks[m])
  }

  lemma NothingToMeet(bytes: Bytes, masks: seq<nat>)
    ensures MeetsFirst(bytes, masks, 0)
  {
  }

  lemma SameVerdict(before: Bytes, bytes: Bytes, masks: seq<nat>, k: nat)
    requires k < |masks| && |before| == k + 1 && |bytes| == k + 2 && bytes[..k + 1] == before
    ensures MeetsFirst(bytes, masks, k + 1) <==>
            MeetsFirst(before, masks, k) && Meets(GetRange(bytes[k + 1] as int), masks[k])
  {
    hide Meets, GetRange;
    forall m | 0 <= m < k
      ensures Meets(GetRange(Code(bytes, 1 + m)), masks[m]) == Meets(GetRange(Code(before, 1 + m)), masks[m])
    {
      assert bytes[1 + m] == bytes[..k + 1][1 + m];
    }
    assert Code(bytes, 1 + k) == bytes[k + 1] as int;
  }

  lemma NoTriplets(s: Bytes, i: nat)
    ensures JsonPointer.Triplets(s, i, 0) == Some([])
  {
  }

  lemma MasksAreFew(lead: nat)
    requires lead < 256
    ensures |Masks(GetRange(lead))| <= 3
  {
  }

  lemma DecodeVerdict(bytes: Bytes)
    requires bytes != [] && bytes[0] as int >= 0x80 && |bytes| == |Masks(GetRange(bytes[0] as int))| + 1
    ensures
      var masks := Masks(GetRange(bytes[0] as int));
      Decode(bytes, 0).ok <==> masks != [] && MeetsFirst(bytes, masks, |masks|)
  {
    hide Meets, GetRange, Masks;
    var range := GetRange(bytes[0] as int);
    FollowVerdict(bytes, 1, Masks(range), LeadBits(range, bytes[0] as int), Masks(range) != []);
  }

  datatype Failure = Failure(code: JsonPointer.ErrorCode, off: nat)

  /** How far the input stays ahead of the name buffer: every token has taken a slash and left a
      terminator, and a URI fragment has taken its `#`. */
  function Lead(uri: bool): nat {
    if uri then 1 else 0
  }

  lemma DigitsSnoc(acc: Bytes, c: Byte)
    ensures Decimal.AllDigits(acc + [c]) == (Decimal.AllDigits(acc) && Decimal.IsDigit(c))
  {
    if Decimal.AllDigits(acc + [c]) {
      assert forall k :: 0 <= k < |acc| ==> acc[k] == (acc + [c])[k];
      assert (acc + [c])[|acc|] == c;
    }
  }

  lemma NoDigits(acc: Bytes, bytes: Bytes)
    requires bytes != [] && bytes[0] as int >= 0x80
    ensures !Decimal.AllDigits(acc + bytes)
  {
    assert (acc + bytes)[|acc|] == bytes[0];
  }

  lemma LongPercentIsHigh(s: Bytes, i: nat)
    requires JsonPointer.PercentAt(s, i).Some? && |JsonPointer.PercentAt(s, i).value| > 1
    ensures JsonPointer.PercentAt(s, i).value[0] as int >= 0x80
  {
    hide JsonPointer.Triplet, Decode;
  }

  /** One turn of the inner loop of Parse: one character, or one percent-encoded character. */
  method ParseChar(s: Bytes, uri: bool, first: nat, buffer: array<Byte>, start: nat, ghost acc: Bytes)
      returns (failed: Option<Failure>, i: nat, n: nat, digit: bool, ghost out: Bytes)
    requires first < |s| && s[first] != '/' && buffer.Length == |s| && start + 1 + Lead(uri) <= first
    modifies buffer
    ensures JsonPointer.NameFrom(s, uri, first, acc) ==
      match failed
      case None => if i <= |s| then JsonPointer.NameFrom(s, uri, i, acc + out)
           else JsonPointer.NameFrom(s, uri, first, acc)
      case Some(e) => JsonPointer.BadName(e.code, e.off)
    ensures failed.None? ==>
      && n == start + |out| && first + |out| <= i <= |s| && out != []
      && buffer[start..n] == out
      && Decimal.AllDigits(acc + out) == (Decimal.AllDigits(acc) && digit)
      && forall k :: first <= k < i ==> s[k] != '/'
    ensures buffer[..start] == old(buffer[..start])
  {
    hide JsonPointer.NameFrom, JsonPointer.PercentAt, JsonPointer.NeedPercentEncode, Decimal.AllDigits;
    failed, i, n, digit, out := None, first, start, false, [];
    var c := s[i];
    if uri {
      if c == '%' {
        var ok, len, end := ValidateInto(s, i, buffer, n);
        PercentStep(s, i, acc);
        if !ok {
          failed := Some(Failure(JsonPointer.InvalidPercentEncoding, i));
          return;
        }
        if len > 1 {
          out := buffer[n..n + len];
          LongPercentIsHigh(s, i);
          NoDigits(acc, out);
          n, i := n + len, end;
          return;
        }
        assert buffer[n] == buffer[n..n + len][0];
        c, i := buffer[n], end - 1;
      } else if JsonPointer.NeedPercentEncode(c) {
        RawStep(s, uri, i, acc);
        failed := Some(Failure(JsonPointer.CharacterMustPercentEncode, i));
        return;
      }
    }
    if !(uri && s[first] == '%') { RawStep(s, uri, first, acc); }
    i := i + 1;
    if c == '~' {
      if i < |s| && s[i] == '0' {
        c := '~';
      } else if i < |s| && s[i] == '1' {
        c := '/';
      } else {
        failed := Some(Failure(JsonPointer.InvalidEscape, i));
        return;
      }
      i := i + 1;
    }
    digit := Decimal.IsDigit(c);
    buffer[n] := c;
    out := [c];
    n := n + 1;
    DigitsSnoc(acc, c);
  }

  /** What NameFrom does with a percent sign in a URI fragment. */
  lemma PercentStep(s: Bytes, i: nat, acc: Bytes)
    requires i < |s| && s[i] == '%'
    ensures JsonPointer.NameFrom(s, true, i, acc) ==
      match JsonPointer.PercentAt(s, i)
      case None => JsonPointer.BadName(JsonPointer.InvalidPercentEncoding, i)
      case Some(bytes) =>
        if |bytes| == 1 then JsonPointer.Unescape(s, true, bytes[0], i + 3, acc)
        else JsonPointer.NameFrom(s, true, i + 3 * |bytes|, acc + bytes)
    ensures JsonPointer.PercentAt(s, i).Some? ==>
      forall k :: i <= k < i + 3 * |JsonPointer.PercentAt(s, i).value| ==> s[k] != '/'
  {
    hide JsonPointer.Unescape;
    if JsonPointer.PercentAt(s, i).Some? { NoSlashInPercent(s, i); }
  }

  lemma NoSlashInPercent(s: Bytes, i: nat)
    requires JsonPointer.PercentAt(s, i).Some?
    ensures forall k :: i <= k < i + 3 * |JsonPointer.PercentAt(s, i).value| ==> s[k] != '/'
  {
    hide JsonPointer.Triplet, Decode, Masks, GetRange;
    NoSlashInTriplets(s, i, 1);
    NoTriplets(s, i);
    TripletsSnoc(s, i, 0);
    var b := JsonPointer.Triplet(s, i).value;
    if b >= 0x80 { NoSlashInTriplets(s, i, |Masks(GetRange(b))| + 1); }
  }

  lemma {:induction false} NoSlashInTriplets(s: Bytes, i: nat, n: nat)
    requires JsonPointer.Triplets(s, i, n).Some?
    ensures n == 0 || i + 3 * n <= |s|
    ensures forall k :: i <= k < i + 3 * n ==> s[k] != '/'
    decreases n
  {
    if n > 0 { NoSlashInTriplets(s, i + 3, n - 1); }
  }

  /** What NameFrom does with a character that is not a percent sign. */
  lemma RawStep(s: Bytes, uri: bool, i: nat, acc: Bytes)
    requires i < |s| && s[i] != '/' && !(uri && s[i] == '%')
    ensures JsonPointer.NameFrom(s, uri, i, acc) ==
      if uri && JsonPointer.NeedPercentEncode(s[i]) then JsonPointer.BadName(JsonPointer.CharacterMustPercentEncode, i)
      else JsonPointer.Unescape(s, uri, s[i], i + 1, acc)
  {
    hide JsonPointer.Unescape;
  }

  /** One name, from behind its slash: the inner loop of Parse. */
  method ParseName(s: Bytes, uri: bool, first: nat, buffer: array<Byte>, start: nat)
      returns (failed: Option<Failure>, i: nat, n: nat, isNumber: bool)
    requires first <= |s| && buffer.Length == |s| && start + 1 + Lead(uri) <= first
    modifies buffer
    ensures match JsonPointer.NameFrom(s, uri, first, [])
            case BadName(code, off) => failed == Some(Failure(code, off))
            case Name(name, end) =>
              && failed == None && i == end && n == start + |name| && n + 1 + Lead(uri) <= i <= |s|
              && buffer[start..n] == name && isNumber == Decimal.AllDigits(name)
              && forall k :: first <= k < i ==> s[k] != '/'
    ensures buffer[..start] == old(buffer[..start])
  {
    hide Decimal.AllDigits, JsonPointer.NameFrom;
    i, n, isNumber, failed := first, start, true, None;
    ghost var acc: Bytes := [];
    NoneIsNumber();
    while i < |s| && s[i] != '/'
      invariant failed == None && first <= i <= |s| && n == start + |acc| && n + 1 + Lead(uri) <= i
      invariant buffer[start..n] == acc && isNumber == Decimal.AllDigits(acc)
      invariant buffer[..start] == old(buffer[..start])
      invariant JsonPointer.NameFrom(s, uri, i, acc) == JsonPointer.NameFrom(s, uri, first, [])
      invariant forall k :: first <= k < i ==> s[k] != '/'
      decreases |s| - i
    {
      ghost var out, before, m := [], buffer[..n], n;
      var digit;
      failed, i, n, digit, out := ParseChar(s, uri, i, buffer, n, acc);
      KeptBelow(buffer, before, start, m);
      if failed.Some? {
        return;
      }
      JoinedName(buffer, start, m, n);
      acc := acc + out;
      isNumber := isNumber && digit;
    }
    JsonPointer.NameEnds(s, uri, i, acc);
  }

  /** What was read lies below the place written to. */
  lemma KeptBelow(buffer: array<Byte>, before: Bytes, start: nat, m: nat)
    requires start <= m <= buffer.Length && buffer[..m] == before
    ensures buffer[..start] == before[..start] && buffer[start..m] == before[start..]
  {
    var all := buffer[..];
    assert all[..m] == before && before[..m] == before && buffer[..start] == all[0..start] &&
           buffer[start..m] == all[start..m];
    SameSlice(all, before, m, 0, start);
    SameSlice(all, before, m, start, m);
  }

  lemma JoinedName(buffer: array<Byte>, start: nat, m: nat, n: nat)
    requires start <= m <= n <= buffer.Length
    ensures buffer[start..n] == buffer[start..m] + buffer[m..n]
  {
    var all := buffer[..];
    SlicesJoin(all, start, m, n);
    assert buffer[start..n] == all[start..n] && buffer[start..m] == all[start..m] && buffer[m..n] == all[m..n];
  }

  lemma NoneIsNumber()
    ensures Decimal.AllDigits([])
  {
  }

  /** The conversion of a name of digits to an index. */
  method ParseIndex(buffer: array<Byte>, start: nat, length: nat, allDigits: bool) returns (index: nat)
    requires start + length <= buffer.Length && allDigits == Decimal.AllDigits(buffer[start..start + length])
    ensures index == JsonPointer.IndexOf(buffer[start..start + length])
  {
    hide JsonPointer.Convert, Decimal.AllDigits;
    ghost var name := buffer[start..start + length];
    var isNumber := allDigits && length != 0;
    if isNumber && length > 1 && buffer[start] == '0' {
      isNumber := false;
    }
    var n: nat := 0;
    var j := 0;
    while isNumber && j < length
      invariant j <= length && (isNumber ==> JsonPointer.IndexOf(name) == JsonPointer.Convert(name, j, n))
      invariant !isNumber ==> JsonPointer.IndexOf(name) == JsonPointer.INVALID_INDEX
    {
      ConvertStep(name, j, n);
      assert name[j] == buffer[start + j];
      var m := (n * 10 + Decimal.Digit(buffer[start + j])) % 0x1_0000_0000;
      if m < n { isNumber := false; } else { n, j := m, j + 1; }
    }
    if isNumber { JsonPointer.ConvertEnd(name, n); }
    index := if isNumber then n else JsonPointer.INVALID_INDEX;
  }

  lemma ConvertStep(name: Bytes, j: nat, n: nat)
    requires j < |name|
    ensures
      var m := (n * 10 + Decimal.Digit(name[j])) % 0x1_0000_0000;
      JsonPointer.Convert(name, j, n) ==
        if m < n then JsonPointer.INVALID_INDEX else JsonPointer.Convert(name, j + 1, m)
  {
  }

  /** The references denote the tokens `ts`, each name followed by a terminator. */
  predicate Denotes(buf: Bytes, refs: seq<TokenRef>, ts: seq<JsonPointer.Token>) {
    |refs| == |ts| &&
    forall t :: 0 <= t < |refs| ==>
      && refs[t].start + refs[t].length < |buf|
      && buf[refs[t].start..refs[t].start + refs[t].length] == ts[t].name
      && buf[refs[t].start + refs[t].length] == '\0'
      && refs[t].index == ts[t].index
  }

  /** Everything referred to lies below position `n`. */
  predicate Below(refs: seq<TokenRef>, n: nat) {
    forall t :: 0 <= t < |refs| ==> refs[t].start + refs[t].length < n
  }

  /** Writing above what is referred to changes nothing, and one more token can be added. */
  lemma DenotesMore(before: Bytes, buf: Bytes, refs: seq<TokenRef>, ts: seq<JsonPointer.Token>, n: nat, r: TokenRef,
      token: JsonPointer.Token)
    requires Denotes(before, refs, ts) && Below(refs, n)
    requires n <= |before| == |buf| && buf[..n] == before[..n]
    requires r.start == n && n + r.length < |buf| && buf[n + r.length] == '\0'
    requires buf[n..n + r.length] == token.name && r.index == token.index
    ensures Denotes(buf, refs + [r], ts + [token]) && Below(refs + [r], n + r.length + 1)
  {
    forall t | 0 <= t < |refs|
      ensures buf[refs[t].start..refs[t].start + refs[t].length] == ts[t].name
      ensures buf[refs[t].start + refs[t].length] == '\0'
    {
      SameSlice(buf, before, n, refs[t].start, refs[t].start + refs[t].length);
    }
  }

  lemma NoTokens(s: Bytes, uri: bool)
    ensures JsonPointer.TokensFrom(s, uri, |s|) == JsonPointer.Pointer([])
  {
  }

  /** Tokens in front of the outcome for the rest. */
  function Prepend(done: seq<JsonPointer.Token>, rest: JsonPointer.Parsed): JsonPointer.Parsed {
    match rest
    case BadPointer(code, off) => rest
    case Pointer(ts) => JsonPointer.Pointer(done + ts)
  }

  lemma NoneDenoted(buf: Bytes)
    ensures Denotes(buf, [], []) && Below([], 0)
  {
  }

  lemma PrependEnd(done: seq<JsonPointer.Token>)
    ensures Prepend(done, JsonPointer.Pointer([])) == JsonPointer.Pointer(done)
  {
    assert done + [] == done;
  }

  lemma PrependBad(done: seq<JsonPointer.Token>, rest: JsonPointer.Parsed)
    ensures rest.BadPointer? ==> Prepend(done, rest) == rest
  {
  }

  lemma PrependNothing(rest: JsonPointer.Parsed)
    ensures Prepend([], rest) == rest
  {
    if rest.Pointer? { assert [] + rest.tokens == rest.tokens; }
  }

  lemma PrependMore(done: seq<JsonPointer.Token>, token: JsonPointer.Token, rest: JsonPointer.Parsed)
    ensures Prepend(done, Prepend([token], rest)) == Prepend(done + [token], rest)
  {
    if rest.Pointer? { assert done + ([token] + rest.tokens) == done + [token] + rest.tokens; }
  }

  lemma TokenStep(s: Bytes, uri: bool, i: nat)
    requires i < |s| && s[i] == '/'
    ensures JsonPointer.TokensFrom(s, uri, i) ==
      match JsonPointer.NameFrom(s, uri, i + 1, [])
      case BadName(code, off) => JsonPointer.BadPointer(code, off)
      case Name(name, end) =>
        Prepend([JsonPointer.Token(name, JsonPointer.IndexOf(name))], JsonPointer.TokensFrom(s, uri, end))
  {
    hide JsonPointer.NameFrom, JsonPointer.IndexOf;
  }

  lemma SlashesFromFirst(s: Bytes, i: nat)
    requires i <= |s| && i <= 1 && (i == 1 ==> s[0] == '#')
    ensures Slashes(s, 0) == Slashes(s, i)
  {
  }

  class GenericPointer {
    var nameBuffer: array<Byte>
    var tokens: array<TokenRef>
    var tokenCount: nat
    var failure: Option<Failure>

    constructor ()
      ensures tokenCount == 0 && failure == None
    {
      nameBuffer, tokens := new Byte[0], new TokenRef[0];
      tokenCount, failure := 0, None;
    }

    /** Parse. */
    method Parse(source: Bytes)
      modifies this
      ensures match JsonPointer.Parse(source)
              case Pointer(ts) => failure == None && tokenCount == |ts| && Denotes(nameBuffer[..], tokens[..], ts)
              case BadPointer(code, off) => failure == Some(Failure(code, off)) && tokenCount == 0
    {
      hide JsonPointer.TokensFrom, JsonPointer.NameFrom, JsonPointer.IndexOf, Prepend, Denotes, Below;
      tokenCount := CountSlashes(source);
      tokens := new TokenRef[tokenCount];
      nameBuffer := new Byte[|source|];
      failure := None;
      var uri := JsonPointer.At(source, 0) == '#';
      var i := Lead(uri);
      if i != |source| && source[i] != '/' {
        failure, tokenCount := Some(Failure(JsonPointer.TokenMustBeginWithSolidus, i)), 0;
        return;
      }
      ghost var first, done: seq<JsonPointer.Token> := i, [];
      var name: nat, k: nat := 0, 0;
      SlashesFromFirst(source, i);
      NoneDenoted(nameBuffer[..]);
      PrependNothing(JsonPointer.TokensFrom(source, uri, i));
      while i < |source|
        invariant i <= |source| && (i == |source| || source[i] == '/') && name + Lead(uri) <= i
        invariant fresh(tokens) && fresh(nameBuffer) && nameBuffer.Length == |source|
        invariant failure == None && tokenCount == tokens.Length == k + Slashes(source, i) && |done| == k
        invariant Denotes(nameBuffer[..], tokens[..k], done) && Below(tokens[..k], name)
        invariant JsonPointer.TokensFrom(source, uri, first) == Prepend(done, JsonPointer.TokensFrom(source, uri, i))
        decreases |source| - i
      {
        var failed;
        ghost var token;
        ghost var before := i;
        failed, i, name, token := ParseToken(source, uri, i, name, k, done);
        TokenStep(source, uri, before);
        if failed.Some? {
          PrependBad(done, JsonPointer.TokensFrom(source, uri, before));
          failure, tokenCount := failed, 0;
          return;
        }
        PrependMore(done, token, JsonPointer.TokensFrom(source, uri, i));
        done := done + [token];
        k := k + 1;
      }
      NoTokens(source, uri);
      PrependEnd(done);
      assert tokens[..k] == tokens[..];
    }

    /** One token, from its slash on: the body of the outer loop. */
    method ParseToken(source: Bytes, uri: bool, slash: nat, start: nat, k: nat, ghost done: seq<JsonPointer.Token>)
        returns (failed: Option<Failure>, i: nat, name: nat, ghost token: JsonPointer.Token)
      requires slash < |source| && source[slash] == '/' && start + Lead(uri) <= slash
      requires nameBuffer.Length == |source| && tokens.Length == k + Slashes(source, slash)
      requires Denotes(nameBuffer[..], tokens[..k], done) && Below(tokens[..k], start)
      modifies nameBuffer, tokens
      ensures match JsonPointer.NameFrom(source, uri, slash + 1, [])
              case BadName(code, off) => failed == Some(Failure(code, off))
              case Name(n, end) =>
                && failed == None && i == end && token == JsonPointer.Token(n, JsonPointer.IndexOf(n))
                && name + Lead(uri) <= i && tokens.Length == k + 1 + Slashes(source, i)
                && Denotes(nameBuffer[..], tokens[..k + 1], done + [token]) && Below(tokens[..k + 1], name)
    {
      hide JsonPointer.NameFrom, JsonPointer.IndexOf, Decimal.AllDigits, Denotes, Below;
      ghost var buf, refs := nameBuffer[..], tokens[..k];
      var n, isNumber;
      failed, i, n, isNumber := ParseName(source, uri, slash + 1, nameBuffer, start);
      name, token := n, JsonPointer.Token([], 0);
      if failed.Some? { return; }
      NoSlashInName(source, slash + 1, i);
      var index := ParseIndex(nameBuffer, start, n - start, isNumber);
      token := JsonPointer.Token(nameBuffer[start..n], index);
      nameBuffer[n] := '\0';
      name := n + 1;
      tokens[k] := TokenRef(start, n - start, index);
      assert tokens[..k + 1] == refs + [TokenRef(start, n - start, index)];
      assert nameBuffer[..][..start] == buf[..start];
      assert nameBuffer[..][start..n] == token.name;
      DenotesMore(buf, nameBuffer[..], refs, done, start, TokenRef(start, n - start, index), token);
    }
  }

  method CountSlashes(s: Bytes) returns (count: nat)
    ensures count == Slashes(s, 0)
  {
    count := 0;
    var i := 0;
    while i < |s|
      invariant i <= |s| && count + Slashes(s, i) == Slashes(s, 0)
    {
      if s[i] == '/' { count := count + 1; }
      i := i + 1;
    }
  }
}
