/** The ping sample: its two encoders are undone by the dispatcher, and an id that was sent comes back. */
module PingPong {
  import opened Common
  import opened CharVectors
  import opened Frames
  import Decimal

  /** The header that the encoders write; the size is kept to 16 bits. */
  function Header(size: nat): (h: seq<Byte>)
    ensures |h| == HEADER && Length(h) == size % 65536
  {
    [(size / 256 % 256) as char, (size % 256) as char, 0x10 as char, 0xf0 as char, 0x10 as char, '#', '#', '#']
  }

  /** A payload behind its header. */
  function Framed(payload: seq<Byte>): seq<Byte> {
    Header(|payload|) + payload
  }

  function PongPayload(id: seq<Byte>): seq<Byte> {
    id + ['\0']
  }

  /** Writes the header's fields over the first bytes. */
  method FillHeader(buffer: CharVector, size: nat)
    requires buffer.Valid() && buffer.len >= HEADER
    requires buffer.Contents()[5..HEADER] == ['#', '#', '#']
    modifies buffer.base
    ensures buffer.Contents() == Header(size) + old(buffer.Contents())[HEADER..]
    ensures buffer.base[HEADER..] == old(buffer.base[HEADER..])
  {
    ghost var before := buffer.base[..];
    Reserved3(buffer.Contents());
    buffer.base[2] := 0x10 as char;
    buffer.base[3] := 0xf0 as char;
    buffer.base[4] := 0x10 as char;
    buffer.base[0] := (size / 256 % 256) as char;
    buffer.base[1] := (size % 256) as char;
    HeaderOver(before, buffer.base[..], buffer.len, size);
    assert buffer.Contents() == buffer.base[..][..buffer.len] && old(buffer.Contents()) == before[..buffer.len];
    assert buffer.base[HEADER..] == buffer.base[..][HEADER..];
  }

  lemma Reserved3(s: seq<Byte>)
    requires |s| >= HEADER && s[5..HEADER] == ['#', '#', '#']
    ensures s[5] == '#' && s[6] == '#' && s[7] == '#'
  {
    assert s[5..HEADER][0] == s[5] && s[5..HEADER][1] == s[6] && s[5..HEADER][2] == s[7];
  }

  /** Five bytes were written, and the three behind them were reserved. */
  lemma HeaderOver(was: seq<Byte>, now: seq<Byte>, len: nat, size: nat)
    requires |was| == |now| && HEADER <= len <= |was|
    requires forall k :: 5 <= k < |was| ==> now[k] == was[k]
    requires now[5] == '#' && now[6] == '#' && now[7] == '#'
    requires now[0] == Header(size)[0] && now[1] == Header(size)[1] && now[2] == Header(size)[2]
    requires now[3] == Header(size)[3] && now[4] == Header(size)[4]
    ensures now[..len] == Header(size) + was[..len][HEADER..] && now[HEADER..] == was[HEADER..]
  {
    var h := Header(size);
    assert h[5] == '#' && h[6] == '#' && h[7] == '#' && |h| == HEADER;
    hide Header;
    forall k | 0 <= k < len ensures now[..len][k] == (h + was[..len][HEADER..])[k] {
      assert now[..len][k] == now[k];
      if k < HEADER {
        assert (h + was[..len][HEADER..])[k] == h[k];
        assert k == 0 || k == 1 || k == 2 || k == 3 || k == 4 || k == 5 || k == 6 || k == 7;
      } else {
        assert (h + was[..len][HEADER..])[k] == was[..len][HEADER..][k - HEADER] == was[..len][k] == was[k];
      }
    }
    assert |now[..len]| == |h + was[..len][HEADER..]|;
  }

  method PutPlaceholders(buffer: CharVector)
    requires buffer.Valid() && buffer.Contents() == [] && buffer.cap >= HEADER
    modifies buffer, buffer.base
    ensures buffer.Valid() && buffer.Contents() == ['#', '#', '#', '#', '#', '#', '#', '#']
    ensures buffer.base == old(buffer.base) && buffer.cap == old(buffer.cap)
  {
    for i := 0 to HEADER
      invariant buffer.Valid() && buffer.base == old(buffer.base) && buffer.cap == old(buffer.cap)
      invariant buffer.Contents() == seq(i, k => '#')
    {
      buffer.PushBack('#');
    }
  }

  method PutBytes(buffer: CharVector, bytes: seq<Byte>)
    requires buffer.Valid()
    modifies buffer, buffer.base
    ensures buffer.Valid() && buffer.Contents() == old(buffer.Contents()) + bytes
    ensures buffer.cap >= old(buffer.cap) && (buffer.base == old(buffer.base) || fresh(buffer.base))
  {
    for i := 0 to |bytes|
      invariant buffer.Valid() && buffer.cap >= old(buffer.cap) &&
                (buffer.base == old(buffer.base) || fresh(buffer.base))
      invariant buffer.Contents() == old(buffer.Contents()) + bytes[..i]
    {
      buffer.PushBack(bytes[i]);
      assert bytes[..i] + [bytes[i]] == bytes[..i + 1];
    }
    assert bytes[..|bytes|] == bytes;
  }

  /** The server's encoder: the id and a terminator behind the header. */
  method PongEncode(buffer: CharVector, id: seq<Byte>)
    requires buffer.Valid()
    modifies buffer, buffer.base
    ensures buffer.Valid() && buffer.Contents() == Framed(PongPayload(id))
    ensures buffer.cap >= old(buffer.cap) && (buffer.base == old(buffer.base) || fresh(buffer.base))
  {
    hide Reserved, Header, Grow;
    buffer.Clear();
    ReservedBounds(buffer.cap, 1024);
    buffer.Reserve(1024);
    PutPlaceholders(buffer);
    PutBytes(buffer, id);
    buffer.PushBack('\0');
    assert buffer.Contents()[HEADER..] == PongPayload(id);
    FillHeader(buffer, buffer.len - HEADER);
  }

  /** A ping of that number: its decimal numeral and a terminator, then anything. */
  predicate IsPing(frame: seq<Byte>, num: nat) {
    |frame| == 1024 && frame[..HEADER] == Header(1016) &&
    HEADER + |Decimal.Print(num)| < 1024 &&
    frame[HEADER..HEADER + |Decimal.Print(num)| + 1] == Decimal.Print(num) + "\0"
  }

  lemma {:induction false} PrintIsShort(n: nat, digits: nat, bound: nat)
    requires n < bound && digits >= 1 && bound == Power10(digits)
    ensures |Decimal.Print(n)| <= digits
    decreases digits
  {
    if n >= 10 {
      assert digits > 1;
      PrintIsShort(n / 10, digits - 1, Power10(digits - 1));
    }
  }

  function Power10(k: nat): nat {
    if k == 0 then 1 else 10 * Power10(k - 1)
  }

  lemma TwentyDigits(num: nat)
    requires num < 0x1_0000_0000_0000_0000
    ensures |Decimal.Print(num)| <= 20
  {
    assert Power10(5) == 100000;
    assert Power10(10) == 10000000000;
    assert Power10(15) == 1000000000000000;
    PrintIsShort(num, 20, Power10(20));
  }

  /** Prints the number and a terminator behind the first eight bytes. */
  method PrintNumber(buffer: CharVector, num: nat)
    requires buffer.Valid() && buffer.cap >= 1024 && num < 0x1_0000_0000_0000_0000
    modifies buffer.base
    ensures buffer.base[..HEADER] == old(buffer.base[..HEADER])
    ensures |Decimal.Print(num)| <= 20
    ensures buffer.base[HEADER..HEADER + |Decimal.Print(num)| + 1] == Decimal.Print(num) + "\0"
  {
    TwentyDigits(num);
    var text: seq<Byte> := Decimal.Print(num) + "\0";
    forall k | 0 <= k < |text| { buffer.base[HEADER + k] := text[k]; }
    assert buffer.base[HEADER..HEADER + |text|] == text;
  }

  /** The client's encoder prints the number into the reserved bytes behind the placeholders. */
  method PingEncode(buffer: CharVector, num: nat)
    requires buffer.Valid() && num < 0x1_0000_0000_0000_0000
    modifies buffer, buffer.base
    ensures buffer.Valid() && IsPing(buffer.Contents(), num)
  {
    buffer.Clear();
    ReservedBounds(buffer.cap, 2048);
    buffer.Reserve(2048);
    PutPlaceholders(buffer);
    PrintNumber(buffer, num);
    ghost var n := |Decimal.Print(num)| + 1;
    ghost var text := buffer.base[HEADER..HEADER + n];
    buffer.Resize(1024);
    assert buffer.Contents()[..HEADER] == buffer.base[..HEADER];
    FillHeader(buffer, buffer.len - HEADER);
    assert buffer.base[HEADER..][..n] == text;
    assert buffer.Contents()[HEADER..HEADER + n] == buffer.base[HEADER..HEADER + n] == buffer.base[HEADER..][..n];
  }

  // ---- what the dispatcher makes of it --------------------------------------------------------

  function PacketOf(payload: seq<Byte>): Packet {
    Packet(Header(|payload|), payload)
  }

  /** A framed payload is delivered as it was if and only if it fits the 16-bit length. */
  lemma DeliveredIffFits(payload: seq<Byte>)
    ensures Cut(Framed(payload)) == Parts([PacketOf(payload)], []) <==> |payload| <= 65535
  {
    hide Cut;
    JoinCons(PacketOf(payload), []);
    JoinNone();
    assert [PacketOf(payload)] + [] == [PacketOf(payload)];
    assert Framed(payload) + [] == Framed(payload) && Header(|payload|) + payload + [] == Framed(payload);
    CutIsUnique(Framed(payload), [PacketOf(payload)], []);
    assert AllWellFormed([PacketOf(payload)]) <==> WellFormed(PacketOf(payload)) by {
      assert [PacketOf(payload)][0] == PacketOf(payload);
    }
  }

  function Stream(payloads: seq<seq<Byte>>): seq<Byte> {
    if payloads == [] then [] else Framed(payloads[0]) + Stream(payloads[1..])
  }

  function Packets(payloads: seq<seq<Byte>>): (ps: seq<Packet>)
    ensures |ps| == |payloads| && forall k :: 0 <= k < |ps| ==> ps[k] == PacketOf(payloads[k])
  {
    if payloads == [] then [] else [PacketOf(payloads[0])] + Packets(payloads[1..])
  }

  predicate AllFit(payloads: seq<seq<Byte>>) {
    forall k :: 0 <= k < |payloads| ==> |payloads[k]| <= 65535
  }

  lemma {:induction false} StreamIsJoin(payloads: seq<seq<Byte>>)
    ensures Stream(payloads) == Join(Packets(payloads))
  {
    if payloads != [] {
      StreamIsJoin(payloads[1..]);
      JoinCons(PacketOf(payloads[0]), Packets(payloads[1..]));
    }
  }

  lemma PacketsFit(payloads: seq<seq<Byte>>)
    requires AllFit(payloads)
    ensures AllWellFormed(Packets(payloads))
  {
  }

  /** Framed payloads, sent in any chunks, are delivered in order and leave nothing over. */
  lemma StreamIsDelivered(payloads: seq<seq<Byte>>, chunks: seq<seq<Byte>>)
    requires AllFit(payloads) && Flatten(chunks) == Stream(payloads)
    ensures Deliver([], chunks) == Parts(Packets(payloads), [])
  {
    hide Cut, Deliver, Stream, Packets, Flatten, Join;
    PacketsFit(payloads);
    StreamIsJoin(payloads);
    ChunksDoNotMatter([], chunks);
    assert [] + Flatten(chunks) == Join(Packets(payloads)) + [];
    CutOfJoin(Packets(payloads), []);
  }

  // ---- a ping and its pong --------------------------------------------------------------------

  const LLONG_MAX := 0x7fff_ffff_ffff_ffff
  const LLONG_MIN := -0x8000_0000_0000_0000

  predicate IsSpace(c: char) {
    c == ' ' || '\t' <= c <= '\r'
  }

  function SkipBlanks(s: string): string {
    if s != [] && IsSpace(s[0]) then SkipBlanks(s[1..]) else s
  }

  /** The digits at the start. */
  function Digits(s: string): (d: string)
    ensures |d| <= |s| && d == s[..|d|] && Decimal.AllDigits(d)
    ensures |d| < |s| ==> !Decimal.IsDigit(s[|d|])
  {
    if s != [] && Decimal.IsDigit(s[0]) then [s[0]] + Digits(s[1..]) else []
  }

  function Clamp(n: int): (r: int)
    ensures LLONG_MIN <= r <= LLONG_MAX
    ensures r == n <==> LLONG_MIN <= n <= LLONG_MAX
  {
    if n > LLONG_MAX then LLONG_MAX else if n < LLONG_MIN then LLONG_MIN else n
  }

  /** strtoll in base ten. */
  function Strtoll(s: string): int {
    var t := SkipBlanks(s);
    if t != [] && t[0] == '-' then Clamp(0 - Decimal.Value(Digits(t[1..])))
    else if t != [] && t[0] == '+' then Clamp(Decimal.Value(Digits(t[1..])))
    else Clamp(Decimal.Value(Digits(t)))
  }

  lemma {:induction false} DigitsThenNot(ds: string, rest: string)
    requires Decimal.AllDigits(ds) && rest != [] && !Decimal.IsDigit(rest[0])
    ensures Digits(ds + rest) == ds
  {
    if ds == [] {
      assert ds + rest == rest;
    } else {
      assert (ds + rest)[1..] == ds[1..] + rest;
      DigitsThenNot(ds[1..], rest);
    }
  }

  /** Reading a printed number gives it back exactly if it fits. */
  lemma ReadNumeral(n: nat, rest: string)
    requires rest != [] && !Decimal.IsDigit(rest[0])
    ensures Strtoll(Decimal.Print(n) + rest) == if n <= LLONG_MAX then n else LLONG_MAX
  {
    hide Digits;
    var ds := Decimal.Print(n);
    Decimal.ValueOfPrint(n);
    DigitsThenNot(ds, rest);
    assert (ds + rest)[0] == ds[0] && Decimal.IsDigit(ds[0]);
  }

  /** What the server sends back for a packet: an echo of its payload. */
  function Echo(p: Packet): seq<Byte> {
    PongPayload(p.payload)
  }

  function Echoes(ps: seq<Packet>): (es: seq<seq<Byte>>)
    ensures |es| == |ps| && forall k :: 0 <= k < |es| ==> es[k] == Echo(ps[k])
  {
    if ps == [] then [] else [Echo(ps[0])] + Echoes(ps[1..])
  }

  /** The ids that the client reads from the payloads delivered to it. */
  function Ids(ps: seq<Packet>): (ids: seq<int>)
    ensures |ids| == |ps| && forall k :: 0 <= k < |ids| ==> ids[k] == Strtoll(ps[k].payload)
  {
    if ps == [] then [] else [Strtoll(ps[0].payload)] + Ids(ps[1..])
  }

  /** The frames are the pings of these numbers. */
  predicate ArePings(frames: seq<seq<Byte>>, nums: seq<nat>) {
    |frames| == |nums| && forall k :: 0 <= k < |frames| ==> IsPing(frames[k], nums[k])
  }

  function PayloadsOf(frames: seq<seq<Byte>>): (ps: seq<seq<Byte>>)
    requires forall k :: 0 <= k < |frames| ==> |frames[k]| >= HEADER
    ensures |ps| == |frames| && forall k :: 0 <= k < |ps| ==> ps[k] == frames[k][HEADER..]
  {
    if frames == [] then [] else [frames[0][HEADER..]] + PayloadsOf(frames[1..])
  }

  lemma {:induction false} PingsAreFramed(frames: seq<seq<Byte>>, nums: seq<nat>)
    requires ArePings(frames, nums)
    ensures Flatten(frames) == Stream(PayloadsOf(frames)) && AllFit(PayloadsOf(frames))
  {
    if frames != [] {
      assert ArePings(frames[1..], nums[1..]);
      PingsAreFramed(frames[1..], nums[1..]);
      assert IsPing(frames[0], nums[0]);
      assert frames[0] == frames[0][..HEADER] + frames[0][HEADER..];
    }
  }

  lemma IdOfEcho(frame: seq<Byte>, num: nat)
    requires IsPing(frame, num)
    ensures Strtoll(PongPayload(frame[HEADER..])) == if num <= LLONG_MAX then num else LLONG_MAX
  {
    hide Strtoll;
    var ds, payload := Decimal.Print(num), PongPayload(frame[HEADER..]);
    var rest := payload[|ds|..];
    var start := frame[HEADER..HEADER + |ds| + 1];
    assert start == ds + "\0";
    assert start[..|ds|] == ds && start[|ds|] == '\0';
    assert payload[..|ds|] == start[..|ds|];
    assert rest[0] == start[|ds|];
    assert payload == ds + rest;
    ReadNumeral(num, rest);
  }

  /** Pings of any numbers, sent in any chunks, answered by the server's echo, which comes back in any
      chunks: the client reads the numbers in their order, each unchanged if and only if it is below
      2^63, and neither side has a byte left over. */
  lemma PingsComeBack(frames: seq<seq<Byte>>, nums: seq<nat>, there: seq<seq<Byte>>, back: seq<seq<Byte>>)
    requires ArePings(frames, nums) && Flatten(there) == Flatten(frames)
    requires Flatten(back) == Stream(Echoes(Deliver([], there).packets))
    ensures Deliver([], there).rest == [] && Deliver([], back).rest == []
    ensures var ids := Ids(Deliver([], back).packets);
            |ids| == |nums| &&
            (forall k :: 0 <= k < |ids| ==> ids[k] == if nums[k] <= LLONG_MAX then nums[k] else LLONG_MAX) &&
            (forall k :: 0 <= k < |ids| ==> (ids[k] == nums[k] <==> nums[k] < 0x8000_0000_0000_0000))
  {
    hide Deliver, Strtoll, Stream, Flatten;
    PingsAreFramed(frames, nums);
    StreamIsDelivered(PayloadsOf(frames), there);
    var echoes := Echoes(Deliver([], there).packets);
    assert forall k :: 0 <= k < |echoes| ==> echoes[k] == PongPayload(frames[k][HEADER..]);
    assert AllFit(echoes);
    StreamIsDelivered(echoes, back);
    forall k | 0 <= k < |nums| ensures Strtoll(echoes[k]) == if nums[k] <= LLONG_MAX then nums[k] else LLONG_MAX {
      IdOfEcho(frames[k], nums[k]);
    }
  }
}
