/** The byte stream as packets: an eight-byte header with a big-endian length, then that many bytes. */
module Frames {
  import opened Common

  const HEADER := 8

  datatype Packet = Packet(header: seq<Byte>, payload: seq<Byte>)

  /** What the stream cuts into: the packets that are complete, and the bytes after them. */
  datatype Parts = Parts(packets: seq<Packet>, rest: seq<Byte>)

  /** A 16-bit number in network order. */
  function Network(high: Byte, low: Byte): (n: nat)
    ensures n < 65536
  {
    high as int * 256 + low as int
  }

  /** The length field of a header. */
  function Length(s: seq<Byte>): (n: nat)
    requires |s| >= 2
    ensures n < 65536
  {
    Network(s[0], s[1])
  }

  /** The stream starts with a whole packet. */
  predicate Complete(s: seq<Byte>) {
    |s| >= HEADER && |s| >= HEADER + Length(s)
  }

  predicate WellFormed(p: Packet) {
    |p.header| == HEADER && |p.payload| == Length(p.header)
  }

  /** The first packet of the stream. */
  function First(s: seq<Byte>): (p: Packet)
    requires Complete(s)
    ensures WellFormed(p)
  {
    Packet(s[..HEADER], s[HEADER..HEADER + Length(s)])
  }

  function Behind(s: seq<Byte>): (r: seq<Byte>)
    requires Complete(s)
    ensures |r| < |s|
  {
    s[HEADER + Length(s)..]
  }

  /** The parts of `c` after the packets `ps`. */
  function After(ps: seq<Packet>, c: Parts): Parts {
    Parts(ps + c.packets, c.rest)
  }

  function Cut(s: seq<Byte>): (c: Parts)
    ensures !Complete(c.rest)
    ensures c.packets == [] <==> !Complete(s)
    ensures |c.rest| <= |s|
    decreases |s|
  {
    if Complete(s) then After([First(s)], Cut(Behind(s))) else Parts([], s)
  }

  predicate AllWellFormed(ps: seq<Packet>) {
    forall k :: 0 <= k < |ps| ==> WellFormed(ps[k])
  }

  function Join(ps: seq<Packet>): seq<Byte> {
    if ps == [] then [] else ps[0].header + ps[0].payload + Join(ps[1..])
  }

  /** A strict prefix of one packet is at most 65542 bytes. */
  lemma RestIsShort(s: seq<Byte>)
    ensures |Cut(s).rest| <= 65542
  {
    assert !Complete(Cut(s).rest);
  }

  lemma CutStep(s: seq<Byte>)
    ensures Complete(s) ==> Cut(s) == After([First(s)], Cut(Behind(s)))
    ensures !Complete(s) ==> Cut(s) == Parts([], s)
  {
    hide First, Behind, Complete;
  }

  lemma FirstAndBehind(s: seq<Byte>)
    requires Complete(s)
    ensures s == First(s).header + First(s).payload + Behind(s)
    ensures WellFormed(First(s))
  {
  }

  /** A packet in front of a stream is its first packet. */
  lemma FirstOfPacket(p: Packet, s: seq<Byte>)
    requires WellFormed(p)
    ensures var t := p.header + p.payload + s; Complete(t) && First(t) == p && Behind(t) == s
  {
  }

  lemma CutPacket(p: Packet, s: seq<Byte>)
    requires WellFormed(p)
    ensures Cut(p.header + p.payload + s) == After([p], Cut(s))
  {
    hide *;
    FirstOfPacket(p, s);
    CutStep(p.header + p.payload + s);
  }

  lemma JoinNone()
    ensures Join([]) == []
  {
  }

  lemma JoinCons(p: Packet, ps: seq<Packet>)
    ensures Join([p] + ps) == p.header + p.payload + Join(ps)
  {
    assert ([p] + ps)[1..] == ps;
  }

  /** Nothing is lost and nothing is made up. */
  lemma {:induction false} JoinOfCut(s: seq<Byte>)
    ensures Join(Cut(s).packets) + Cut(s).rest == s
    ensures AllWellFormed(Cut(s).packets)
    decreases |s|
  {
    hide Cut, First, Complete, WellFormed, Join;
    CutStep(s);
    if Complete(s) {
      FirstAndBehind(s);
      JoinOfCut(Behind(s));
      var c := Cut(Behind(s));
      JoinCons(First(s), c.packets);
      Assoc(First(s).header + First(s).payload, Join(c.packets), c.rest);
    } else {
      JoinNone();
    }
  }

  /** The stream of packets cuts into these packets. */
  lemma {:induction false} CutOfJoin(ps: seq<Packet>, rest: seq<Byte>)
    requires AllWellFormed(ps) && !Complete(rest)
    ensures Cut(Join(ps) + rest) == Parts(ps, rest)
  {
    hide Cut, Complete, WellFormed;
    if ps == [] {
      assert Join(ps) + rest == rest;
      CutStep(rest);
    } else {
      CutOfJoin(ps[1..], rest);
      Assoc(ps[0].header + ps[0].payload, Join(ps[1..]), rest);
      CutPacket(ps[0], Join(ps[1..]) + rest);
      assert [ps[0]] + ps[1..] == ps;
    }
  }

  /** There is one way only to see a stream as whole packets and a strict prefix of one more. */
  lemma CutIsUnique(s: seq<Byte>, ps: seq<Packet>, rest: seq<Byte>)
    ensures Cut(s) == Parts(ps, rest) <==> AllWellFormed(ps) && !Complete(rest) && Join(ps) + rest == s
  {
    JoinOfCut(s);
    if AllWellFormed(ps) && !Complete(rest) && Join(ps) + rest == s { CutOfJoin(ps, rest); }
  }

  /** More bytes are cut as a continuation of the bytes that were left over. */
  lemma {:induction false} CutMore(a: seq<Byte>, b: seq<Byte>)
    ensures Cut(a + b) == After(Cut(a).packets, Cut(Cut(a).rest + b))
    decreases |a|
  {
    hide Cut, Complete, First, WellFormed;
    CutStep(a);
    if Complete(a) {
      var p, s := First(a), Behind(a);
      FirstAndBehind(a);
      CutMore(s, b);
      Assoc(p.header + p.payload, s, b);
      CutPacket(p, s + b);
      Assoc([p], Cut(s).packets, Cut(Cut(s).rest + b).packets);
    }
  }

  function Flatten(chunks: seq<seq<Byte>>): seq<Byte> {
    if chunks == [] then [] else chunks[0] + Flatten(chunks[1..])
  }

  /** What arrives chunk by chunk, each cut together with what the chunks before left over. */
  function Deliver(rest: seq<Byte>, chunks: seq<seq<Byte>>): Parts
    decreases |chunks|
  {
    if chunks == [] then Parts([], rest)
    else
      var c := Cut(rest + chunks[0]);
      After(c.packets, Deliver(c.rest, chunks[1..]))
  }

  /** However the stream is chunked, what is delivered and what remains depends on its bytes only. */
  lemma {:induction false} ChunksDoNotMatter(rest: seq<Byte>, chunks: seq<seq<Byte>>)
    requires !Complete(rest)
    ensures Deliver(rest, chunks) == Cut(rest + Flatten(chunks))
    decreases |chunks|
  {
    if chunks == [] {
      assert rest + [] == rest;
    } else {
      var a, b := rest + chunks[0], Flatten(chunks[1..]);
      assert rest + (chunks[0] + b) == a + b;
      CutMore(a, b);
      ChunksDoNotMatter(Cut(a).rest, chunks[1..]);
    }
  }
}
