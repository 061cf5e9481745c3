/** The dispatcher: cuts what arrives on a connection into packets, and keeps the rest in the
    connection's vector. */
module Dispatcher {
  import opened Common
  import opened CharVectors
  import opened Frames

  /** The stored bytes hold a header, the packet becomes complete, and completing it outgrows the
      vector: the header was looked at in the array that is given up. */
  predicate HeaderMoves(rest: seq<Byte>, cap: nat, chunk: seq<Byte>) {
    |rest| >= HEADER && Complete(rest + chunk) && HEADER + Length(rest) > cap
  }

  /** A connection that began with the default vector gives up no header of a short packet. */
  lemma ShortHeadersStay(rest: seq<Byte>, cap: nat, chunk: seq<Byte>)
    requires Doubled(cap) && (|rest| >= HEADER ==> Length(rest) <= 1016)
    ensures !HeaderMoves(rest, cap, chunk)
  {
  }

  lemma HeaderMovesExample(rest: seq<Byte>, chunk: seq<Byte>)
    requires rest == [4 as char, '\0', '#', '#', '#', '#', '#', '#'] && |chunk| == 1024
    ensures HeaderMoves(rest, 1024, chunk)
  {
  }

  lemma StoredPacket(s: seq<Byte>, d: seq<Byte>, need: nat)
    requires |s| >= HEADER && !Complete(s) && need == HEADER + Length(s) - |s| && need <= |d|
    ensures Complete(s + d) && Behind(s + d) == d[need..]
    ensures First(s + d) == Packet(s[..HEADER], (s + d[..need])[HEADER..])
  {
    assert (s + d)[HEADER..HEADER + Length(s)] == (s + d[..need])[HEADER..];
  }

  lemma SplitHeader(s: seq<Byte>, d: seq<Byte>, header: seq<Byte>)
    requires |s| < HEADER <= |s| + |d| && header == s + d[..HEADER - |s|]
    ensures var need := HEADER - |s|; var n := Length(header);
            (Complete(s + d) <==> n <= |d| - need) &&
            (Complete(s + d) ==>
               First(s + d) == Packet(header, d[need..need + n]) && Behind(s + d) == d[need + n..])
  {
    assert (s + d)[..HEADER] == header;
    var need, n := HEADER - |s|, Length(header);
    if n <= |d| - need {
      assert (s + d)[HEADER..HEADER + n] == d[need..need + n];
    }
  }

  lemma SubChunk(buf: array<Byte>, start: nat, len: nat, a: nat, b: nat)
    requires start + len <= buf.Length && a <= b <= len
    ensures var d := buf[start..start + len];
            d[a..b] == buf[start + a..start + b] && (a == 0 ==> d[..b] == d[a..b]) && (b == len ==> d[a..] == d[a..b])
  {
    var d := buf[start..start + len];
    assert d[a..b] == buf[start + a..start + b] by {
      forall k | 0 <= k < b - a ensures d[a..b][k] == buf[start + a..start + b][k] {
        assert d[a..b][k] == d[a + k] == buf[start + (a + k)];
        assert buf[start + a..start + b][k] == buf[start + a + k];
      }
    }
  }

  /** The packet that starts at `at`, seen through the header's bytes. */
  lemma PacketAt(buf: array<Byte>, at: nat, left: nat)
    requires at + left <= buf.Length && left >= HEADER
    ensures var s := buf[at..at + left]; var n := Network(buf[at], buf[at + 1]);
            (Complete(s) <==> HEADER + n <= left) &&
            (Complete(s) ==>
               Cut(s) == After([Packet(buf[at..at + HEADER], buf[at + HEADER..at + HEADER + n])],
                               Cut(buf[at + HEADER + n..at + left])))
  {
    hide Cut;
    var s, n := buf[at..at + left], Network(buf[at], buf[at + 1]);
    CutStep(s);
    if HEADER + n <= left {
      SubChunk(buf, at, left, HEADER + n, left);
      SubChunk(buf, at, left, 0, HEADER);
      SubChunk(buf, at, left, HEADER, HEADER + n);
    }
  }

  lemma ShortCut(s: seq<Byte>)
    requires |s| < HEADER
    ensures Cut(s) == Parts([], s)
  {
  }

  /** What is left of stored bytes needs no more room. */
  lemma RestFits(s: seq<Byte>, cap: nat)
    requires |s| <= cap && 64 <= cap
    ensures |Cut(s).rest| <= |s| && Reserved(cap, |Cut(s).rest|) == cap
    ensures !HeaderMoves(Cut([]).rest, cap, s)
  {
    ReservedBounds(cap, |Cut(s).rest|);
  }

  class SimpleMsgDispatcher {
    /** What onMessageParse was called with. */
    var delivered: seq<Packet>
    /** How often the case that should not happen was reported. */
    var errors: nat
    /** How often a header was handed on after its array was given up. */
    var moved: nat

    constructor ()
      ensures delivered == [] && errors == 0 && moved == 0
    {
      delivered, errors, moved := [], 0, 0;
    }

    method OnMessageParse(header: seq<Byte>, buf: array<Byte>, start: nat, n: nat)
      requires start + n <= buf.Length
      modifies this`delivered
      ensures delivered == old(delivered) + [Packet(header, buf[start..start + n])]
    {
      delivered := delivered + [Packet(header, buf[start..start + n])];
    }

    /** Packets that lie whole in the new bytes are delivered from there. */
    method DoMessageInNewBuf(vecbuf: CharVector, buf: array<Byte>, start: nat, len: nat)
      requires vecbuf.Valid() && start + len <= buf.Length && buf != vecbuf.base
      modifies this`delivered, vecbuf, vecbuf.base
      ensures vecbuf.Valid() && (vecbuf.base == old(vecbuf.base) || fresh(vecbuf.base))
      ensures delivered == old(delivered) + Cut(old(buf[start..start + len])).packets
      ensures vecbuf.Contents() == old(vecbuf.Contents()) + Cut(old(buf[start..start + len])).rest
      ensures vecbuf.cap == Reserved(old(vecbuf.cap), vecbuf.len)
    {
      hide Cut, Reserved;
      ReservedBounds(vecbuf.cap, vecbuf.len);
      if len == 0 {
        ShortCut(buf[start..start]);
        assert old(vecbuf.Contents()) + [] == old(vecbuf.Contents());
        assert old(delivered) + [] == old(delivered);
        return;
      }
      var at, left := DeliverWhole(buf, start, len);
      if left > 0 { vecbuf.Append(buf, at, left); }
      else { assert old(vecbuf.Contents()) + [] == old(vecbuf.Contents()); }
    }

    /** Its loop: delivers the whole packets, and says where the rest is. */
    method DeliverWhole(buf: array<Byte>, start: nat, len: nat) returns (at: nat, left: nat)
      requires start + len <= buf.Length
      modifies this`delivered
      ensures delivered == old(delivered) + Cut(buf[start..start + len]).packets
      ensures at + left <= buf.Length && buf[at..at + left] == Cut(buf[start..start + len]).rest
    {
      hide Cut, Complete, Network;
      ghost var all := Cut(buf[start..start + len]);
      at, left := start, len;
      while left >= HEADER
        invariant at + left == start + len && start <= at
        invariant delivered + Cut(buf[at..at + left]).packets == old(delivered) + all.packets
        invariant Cut(buf[at..at + left]).rest == all.rest
        decreases left
      {
        PacketAt(buf, at, left);
        var header := buf[at..at + HEADER];
        var dataLen := Network(buf[at], buf[at + 1]);
        if left == dataLen + HEADER {
          OnMessageParse(header, buf, at + HEADER, dataLen);
          at, left := at + HEADER + dataLen, 0;
          ShortCut(buf[at..at + left]);
          assert delivered + [] == delivered;
          return;
        } else if left > dataLen + HEADER {
          ghost var rest := Cut(buf[at + HEADER + dataLen..at + left]);
          Assoc(delivered, [Packet(header, buf[at + HEADER..at + HEADER + dataLen])], rest.packets);
          OnMessageParse(header, buf, at + HEADER, dataLen);
          left := left - (dataLen + HEADER);
          at := at + HEADER + dataLen;
        } else {
          CutStep(buf[at..at + left]);
          assert delivered + [] == delivered;
          return;
        }
      }
      ShortCut(buf[at..at + left]);
      assert delivered + [] == delivered;
    }

    /** Case 2: the stored packet gets the bytes that it needs, is handed on and forgotten. */
    method CompleteStored(vecbuf: CharVector, buf: array<Byte>, start: nat, need: nat)
      requires vecbuf.Valid() && start + need <= buf.Length && buf != vecbuf.base
      requires vecbuf.len >= HEADER && vecbuf.len + need == HEADER + Length(vecbuf.Contents())
      modifies this`delivered, this`moved, vecbuf, vecbuf.base
      ensures vecbuf.Valid() && (vecbuf.base == old(vecbuf.base) || fresh(vecbuf.base))
      ensures var s := old(vecbuf.Contents());
              delivered == old(delivered) + [Packet(s[..HEADER], (s + old(buf[start..start + need]))[HEADER..])]
      ensures vecbuf.Contents() == [] && vecbuf.cap == Reserved(old(vecbuf.cap), old(vecbuf.len) + need)
      ensures moved == old(moved) + if old(vecbuf.len) + need > old(vecbuf.cap) then 1 else 0
    {
      hide Reserved, Network;
      ghost var s, d := vecbuf.Contents(), buf[start..start + need];
      var headerAt := vecbuf.base;
      var dataLen := Network(headerAt[0], headerAt[1]);
      vecbuf.Append(buf, start, need);
      if headerAt != vecbuf.base { moved := moved + 1; }
      assert vecbuf.base[..HEADER + dataLen] == s + d;
      assert vecbuf.base[HEADER..HEADER + dataLen] == (s + d)[HEADER..];
      assert headerAt[..HEADER] == headerAt[..|s|][..HEADER];
      OnMessageParse(headerAt[..HEADER], vecbuf.base, HEADER, dataLen);
      vecbuf.Clear();
    }

    /** The stored bytes hold the header: cases 2 and 3. */
    method Refill(vecbuf: CharVector, buf: array<Byte>, start: nat, len: nat)
      requires vecbuf.Valid() && start + len <= buf.Length && buf != vecbuf.base
      requires vecbuf.len >= HEADER && !Complete(vecbuf.Contents())
      modifies this`delivered, this`moved, vecbuf, vecbuf.base
      ensures vecbuf.Valid() && (vecbuf.base == old(vecbuf.base) || fresh(vecbuf.base))
      ensures delivered == old(delivered) + Cut(old(vecbuf.Contents() + buf[start..start + len])).packets
      ensures vecbuf.Contents() == Cut(old(vecbuf.Contents() + buf[start..start + len])).rest
      ensures Doubled(old(vecbuf.cap)) ==> Doubled(vecbuf.cap)
      ensures moved == old(moved) +
              if old(HeaderMoves(vecbuf.Contents(), vecbuf.cap, buf[start..start + len])) then 1 else 0
    {
      hide Cut, First, Behind, Reserved, Doubled, Network;
      ghost var s, d := vecbuf.Contents(), buf[start..start + len];
      CutStep(s + d);
      var dataLen := Network(vecbuf.base[0], vecbuf.base[1]);
      var need := HEADER + dataLen - vecbuf.len;
      assert need > 0;
      if len >= need {
        StoredPacket(s, d, need);
        SubChunk(buf, start, len, 0, need);
        SubChunk(buf, start, len, need, len);
        KeepsDoubled(vecbuf.cap, vecbuf.len + need);
        CompleteStored(vecbuf, buf, start, need);
        ghost var packet := First(s + d);
        assert delivered == old(delivered) + [packet];
        Assoc(old(delivered), [packet], Cut(d[need..]).packets);
        RestIsShort(d[need..]);
        KeepsDoubled(vecbuf.cap, |Cut(d[need..]).rest|);
        DoMessageInNewBuf(vecbuf, buf, start + need, len - need);
      } else {
        KeepsDoubled(vecbuf.cap, vecbuf.len + len);
        vecbuf.Append(buf, start, len);
        assert old(delivered) + [] == old(delivered);
      }
    }

    /** Not even the header is stored: cases 4, 5 and 6. */
    method FillHeader(vecbuf: CharVector, buf: array<Byte>, start: nat, len: nat)
      requires vecbuf.Valid() && start + len <= buf.Length && buf != vecbuf.base
      requires 0 < vecbuf.len < HEADER
      modifies this`delivered, vecbuf, vecbuf.base
      ensures vecbuf.Valid() && (vecbuf.base == old(vecbuf.base) || fresh(vecbuf.base))
      ensures delivered == old(delivered) + Cut(old(vecbuf.Contents() + buf[start..start + len])).packets
      ensures vecbuf.Contents() == Cut(old(vecbuf.Contents() + buf[start..start + len])).rest
      ensures Doubled(old(vecbuf.cap)) ==> Doubled(vecbuf.cap)
    {
      hide Cut, First, Behind, Reserved, Doubled, Network, Complete;
      ghost var s, d := vecbuf.Contents(), buf[start..start + len];
      CutStep(s + d);
      assert old(delivered) + [] == old(delivered);
      var need := HEADER - vecbuf.len;
      assert need > 0;
      if len < need {
        ShortCut(s + d);
        KeepsDoubled(vecbuf.cap, vecbuf.len + len);
        vecbuf.Append(buf, start, len);
      } else {
        var tmpHeader := vecbuf.base[..vecbuf.len] + buf[start..start + need];
        var left := len - need;
        var dataLen := Network(tmpHeader[0], tmpHeader[1]);
        SubChunk(buf, start, len, 0, need);
        SplitHeader(s, d, tmpHeader);
        if dataLen > left {
          KeepsDoubled(vecbuf.cap, vecbuf.len + len);
          vecbuf.Append(buf, start, len);
        } else {
          SubChunk(buf, start, len, need, need + dataLen);
          SubChunk(buf, start, len, need + dataLen, len);
          OnMessageParse(tmpHeader, buf, start + need, dataLen);
          vecbuf.Clear();
          ghost var packet := First(s + d);
          assert delivered == old(delivered) + [packet];
          Assoc(old(delivered), [packet], Cut(d[need + dataLen..]).packets);
          RestIsShort(d[need + dataLen..]);
          KeepsDoubled(vecbuf.cap, |Cut(d[need + dataLen..]).rest|);
          DoMessageInNewBuf(vecbuf, buf, start + need + dataLen, left - dataLen);
        }
      }
    }

    /** Case 1: what is stored goes to a vector of its own. */
    method TakeOut(vecbuf: CharVector) returns (tmpVec: CharVector)
      requires vecbuf.Valid()
      modifies vecbuf
      ensures vecbuf.Valid() && vecbuf.Contents() == [] && vecbuf.base == old(vecbuf.base)
      ensures vecbuf.cap == old(vecbuf.cap)
      ensures fresh(tmpVec) && tmpVec.Valid() && fresh(tmpVec.base)
      ensures tmpVec.base[0..tmpVec.len] == old(vecbuf.Contents())
    {
      tmpVec := new CharVector(vecbuf.cap);
      vecbuf.CopyTo(tmpVec);
      vecbuf.Clear();
      assert tmpVec.base[0..tmpVec.len] == tmpVec.Contents();
    }

    /** Case 1: what is stored is dispatched again as if it had just come, then the new bytes are. */
    method WholeStored(vecbuf: CharVector, buf: array<Byte>, start: nat, len: nat)
      requires vecbuf.Valid() && start + len <= buf.Length && buf != vecbuf.base && Complete(vecbuf.Contents())
      modifies this, vecbuf, vecbuf.base
      ensures vecbuf.Valid() && (vecbuf.base == old(vecbuf.base) || fresh(vecbuf.base))
      ensures delivered == old(delivered) + Cut(old(vecbuf.Contents() + buf[start..start + len])).packets
      ensures vecbuf.Contents() == Cut(old(vecbuf.Contents() + buf[start..start + len])).rest
      ensures errors == old(errors) + 1
      ensures Doubled(old(vecbuf.cap)) ==> Doubled(vecbuf.cap)
      ensures moved == old(moved) +
              if old(HeaderMoves(Cut(vecbuf.Contents()).rest, vecbuf.cap, buf[start..start + len])) then 1 else 0
      decreases Complete(vecbuf.Contents()), 0
    {
      hide Cut, First, Behind, Reserved, Doubled, Network, HeaderMoves;
      ghost var s, d := vecbuf.Contents(), buf[start..start + len];
      errors := errors + 1;
      var tmpVec := TakeOut(vecbuf);
      assert [] + s == s;
      ShortCut([]);
      CutStep(Cut(s).rest);
      RestFits(s, vecbuf.cap);
      OnMessage(vecbuf, tmpVec.base, 0, tmpVec.len);
      CutMore(s, d);
      Assoc(old(delivered), Cut(s).packets, Cut(Cut(s).rest + d).packets);
      OnMessage(vecbuf, buf, start, len);
    }

    /** One call from the connection: what it delivers and keeps is what the stored bytes and the new
        ones are cut into; the case of a whole stored packet is handled and counted. */
    method OnMessage(vecbuf: CharVector, buf: array<Byte>, start: nat, len: nat)
      requires vecbuf.Valid() && start + len <= buf.Length && buf != vecbuf.base
      modifies this, vecbuf, vecbuf.base
      ensures vecbuf.Valid() && (vecbuf.base == old(vecbuf.base) || fresh(vecbuf.base))
      ensures delivered == old(delivered) + Cut(old(vecbuf.Contents() + buf[start..start + len])).packets
      ensures vecbuf.Contents() == Cut(old(vecbuf.Contents() + buf[start..start + len])).rest
      ensures errors == old(errors) + if old(Complete(vecbuf.Contents())) then 1 else 0
      ensures Doubled(old(vecbuf.cap)) ==> Doubled(vecbuf.cap)
      ensures moved == old(moved) +
              if old(HeaderMoves(Cut(vecbuf.Contents()).rest, vecbuf.cap, buf[start..start + len])) then 1 else 0
      ensures old(vecbuf.len) == 0 ==> vecbuf.cap == Reserved(old(vecbuf.cap), vecbuf.len)
      decreases Complete(vecbuf.Contents()), 1
    {
      hide Cut, First, Behind, Reserved, Doubled, Network;
      ghost var s, d := vecbuf.Contents(), buf[start..start + len];
      CutStep(s);
      if vecbuf.len > 0 {
        if vecbuf.len >= HEADER {
          var dataLen := Network(vecbuf.base[0], vecbuf.base[1]);
          if vecbuf.len >= HEADER + dataLen {
            WholeStored(vecbuf, buf, start, len);
          } else {
            Refill(vecbuf, buf, start, len);
          }
        } else {
          FillHeader(vecbuf, buf, start, len);
        }
      } else {
        assert [] + d == d;
        RestIsShort(d);
        KeepsDoubled(vecbuf.cap, |Cut(d).rest|);
        DoMessageInNewBuf(vecbuf, buf, start, len);
      }
    }
  }

  lemma KeepsDoubled(cap: nat, n: nat)
    requires n <= 131072
    ensures Doubled(cap) ==> Doubled(Reserved(cap, n))
  {
    if Doubled(cap) { DoubledStays(cap, n); }
  }

  function AfterReads(ps: seq<Packet>, rest: seq<Byte>, chunks: seq<seq<Byte>>): Parts {
    After(ps, Deliver(rest, chunks))
  }

  lemma DeliverOne(ps: seq<Packet>, rest: seq<Byte>, chunks: seq<seq<Byte>>, k: nat)
    requires k < |chunks|
    ensures var c := Cut(rest + chunks[k]);
            AfterReads(ps, rest, chunks[k..]) == AfterReads(ps + c.packets, c.rest, chunks[k + 1..])
  {
    hide Cut;
    var c := Cut(rest + chunks[k]);
    assert chunks[k..][1..] == chunks[k + 1..];
    Assoc(ps, c.packets, Deliver(c.rest, chunks[k + 1..]).packets);
  }

  /** A connection's reads, one buffer after the other: the packets of the whole stream are delivered,
      the rest is kept, the impossible case is never reported, and the vector stays small. */
  method ReadAll(dispatcher: SimpleMsgDispatcher, chunks: seq<seq<Byte>>) returns (vecbuf: CharVector)
    modifies dispatcher
    ensures fresh(vecbuf) && vecbuf.Valid() && vecbuf.cap <= 131072
    ensures dispatcher.delivered == old(dispatcher.delivered) + Cut(Flatten(chunks)).packets
    ensures vecbuf.Contents() == Cut(Flatten(chunks)).rest
    ensures dispatcher.errors == old(dispatcher.errors)
  {
    hide Cut, Deliver, HeaderMoves;
    vecbuf := new CharVector.Default();
    ghost var before := dispatcher.delivered;
    assert chunks[0..] == chunks;
    ShortCut([]);
    for k := 0 to |chunks|
      invariant fresh(vecbuf) && vecbuf.Valid() && fresh(vecbuf.base) && Doubled(vecbuf.cap)
      invariant !Complete(vecbuf.Contents())
      invariant AfterReads(dispatcher.delivered, vecbuf.Contents(), chunks[k..]) == AfterReads(before, [], chunks)
      invariant dispatcher.errors == old(dispatcher.errors)
    {
      DeliverOne(dispatcher.delivered, vecbuf.Contents(), chunks, k);
      var buf := new Byte[|chunks[k]|](i requires 0 <= i < |chunks[k]| => chunks[k][i]);
      assert buf[0..buf.Length] == chunks[k];
      assert Cut(vecbuf.Contents() + chunks[k]) == Cut(vecbuf.Contents() + buf[0..buf.Length]);
      dispatcher.OnMessage(vecbuf, buf, 0, buf.Length);
    }
    assert chunks[|chunks|..] == [];
    DeliverNothing(vecbuf.Contents());
    assert dispatcher.delivered + [] == dispatcher.delivered;
    ChunksDoNotMatter([], chunks);
    assert [] + Flatten(chunks) == Flatten(chunks);
  }

  lemma DeliverNothing(rest: seq<Byte>)
    ensures Deliver(rest, []) == Parts([], rest)
  {
  }
}
