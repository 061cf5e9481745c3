/** The connection's sending half and the pool of write requests, as one thread runs them. */
module TcpConnection {
  import opened Common
  import opened CharVectors
  import opened PingPong

  class Request {
    const vecBuf: CharVector
    /** What uv_write is given. */
    var base: array<Byte>
    var len: nat
    /** The payload that is to be sent, and whether its task knows the connection. */
    var id: seq<Byte>
    var hasTask: bool
    var known: bool

    constructor ()
      ensures fresh(vecBuf) && fresh(vecBuf.base) && vecBuf.Valid() && vecBuf.cap >= 8192 && !hasTask
    {
      var v := new CharVector(8192);
      vecBuf, base, len, id, hasTask, known := v, v.base, 0, [], false, false;
      new;
      ReservedBounds(0, 8192);
    }

    /** The bytes that libuv would write. */
    predicate Encoded()
      reads this, vecBuf, base
    {
      hasTask && vecBuf.Valid() && base == vecBuf.base && len == vecBuf.len &&
      base[..len] == Framed(PongPayload(id))
    }
  }

  /** Each of these requests is there once, has a buffer of its own, and room in it. */
  ghost predicate Apart(ms: multiset<Request>)
    reads set r | r in ms :: r.vecBuf
  {
    (forall r :: r in ms ==> ms[r] == 1 && r.vecBuf.Valid() && r.vecBuf.cap >= 8192) &&
    forall r, q :: r in ms && q in ms && r != q ==> r.vecBuf != q.vecBuf && r.vecBuf.base != q.vecBuf.base
  }

  lemma OneMoreApart(ms: multiset<Request>, req: Request)
    requires Apart(ms) && req !in ms && req.vecBuf.Valid() && req.vecBuf.cap >= 8192
    requires forall r :: r in ms ==> r.vecBuf != req.vecBuf && r.vecBuf.base != req.vecBuf.base
    ensures Apart(ms + multiset{req})
  {
  }

  predicate AllEncoded(q: seq<Request>)
    reads q, set r | r in q :: r.vecBuf, set r | r in q :: r.base
  {
    forall r :: r in q ==> r.Encoded()
  }

  lemma PayloadsConcat(a: seq<Request>, b: seq<Request>)
    ensures Payloads(a + b) == Payloads(a) + Payloads(b)
    ensures |b| == 1 ==> Payloads(b) == [b[0].id]
  {
  }

  /** Without the `k`-th. */
  function Cut<T>(s: seq<T>, k: nat): seq<T>
    requires k < |s|
  {
    s[..k] + s[k + 1..]
  }

  lemma CutFront<T>(a: seq<T>, b: seq<T>, k: nat)
    requires k < |a|
    ensures Cut(a + b, k) == Cut(a, k) + b
  {
  }

  lemma PayloadsCut(u: seq<Request>, q: seq<Request>, k: nat)
    requires k < |u|
    ensures Payloads(u[..k] + u[k + 1..] + q) == Cut(Payloads(u + q), k)
  {
  }

  lemma FlyingAreNotPooled(p: seq<Request>, q: seq<Request>, u: seq<Request>)
    requires Apart(Union(p, q, u))
    ensures forall r :: r in u ==> r !in p
  {
    forall r | r in u ensures r !in p {
      assert r in multiset(u);
      assert r in p ==> r in multiset(p);
      assert Union(p, q, u)[r] == 1;
    }
  }

  lemma CutJoins(u: seq<Request>, q: seq<Request>, k: nat)
    requires k <= |q|
    ensures u + q[..k] + q[k..] == u + q
  {
  }

  lemma EncodedPart(q: seq<Request>, part: seq<Request>)
    requires AllEncoded(q) && forall r :: r in part ==> r in q
    ensures AllEncoded(part)
  {
  }

  lemma EncodedOneMore(q: seq<Request>, u: seq<Request>, req: Request)
    requires AllEncoded(q + u) && req.Encoded()
    ensures AllEncoded(q + [req] + u)
  {
  }

  lemma ApartPart(ms: multiset<Request>, part: multiset<Request>)
    requires Apart(ms) && part <= ms
    ensures Apart(part)
  {
    forall r | r in part ensures r in ms && part[r] == 1 {
      assert part[r] <= ms[r];
    }
  }

  /** The payloads of the requests. */
  function Payloads(q: seq<Request>): (ids: seq<seq<Byte>>)
    reads q
    ensures |ids| == |q| && forall i :: 0 <= i < |q| ==> ids[i] == q[i].id
  {
    seq(|q|, i requires 0 <= i < |q| reads q => q[i].id)
  }

  /** A task that is sent, whether it knows the connection, and what libuv answers to the writes. */
  datatype Message = Message(id: seq<Byte>, known: bool, accepts: seq<bool>)

  function SentIds(ms: seq<Message>): seq<seq<Byte>> {
    seq(|ms|, i requires 0 <= i < |ms| => ms[i].id)
  }

  lemma SentIdsSnoc(ms: seq<Message>, i: nat)
    requires i < |ms|
    ensures SentIds(ms[..i + 1]) == SentIds(ms[..i]) + [ms[i].id]
  {
  }

  lemma NoneSent()
    ensures SentIds([]) == []
  {
  }

  /** `q` is what is left of `p` after some were taken from the front. */
  predicate LastPart(p: seq<Request>, q: seq<Request>) {
    |q| <= |p| && p[|p| - |q|..] == q
  }

  lemma LaterPart(p: seq<Request>, q: seq<Request>)
    requires LastPart(p, q)
    ensures forall r :: r in q ==> r in p
    ensures q != [] ==> LastPart(p, q[1..])
  {
  }

  lemma WholePart(p: seq<Request>)
    ensures LastPart(p, p)
  {
  }

  /** Clears the request, encodes into it, and takes pointer and size afterwards. */
  method Fill(req: Request, id: seq<Byte>, known: bool)
    requires req.vecBuf.Valid()
    modifies req, req.vecBuf, req.vecBuf.base
    ensures req.Encoded() && req.id == id && req.known == known
    ensures req.vecBuf.Valid() && req.vecBuf.cap >= old(req.vecBuf.cap)
    ensures req.vecBuf.base == old(req.vecBuf.base) || fresh(req.vecBuf.base)
  {
    req.vecBuf.Clear();
    req.hasTask, req.id, req.known := true, id, known;
    PongEncode(req.vecBuf, id);
    req.base, req.len := req.vecBuf.base, req.vecBuf.len;
    assert req.base[..req.len] == req.vecBuf.Contents();
  }

  /** The same for one of several requests: the others, queued or in flight, keep their bytes. */
  method Encode(req: Request, id: seq<Byte>, known: bool, ghost ms: multiset<Request>, ghost q: seq<Request>)
    requires Apart(ms) && req in ms && AllEncoded(q) && req !in q && forall r :: r in q ==> r in ms
    modifies req, req.vecBuf, req.vecBuf.base
    ensures req.Encoded() && req.id == id && req.known == known
    ensures Apart(ms) && AllEncoded(q) && Payloads(q) == old(Payloads(q))
  {
    hide Framed, PongPayload;
    forall r | r in q ensures r != req && r.vecBuf != req.vecBuf && r.vecBuf.base != req.vecBuf.base &&
        r.base == r.vecBuf.base {
      assert r.Encoded();
    }
    forall r | r in ms && r != req ensures r.vecBuf != req.vecBuf && r.vecBuf.base != req.vecBuf.base {
    }
    Fill(req, id, known);
  }

  const PREPARED := 1000

  class BufferPool {
    var reqQueue: seq<Request>
    var getNumWrite: nat
    var putNumWrite: nat
    var newNumWrite: nat
    var bufQueue: seq<array<Byte>>
    var getNumRead: nat
    var putNumRead: nat
    var newNumRead: nat

    /** The counters account for what is in the pool: write requests count as taken only when they came
        from it, read buffers always. */
    predicate Valid()
      reads this
    {
      |reqQueue| + getNumWrite == PREPARED + putNumWrite &&
      |bufQueue| + getNumRead == PREPARED + putNumRead + newNumRead &&
      forall i :: 0 <= i < |bufQueue| ==> bufQueue[i].Length == 65536
    }

    /** A thousand read buffers and a thousand requests, each with its own buffer. */
    constructor ()
      ensures Valid() && |reqQueue| == PREPARED && |bufQueue| == PREPARED
      ensures Apart(multiset(reqQueue)) && fresh(reqQueue)
    {
      var bufs := ReadBuffers();
      var reqs := Requests();
      bufQueue, reqQueue := bufs, reqs;
      getNumWrite, putNumWrite, newNumWrite := 0, 0, 0;
      getNumRead, putNumRead, newNumRead := 0, 0, 0;
    }

    static method ReadBuffers() returns (bufs: seq<array<Byte>>)
      ensures |bufs| == PREPARED && forall j :: 0 <= j < |bufs| ==> bufs[j].Length == 65536
    {
      bufs := [];
      for i := 0 to PREPARED
        invariant |bufs| == i && forall j :: 0 <= j < i ==> bufs[j].Length == 65536
      {
        var buf := new Byte[65536];
        bufs := bufs + [buf];
      }
    }

    static method Requests() returns (reqs: seq<Request>)
      ensures |reqs| == PREPARED && Apart(multiset(reqs)) && fresh(reqs)
    {
      reqs := [];
      for i := 0 to PREPARED
        invariant |reqs| == i && Apart(multiset(reqs))
        invariant fresh(reqs) && forall r :: r in reqs ==> fresh(r.vecBuf) && fresh(r.vecBuf.base)
      {
        var req := new Request();
        OneMoreApart(multiset(reqs), req);
        assert multiset(reqs + [req]) == multiset(reqs) + multiset{req};
        reqs := reqs + [req];
      }
    }

    method GetReadBuffer() returns (buf: array<Byte>)
      requires Valid()
      modifies this
      ensures Valid() && buf.Length == 65536
      ensures reqQueue == old(reqQueue) && putNumRead == old(putNumRead) && getNumRead == old(getNumRead) + 1
      ensures if old(bufQueue) != [] then buf == old(bufQueue)[0] && bufQueue == old(bufQueue)[1..] &&
              newNumRead == old(newNumRead)
              else fresh(buf) && bufQueue == [] && newNumRead == old(newNumRead) + 1
    {
      getNumRead := getNumRead + 1;
      if bufQueue != [] {
        buf := bufQueue[0];
        bufQueue := bufQueue[1..];
        return;
      }
      buf := new Byte[65536];
      newNumRead := newNumRead + 1;
    }

    method PutReadBuffer(buf: array?<Byte>)
      requires Valid() && (buf != null ==> buf.Length == 65536)
      modifies this
      ensures Valid() && reqQueue == old(reqQueue)
      ensures bufQueue == if buf == null then old(bufQueue) else old(bufQueue) + [buf]
    {
      if buf == null { return; }
      putNumRead := putNumRead + 1;
      bufQueue := bufQueue + [buf];
    }

    /** The request that was put back longest ago, or a new one. */
    method GetWriteBuffer() returns (req: Request)
      requires Valid()
      modifies this
      ensures Valid() && bufQueue == old(bufQueue)
      ensures if old(reqQueue) != [] then req == old(reqQueue)[0] && reqQueue == old(reqQueue)[1..]
              else fresh(req) && fresh(req.vecBuf) && fresh(req.vecBuf.base) && req.vecBuf.Valid() && reqQueue == []
      ensures old(reqQueue) == [] ==> req.vecBuf.cap >= 8192
      ensures if old(reqQueue) != [] then getNumWrite == old(getNumWrite) + 1 && newNumWrite == old(newNumWrite)
              else newNumWrite == old(newNumWrite) + 1 && getNumWrite == old(getNumWrite)
      ensures putNumWrite == old(putNumWrite)
    {
      if |reqQueue| > 0 {
        getNumWrite := getNumWrite + 1;
        req := reqQueue[0];
        reqQueue := reqQueue[1..];
        return;
      }
      newNumWrite := newNumWrite + 1;
      req := new Request();
      assert req.vecBuf.cap >= 8192;
    }

    method PutWriteBuffer(req: Request?)
      requires Valid()
      modifies this, req
      ensures Valid() && bufQueue == old(bufQueue)
      ensures reqQueue == if req == null then old(reqQueue) else old(reqQueue) + [req]
      ensures putNumWrite == old(putNumWrite) + if req == null then 0 else 1
      ensures req != null ==> req.base == old(req.base) && !req.hasTask
    {
      if req == null { return; }
      req.hasTask := false;
      putNumWrite := putNumWrite + 1;
      reqQueue := reqQueue + [req];
    }
  }

  /** How many of `n` writes libuv takes before it refuses one. */
  function Taken(n: nat, accepts: seq<bool>): (k: nat)
    ensures k <= n && (k < n ==> k < |accepts| && !accepts[k])
    ensures forall i :: 0 <= i < k && i < |accepts| ==> accepts[i]
  {
    if n == 0 then 0
    else if accepts == [] then n
    else if !accepts[0] then 0
    else
      var k := Taken(n - 1, accepts[1..]);
      assert forall i :: 0 < i < k + 1 && i < |accepts| ==> accepts[i] == accepts[1..][i - 1];
      k + 1
  }

  lemma TakenIs(n: nat, accepts: seq<bool>, k: nat)
    requires k < n && k < |accepts| && !accepts[k] && forall i :: 0 <= i < k ==> accepts[i]
    ensures Taken(n, accepts) == k
  {
  }

  lemma AllTaken(n: nat, accepts: seq<bool>)
    requires forall i :: 0 <= i < n && i < |accepts| ==> accepts[i]
    ensures Taken(n, accepts) == n
  {
  }

  ghost function Union(p: seq<Request>, q: seq<Request>, u: seq<Request>): multiset<Request> {
    multiset(p) + multiset(q) + multiset(u)
  }

  lemma UnionTaken(p: seq<Request>, q: seq<Request>, u: seq<Request>, k: nat)
    requires k <= |q|
    ensures Union(p, q[k..], u + q[..k]) == Union(p, q, u)
  {
    assert q == q[..k] + q[k..];
  }

  lemma UnionPushed(p: seq<Request>, q: seq<Request>, u: seq<Request>, req: Request)
    ensures Union(p, q + [req], u) == Union(p, q, u) + multiset{req}
  {
  }

  lemma UnionWithFirst(p: seq<Request>, rest: seq<Request>, q: seq<Request>, u: seq<Request>, req: Request)
    requires if p == [] then rest == [] else [req] + rest == p
    ensures Union(p, q, u) <= Union(rest, q + [req], u)
  {
    if p != [] { assert multiset(p) == multiset{req} + multiset(rest); }
  }

  lemma UnionRecycled(p: seq<Request>, q: seq<Request>, u: seq<Request>, req: Request)
    ensures Union(p + [req], q, u) == Union(p, q, u) + multiset{req}
  {
  }

  lemma UnionTakenBack(p: seq<Request>, q: seq<Request>, u: seq<Request>, k: nat)
    requires k < |u|
    ensures Union(p, q, u[..k] + u[k + 1..]) + multiset{u[k]} == Union(p, q, u)
    ensures Union(p, q, u)[u[k]] == 1 ==> u[k] !in q + (u[..k] + u[k + 1..])
    ensures u[k] in Union(p, q, u)
  {
    assert u == u[..k] + [u[k]] + u[k + 1..];
    var rest := u[..k] + u[k + 1..];
    assert multiset(u) == multiset(rest) + multiset{u[k]};
    assert u[k] in q + rest ==> u[k] in multiset(q) || u[k] in multiset(rest);
  }

  lemma QueuedAreOthers(p: seq<Request>, q: seq<Request>, u: seq<Request>)
    requires Apart(Union(p, q, u))
    ensures forall r :: r in q ==> r !in u
  {
    forall r | r in q ensures r !in u {
      assert r in multiset(q);
      assert r in u ==> r in multiset(u);
      assert Union(p, q, u)[r] == 1;
    }
  }

  lemma PooledApart(p: seq<Request>, q: seq<Request>, u: seq<Request>)
    requires Apart(Union(p, q, u)) && p != []
    ensures forall r :: r in p[1..] ==> r != p[0] && r.vecBuf != p[0].vecBuf
  {
    assert p == [p[0]] + p[1..];
    forall r | r in p[1..] ensures r != p[0] {
      assert r in multiset(p[1..]);
      assert Union(p, q, u)[p[0]] == 1;
    }
    assert forall r :: r in p ==> r in Union(p, q, u);
  }

  lemma ApartOnce(ms: multiset<Request>, req: Request)
    requires Apart(ms) && req in ms
    ensures ms[req] == 1
  {
  }

  lemma EncodedOne(req: Request)
    ensures AllEncoded([req]) ==> req.Encoded()
  {
    assert req in [req];
  }

  lemma UnionReleased(p: seq<Request>, q: seq<Request>, u: seq<Request>)
    ensures Union(p + q, [], u) == Union(p, q, u)
  {
  }

  lemma PlacesOfFirst(p: seq<Request>, q: seq<Request>, u: seq<Request>)
    ensures forall r :: r in q + u ==> r in Union(p, q, u)
    ensures p != [] ==> Union(p, q, u) == Union(p[1..], q, u) + multiset{p[0]} && p[0] in Union(p, q, u)
    ensures p != [] && Union(p, q, u)[p[0]] == 1 ==> p[0] !in q + u
  {
    if p != [] {
      assert p == [p[0]] + p[1..];
      assert p[0] in q + u ==> p[0] in multiset(q) || p[0] in multiset(u);
    }
  }

  class TcpConnection {
    const pool: BufferPool
    var sendQue: seq<Request>
    /** What libuv took and did not answer yet. */
    var uv: seq<Request>
    var callbacks: nat
    var bConnected: bool
    var closing: bool
    var sentCount: nat

    constructor (pool: BufferPool)
      requires pool.Valid() && Apart(multiset(pool.reqQueue))
      ensures Valid() && this.pool == pool && sendQue == [] && uv == [] && callbacks == 0
    {
      this.pool := pool;
      sendQue, uv, callbacks, bConnected, closing, sentCount := [], [], 0, false, false, 0;
      new;
      assert Places() == multiset(pool.reqQueue);
    }

    /** No two requests share a buffer, and each that is queued or in flight holds its encoded task. */
    ghost predicate Valid()
      reads this, pool, set r | r in Places(), set r | r in Places() :: r.vecBuf
      reads set r | r in Places() :: r.base
    {
      pool.Valid() && Apart(Places()) && AllEncoded(sendQue + uv)
    }

    /** All requests, wherever they are. */
    ghost function Places(): multiset<Request>
      reads this, pool
    {
      Union(pool.reqQueue, sendQue, uv)
    }

    /** A request from the pool, or a new one, that holds what the encoder wrote, its pointer and size
        taken after the encoding; the requests that are queued or in flight keep their bytes. */
    method EncodeTask(id: seq<Byte>, known: bool) returns (req: Request)
      requires Valid()
      modifies pool
      modifies if pool.reqQueue == [] then {}
               else {pool.reqQueue[0], pool.reqQueue[0].vecBuf, pool.reqQueue[0].vecBuf.base}
      ensures pool.Valid() && req.Encoded() && req.id == id && req.known == known
      ensures if old(pool.reqQueue) == [] then fresh(req) && pool.reqQueue == []
              else [req] + pool.reqQueue == old(pool.reqQueue)
      ensures Apart(Places() + multiset{req}) && AllEncoded(sendQue + uv)
      ensures Payloads(sendQue) == old(Payloads(sendQue)) && Payloads(uv) == old(Payloads(uv))
    {
      hide Apart, AllEncoded, Framed, PongPayload, Union;
      req := Pop();
      PayloadsConcat(sendQue, uv);
      Encode(req, id, known, Places() + multiset{req}, sendQue + uv);
      PayloadsConcat(sendQue, uv);
    }

    method Pop() returns (req: Request)
      requires Valid()
      modifies pool
      ensures pool.Valid()
      ensures if old(pool.reqQueue) == [] then fresh(req) && fresh(req.vecBuf) && fresh(req.vecBuf.base) &&
              pool.reqQueue == []
              else [req] + pool.reqQueue == old(pool.reqQueue)
      ensures Apart(Places() + multiset{req}) && req !in sendQue + uv
      ensures forall r :: r in sendQue + uv ==> r in Places() + multiset{req}
    {
      hide AllEncoded;
      ghost var before := Places();
      PlacesOfFirst(pool.reqQueue, sendQue, uv);
      ghost var none := pool.reqQueue == [];
      req := pool.GetWriteBuffer();
      if none {
        assert Places() == before;
        OneMoreApart(before, req);
      } else {
        assert Places() + multiset{req} == before;
      }
    }

    method PushbackQue(req: Request)
      modifies this`sendQue
      ensures sendQue == old(sendQue) + [req]
    {
      sendQue := sendQue + [req];
    }

    method Close()
      modifies this`bConnected, this`closing
      ensures !bConnected && closing && (old(Valid()) ==> Valid())
    {
      bConnected := false;
      closing := true;
    }

    /** Hands the queue to libuv, in order, up to the first refusal; that one and the rest go back. */
    method RealSend(accepts: seq<bool>, ghost held: multiset<Request>)
      requires Valid() && Apart(Places() + held)
      modifies this
      ensures Valid() && Places() == old(Places()) && Apart(Places() + held)
      ensures var q, k := old(sendQue), Taken(old(|sendQue|), accepts);
              uv == old(uv) + q[..k] && sendQue == q[k..] &&
              closing == (old(closing) || k < |q|) && bConnected == (old(bConnected) && k == |q|)
      ensures callbacks == old(callbacks) && sentCount == old(sentCount)
    {
      hide Taken;
      ghost var q, u := sendQue, uv;
      HandOver(accepts);
      EncodedPart(q + u, sendQue + uv);
    }

    /** The loop of RealSend. */
    method HandOver(accepts: seq<bool>)
      modifies this
      ensures var q, k := old(sendQue), Taken(old(|sendQue|), accepts);
              uv == old(uv) + q[..k] && sendQue == q[k..] &&
              closing == (old(closing) || k < |q|) && bConnected == (old(bConnected) && k == |q|)
      ensures callbacks == old(callbacks) && sentCount == old(sentCount)
      ensures Places() == old(Places())
    {
      hide Union, Taken;
      var tempQue := sendQue;
      sendQue := [];
      var bError := false;
      var i := 0;
      ghost var k := 0;
      while i < |tempQue|
        invariant i <= |tempQue| && k <= i && (!bError ==> k == i)
        invariant forall j :: 0 <= j < k && j < |accepts| ==> accepts[j]
        invariant bError ==> k < i && k < |accepts| && !accepts[k]
        invariant uv == old(uv) + tempQue[..k] && sendQue == tempQue[k..i]
        invariant closing == (old(closing) || bError) && bConnected == (old(bConnected) && !bError)
        invariant callbacks == old(callbacks) && sentCount == old(sentCount)
      {
        var req := tempQue[i];
        if bError {
          PushbackQue(req);
        } else if i < |accepts| && !accepts[i] {
          bError := true;
          PushbackQue(req);
          Close();
        } else {
          uv := uv + [req];
          k := k + 1;
        }
        i := i + 1;
      }
      if bError { TakenIs(|tempQue|, accepts, k); } else { AllTaken(|tempQue|, accepts); }
      UnionTaken(pool.reqQueue, tempQue, old(uv), k);
    }

    /** Encodes and queues; what was queued or in flight before keeps its payload and its bytes. */
    method PushinQue(id: seq<Byte>, known: bool) returns (req: Request)
      requires Valid()
      modifies this`sendQue, pool
      modifies if pool.reqQueue == [] then {}
               else {pool.reqQueue[0], pool.reqQueue[0].vecBuf, pool.reqQueue[0].vecBuf.base}
      ensures Valid() && req.id == id && req.known == known && sendQue == old(sendQue) + [req]
      ensures Payloads(sendQue) == old(Payloads(sendQue)) + [id] && Payloads(uv) == old(Payloads(uv))
      ensures Payloads(uv + sendQue) == old(Payloads(uv + sendQue)) + [id]
      ensures old(Places()) <= Places()
      ensures if old(pool.reqQueue) == [] then fresh(req) && pool.reqQueue == []
              else [req] + pool.reqQueue == old(pool.reqQueue)
    {
      hide AllEncoded, Apart, Payloads, Union, Framed, PongPayload, BufferPool.Valid, Request.Encoded;
      ghost var free := pool.reqQueue;
      PayloadsConcat(uv, sendQue);
      req := EncodeTask(id, known);
      PayloadsConcat(uv, sendQue);
      UnionWithFirst(free, pool.reqQueue, sendQue, uv, req);
      UnionPushed(pool.reqQueue, sendQue, uv, req);
      ApartPart(Places() + multiset{req}, Places());
      PayloadsConcat(sendQue, [req]);
      Requeue(req);
    }

    /** On the loop's thread the queue is sent at once. */
    method SendNow(accepts: seq<bool>)
      requires Valid()
      modifies this
      ensures Valid() && Places() == old(Places())
      ensures var q, k := old(sendQue), Taken(old(|sendQue|), accepts);
              uv == old(uv) + q[..k] && sendQue == q[k..]
      ensures callbacks == old(callbacks) && sentCount == old(sentCount)
      ensures Payloads(uv + sendQue) == old(Payloads(uv + sendQue))
    {
      hide Apart, AllEncoded, Taken, Union, Payloads;
      ghost var u, q := uv, sendQue;
      assert Places() + multiset{} == Places();
      RealSend(accepts, multiset{});
      CutJoins(u, q, Taken(|q|, accepts));
    }

    /** Elsewhere that is left to a callback. */
    method QueueCallback()
      modifies this`callbacks
      ensures callbacks == old(callbacks) + 1 && (old(Valid()) ==> Valid())
    {
      callbacks := callbacks + 1;
    }

    /** Encodes and queues; on the loop's thread it sends at once, elsewhere it leaves that to a callback. */
    method SendMsg(id: seq<Byte>, known: bool, inLoopThread: bool, accepts: seq<bool>) returns (req: Request)
      requires Valid()
      modifies this, pool
      modifies if pool.reqQueue == [] then {}
               else {pool.reqQueue[0], pool.reqQueue[0].vecBuf, pool.reqQueue[0].vecBuf.base}
      ensures Valid() && req.id == id && req.known == known
      ensures if old(pool.reqQueue) == [] then fresh(req) && pool.reqQueue == []
              else [req] + pool.reqQueue == old(pool.reqQueue)
      ensures if inLoopThread
              then var q := old(sendQue) + [req]; var k := Taken(|q|, accepts);
                   uv == old(uv) + q[..k] && sendQue == q[k..] && callbacks == old(callbacks)
              else uv == old(uv) && sendQue == old(sendQue) + [req] && callbacks == old(callbacks) + 1
      ensures Payloads(uv + sendQue) == old(Payloads(uv + sendQue)) + [id] && sentCount == old(sentCount)
      ensures old(Places()) <= Places()
    {
      hide Apart, AllEncoded, Taken, Union, Payloads, Valid;
      req := PushinQue(id, known);
      if inLoopThread { SendNow(accepts); } else { QueueCallback(); }
    }

    /** A request that libuv is done with goes back to the pool. */
    method Recycle(req: Request)
      requires Valid() && Apart(Places() + multiset{req}) && req !in sendQue + uv
      modifies pool, req
      ensures Valid() && Places() == old(Places()) + multiset{req}
      ensures pool.reqQueue == old(pool.reqQueue) + [req]
      ensures Payloads(uv + sendQue) == old(Payloads(uv + sendQue))
    {
      hide Framed, PongPayload, Payloads;
      ghost var all := Places() + multiset{req};
      UnionRecycled(pool.reqQueue, sendQue, uv, req);
      assert req !in uv + sendQue;
      pool.PutWriteBuffer(req);
      assert Places() == all;
    }

    /** A request whose write failed goes behind the queue. */
    method Requeue(req: Request)
      requires Valid() && Apart(Places() + multiset{req}) && req.Encoded()
      modifies this`sendQue
      ensures Valid() && Places() == old(Places()) + multiset{req} && sendQue == old(sendQue) + [req]
      ensures Payloads(uv + sendQue) == old(Payloads(uv + sendQue)) + [req.id]
    {
      hide Union, AllEncoded, Framed, PongPayload, Payloads, Apart;
      EncodedOneMore(sendQue, uv, req);
      UnionPushed(pool.reqQueue, sendQue, uv, req);
      PayloadsConcat(uv + sendQue, [req]);
      Assoc(uv, sendQue, [req]);
      ghost var all := Places() + multiset{req};
      sendQue := sendQue + [req];
      assert Places() == all;
    }

    /** After a success what waits is sent, and the request goes to the pool. */
    method Written(req: Request, accepts: seq<bool>)
      requires Valid() && Apart(Places() + multiset{req}) && req !in sendQue + uv
      modifies this, pool, req
      ensures Valid() && Places() == old(Places()) + multiset{req}
      ensures var q := old(sendQue); var n := Taken(|q|, accepts);
              uv == old(uv) + q[..n] && sendQue == q[n..] &&
              pool.reqQueue == old(pool.reqQueue) + [req] && sentCount == old(sentCount) + 1
      ensures Payloads(uv + sendQue) == old(Payloads(uv + sendQue))
    {
      hide Union, Taken, AllEncoded, Framed, PongPayload, Apart, Payloads;
      ghost var u, q := uv, sendQue;
      sentCount := sentCount + 1;
      RealSend(accepts, multiset{req});
      CutJoins(u, q, Taken(|q|, accepts));
      Recycle(req);
    }

    /** After a failure it is queued again, and the connection closes. */
    method Failed(req: Request)
      requires Valid() && Apart(Places() + multiset{req}) && req.Encoded()
      modifies this`bConnected, this`closing, this`sendQue
      ensures Valid() && Places() == old(Places()) + multiset{req} && sendQue == old(sendQue) + [req] && closing
      ensures Payloads(uv + sendQue) == old(Payloads(uv + sendQue)) + [req.id]
    {
      hide Union, AllEncoded, Framed, PongPayload, Payloads, Apart;
      bConnected := false;
      Requeue(req);
      Close();
    }

    /** Takes a request from libuv. */
    method TakeBack(k: nat) returns (req: Request)
      requires Valid() && k < |uv|
      modifies this`uv
      ensures Valid() && req == old(uv[k]) && uv == old(uv[..k] + uv[k + 1..])
      ensures Places() + multiset{req} == old(Places()) && Apart(Places() + multiset{req}) && req !in sendQue + uv
      ensures req.Encoded()
    {
      hide AllEncoded, Apart, Union;
      req := uv[k];
      ghost var all, q, u := Places(), sendQue, uv[..k] + uv[k + 1..];
      UnionTakenBack(pool.reqQueue, sendQue, uv, k);
      EncodedPart(sendQue + uv, q + u);
      EncodedPart(sendQue + uv, [req]);
      EncodedOne(req);
      ApartPart(all, Union(pool.reqQueue, q, u));
      ApartOnce(all, req);
      uv := uv[..k] + uv[k + 1..];
    }

    /** One message on the loop's thread: what libuv has and the buffers in the pool stay. */
    method SendInLoop(m: Message)
      requires Valid()
      modifies this, pool
      modifies if pool.reqQueue == [] then {}
               else {pool.reqQueue[0], pool.reqQueue[0].vecBuf, pool.reqQueue[0].vecBuf.base}
      ensures Valid() && sentCount == old(sentCount)
      ensures |old(uv)| <= |uv| && uv[..|old(uv)|] == old(uv)
      ensures Payloads(uv + sendQue) == old(Payloads(uv + sendQue)) + [m.id] && old(Places()) <= Places()
      ensures pool.reqQueue == if old(pool.reqQueue) == [] then [] else old(pool.reqQueue[1..])
      ensures forall r :: r in pool.reqQueue ==> r.vecBuf.base == old(r.vecBuf.base)
    {
      hide Apart, AllEncoded, Taken, Union, Payloads;
      if pool.reqQueue != [] { PooledApart(pool.reqQueue, sendQue, uv); }
      var req := SendMsg(m.id, m.known, true, m.accepts);
    }

    /** What the user's send callback does: it may send, on the loop's thread. What libuv has stays in place. */
    method Notify(sends: seq<Message>)
      requires Valid()
      modifies this, pool, pool.reqQueue
      modifies set r | r in pool.reqQueue :: r.vecBuf, set r | r in pool.reqQueue :: r.vecBuf.base
      ensures Valid() && sentCount == old(sentCount)
      ensures |old(uv)| <= |uv| && uv[..|old(uv)|] == old(uv)
      ensures Payloads(uv + sendQue) == old(Payloads(uv + sendQue)) + SentIds(sends) && old(Places()) <= Places()
      ensures sends == [] ==> uv == old(uv) && sendQue == old(sendQue) && pool.reqQueue == old(pool.reqQueue)
    {
      hide Apart, AllEncoded, Taken, Union, Payloads, SentIds, LastPart;
      ghost var free := pool.reqQueue;
      WholePart(free);
      NoneSent();
      for i := 0 to |sends|
        invariant Valid() && sentCount == old(sentCount) && old(Places()) <= Places()
        invariant |old(uv)| <= |uv| && uv[..|old(uv)|] == old(uv)
        invariant Payloads(uv + sendQue) == old(Payloads(uv + sendQue)) + SentIds(sends[..i])
        invariant i == 0 ==> uv == old(uv) && sendQue == old(sendQue) && pool.reqQueue == free
        invariant LastPart(free, pool.reqQueue)
        invariant forall r :: r in pool.reqQueue ==> r in free && r.vecBuf.base == old(r.vecBuf.base)
      {
        SentIdsSnoc(sends, i);
        LaterPart(free, pool.reqQueue);
        SendInLoop(sends[i]);
      }
      assert sends[..|sends|] == sends;
    }

    /** The rest of afterWrite: back to the pool after a success, behind the queue after a failure, and to the
        pool in any case when its task knows no connection. */
    method Complete(k: nat, ok: bool, accepts: seq<bool>)
      requires Valid() && k < |uv|
      modifies this, pool, uv[k]
      ensures Valid() && Places() == old(Places())
      ensures old(uv[k].known) && !ok ==>
              sendQue == old(sendQue) + [old(uv[k])] && closing && uv == old(uv[..k] + uv[k + 1..]) &&
              pool.reqQueue == old(pool.reqQueue) && sentCount == old(sentCount)
      ensures !old(uv[k].known) ==>
              sendQue == old(sendQue) && uv == old(uv[..k] + uv[k + 1..]) &&
              pool.reqQueue == old(pool.reqQueue) + [old(uv[k])] && sentCount == old(sentCount)
      ensures old(uv[k].known) && ok ==>
              var q := old(sendQue); var n := Taken(|q|, accepts);
              uv == old(uv[..k] + uv[k + 1..]) + q[..n] && sendQue == q[n..] &&
              pool.reqQueue == old(pool.reqQueue) + [old(uv[k])] && sentCount == old(sentCount) + 1
      ensures old(uv[k].known) ==>
              Payloads(uv + sendQue) == Cut(old(Payloads(uv + sendQue)), k) + if ok then [] else [old(uv[k].id)]
    {
      hide Union, Taken, AllEncoded, Framed, PongPayload, Apart, Payloads, Cut, Valid;
      PayloadsCut(uv, sendQue, k);
      var req := TakeBack(k);
      if !req.known {
        Recycle(req);
        return;
      }
      if !ok {
        Failed(req);
      } else {
        Written(req, accepts);
      }
    }

    /** libuv's answer for a request: the user's callback, which may send, and then what becomes of it. What was
        sent and not answered is in flight or queued, in order. */
    method AfterWrite(k: nat, ok: bool, sends: seq<Message>, accepts: seq<bool>)
      requires Valid() && k < |uv|
      modifies this, uv[k], pool, pool.reqQueue
      modifies set r | r in pool.reqQueue :: r.vecBuf, set r | r in pool.reqQueue :: r.vecBuf.base
      ensures Valid() && old(Places()) <= Places()
      ensures !old(uv[k].known) ==>
              sendQue == old(sendQue) && uv == old(uv[..k] + uv[k + 1..]) &&
              pool.reqQueue == old(pool.reqQueue) + [old(uv[k])] && sentCount == old(sentCount)
      ensures old(uv[k].known) && !ok ==>
              closing && sentCount == old(sentCount) && sendQue != [] && sendQue[|sendQue| - 1] == old(uv[k])
      ensures old(uv[k].known) && ok ==>
              sentCount == old(sentCount) + 1 && pool.reqQueue != [] &&
              pool.reqQueue[|pool.reqQueue| - 1] == old(uv[k])
      ensures old(uv[k].known) ==>
              Payloads(uv + sendQue) ==
              Cut(old(Payloads(uv + sendQue)), k) + SentIds(sends) + if ok then [] else [old(uv[k].id)]
    {
      hide Apart, AllEncoded, Taken, Union, Payloads, Cut;
      FlyingAreNotPooled(pool.reqQueue, sendQue, uv);
      ghost var req, before := uv[k], Payloads(uv + sendQue);
      assert req in uv && req !in pool.reqQueue;
      assert |before| == |uv| + |sendQue|;
      if uv[k].known {
        Notify(sends);
        assert req.known == old(req.known) && req.id == old(req.id);
        CutFront(before, SentIds(sends), k);
      }
      assert uv[k] == req by { assert uv[..|old(uv)|][k] == uv[k]; }
      Complete(k, ok, accepts);
    }

    /** The destructor: what is still queued goes back to the pool. */
    method Release()
      requires Valid()
      modifies this`sendQue, pool, sendQue
      ensures Valid() && sendQue == [] && pool.reqQueue == old(pool.reqQueue + sendQue)
      ensures Places() == old(Places()) && uv == old(uv) && Payloads(uv) == old(Payloads(uv))
    {
      hide Apart, AllEncoded, Payloads, Union;
      QueuedAreOthers(pool.reqQueue, sendQue, uv);
      EncodedPart(sendQue + uv, uv);
      UnionReleased(pool.reqQueue, sendQue, uv);
      PutAll(Places(), uv);
      sendQue := [];
      assert sendQue + uv == uv;
    }

    /** Puts all queued requests into the pool; the others keep what they hold. */
    method PutAll(ghost ms: multiset<Request>, ghost others: seq<Request>)
      requires pool.Valid() && Apart(ms) && AllEncoded(others) && forall r :: r in sendQue ==> r !in others
      modifies pool, sendQue
      ensures pool.Valid() && pool.reqQueue == old(pool.reqQueue) + sendQue
      ensures Apart(ms) && AllEncoded(others) && Payloads(others) == old(Payloads(others))
    {
      hide Framed, PongPayload;
      for i := 0 to |sendQue|
        invariant pool.Valid() && pool.reqQueue == old(pool.reqQueue) + sendQue[..i]
        invariant Apart(ms) && AllEncoded(others) && Payloads(others) == old(Payloads(others))
      {
        assert sendQue[i] !in others;
        pool.PutWriteBuffer(sendQue[i]);
      }
      assert sendQue[..|sendQue|] == sendQue;
    }
  }
}
