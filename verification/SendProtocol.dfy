/** How write requests travel: from the pool through the send queue to libuv and back, one atomic step at
    a time, with any number of sending threads beside the loop's own. */
module SendProtocol {
  import opened Common

  type Req = nat

  /** What is sent, with the bytes that the encoder makes of it. */
  datatype Task = Task(id: nat, bytes: seq<char>)

  /** What a request holds. */
  datatype Content = Content(task: Task, bytes: seq<char>)

  /** What realSend returns to: nothing, the rest of afterWrite, or afterWrite's last line. */
  datatype Then = Done | Handle(req: Req, ok: bool) | Recycle(req: Req)

  /** Where the loop's thread is. */
  datatype Loop =
    | Idle
    | Sending(next: Then)                                     // realSend, the queue not yet swapped
    | Batch(temp: seq<Req>, bError: bool, next: Then)         // realSend's loop over what it took
    | Completing(req: Req, ok: bool)                          // afterWrite

  /** A request that libuv has, with the bytes it was given. */
  datatype Flight = Flight(req: Req, bytes: seq<char>)

  datatype State = State(
    pool: seq<Req>,
    created: nat,              // requests 0, 1, ... exist
    held: seq<Req>,            // encoded, not yet queued by their threads
    sendQue: seq<Req>,
    announcing: nat,           // threads that queued a request and owe a callback
    callbacks: nat,            // queued calls of realSend
    loop: Loop,
    inFlight: seq<Flight>,
    content: map<Req, Content>,
    alive: bool,
    stale: bool,               // a request was put back since the last swap
    overtaken: bool,           // a put-back request fell behind a later one, or was sent again
    resent: nat,               // requests put back after libuv had taken them
    pushed: seq<Task>,         // in the order they were queued
    accepted: seq<Task>,       // in the order libuv took them
    getNum: nat, putNum: nat, newNum: nat)

  const PREPARED := 1000

  /** The requests that the pool starts with. */
  function Prepared(n: nat): seq<Req> {
    if n == 0 then [] else Prepared(n - 1) + [n - 1]
  }

  predicate Init(s: State) {
    s.pool == Prepared(PREPARED) && s.created == PREPARED && s.held == [] && s.sendQue == [] &&
    s.announcing == 0 && s.callbacks == 0 && s.loop == Idle && s.inFlight == [] && s.alive &&
    !s.stale && !s.overtaken && s.resent == 0 &&
    s.pushed == [] && s.accepted == [] && s.getNum == 0 && s.putNum == 0 && s.newNum == 0
  }

  datatype Step =
    | Encode(task: Task)          // a request from the pool, or a new one, is filled
    | Push(k: nat)                // a thread queues the request it holds
    | Announce                    // and queues the callback
    | PushInLoop(k: nat)          // the loop's own thread queues and sends at once
    | Callback                    // a queued callback starts
    | Swap
    | Accept | Refuse | PutBack   // for the first of the batch
    | EndBatch
    | Complete(k: nat, ok: bool)
    | CompleteUnknown(k: nat)     // the task knows no connection (any more)
    | Handled                     // the rest of afterWrite
    | Destroy

  predicate Enabled(s: State, step: Step) {
    match step
    case Encode(task) => true
    case Push(k) => s.alive && k < |s.held|
    case Announce => s.announcing > 0
    case PushInLoop(k) => s.alive && k < |s.held| && (s.loop == Idle || s.loop.Completing?)
    case Callback => s.callbacks > 0 && s.loop == Idle
    case Swap => s.loop.Sending?
    case Accept => s.loop.Batch? && s.loop.temp != [] && !s.loop.bError && s.loop.temp[0] in s.content
    case Refuse => s.loop.Batch? && s.loop.temp != [] && !s.loop.bError
    case PutBack => s.loop.Batch? && s.loop.temp != [] && s.loop.bError
    case EndBatch => s.loop.Batch? && s.loop.temp == []
    case Complete(k, ok) => s.alive && s.loop == Idle && k < |s.inFlight|
    case CompleteUnknown(k) => s.loop == Idle && k < |s.inFlight|
    case Handled => s.loop.Completing?
    case Destroy => s.alive && s.loop == Idle && s.held == [] && s.announcing == 0 && s.callbacks == 0
  }

  function Without<T>(q: seq<T>, k: nat): seq<T>
    requires k < |q|
  {
    q[..k] + q[k + 1..]
  }

  function TasksOf(c: map<Req, Content>, q: seq<Req>): (ts: seq<Task>)
    ensures |ts| == |q|
  {
    seq(|q|, i requires 0 <= i < |q| => if q[i] in c then c[q[i]].task else Task(0, []))
  }

  function PutIntoPool(s: State, r: Req): State {
    s.(pool := s.pool + [r], putNum := s.putNum + 1)
  }

  /** What the loop's thread does after a batch. */
  function Return(s: State, next: Then): State {
    match next
    case Done => s.(loop := Idle)
    case Handle(r, ok) => s.(loop := Completing(r, ok))
    case Recycle(r) => PutIntoPool(s, r).(loop := Idle)
  }

  function After(s: State, step: Step): State
    requires Enabled(s, step)
  {
    match step
    case Encode(task) =>
      if s.pool != [] then
        var r := s.pool[0];
        s.(pool := s.pool[1..], getNum := s.getNum + 1, held := s.held + [r],
           content := s.content[r := Content(task, task.bytes)])
      else
        var r := s.created;
        s.(created := s.created + 1, newNum := s.newNum + 1, held := s.held + [r],
           content := s.content[r := Content(task, task.bytes)])
    case Push(k) =>
      s.(held := Without(s.held, k), sendQue := s.sendQue + [s.held[k]], announcing := s.announcing + 1,
         pushed := s.pushed + TasksOf(s.content, [s.held[k]]),
         overtaken := s.overtaken || (s.loop.Batch? && s.loop.bError && s.loop.temp != []))
    case Announce => s.(announcing := s.announcing - 1, callbacks := s.callbacks + 1)
    case PushInLoop(k) =>
      s.(held := Without(s.held, k), sendQue := s.sendQue + [s.held[k]],
         pushed := s.pushed + TasksOf(s.content, [s.held[k]]),
         loop := Sending(if s.loop.Completing? then Handle(s.loop.req, s.loop.ok) else Done))
    case Callback => s.(callbacks := s.callbacks - 1, loop := Sending(Done))
    case Swap => s.(sendQue := [], stale := false, loop := Batch(s.sendQue, false, s.loop.next))
    case Accept =>
      var r := s.loop.temp[0];
      s.(inFlight := s.inFlight + [Flight(r, s.content[r].bytes)], accepted := s.accepted + TasksOf(s.content, [r]),
         loop := s.loop.(temp := s.loop.temp[1..]))
    case Refuse =>
      s.(sendQue := s.sendQue + [s.loop.temp[0]], stale := true, overtaken := s.overtaken || s.sendQue != [],
         loop := s.loop.(temp := s.loop.temp[1..], bError := true))
    case PutBack =>
      s.(sendQue := s.sendQue + [s.loop.temp[0]], stale := true, loop := s.loop.(temp := s.loop.temp[1..]))
    case EndBatch => Return(s, s.loop.next)
    case Complete(k, ok) =>
      s.(inFlight := Without(s.inFlight, k), loop := Completing(s.inFlight[k].req, ok))
    case CompleteUnknown(k) => PutIntoPool(s.(inFlight := Without(s.inFlight, k)), s.inFlight[k].req)
    case Handled =>
      if s.loop.ok then s.(loop := Sending(Recycle(s.loop.req)))
      else s.(sendQue := s.sendQue + [s.loop.req], stale := true, overtaken := true, resent := s.resent + 1,
        loop := Idle)
    case Destroy =>
      s.(pool := s.pool + s.sendQue, putNum := s.putNum + |s.sendQue|, sendQue := [], alive := false)
  }

  // ---- conservation ---------------------------------------------------------------------------

  function Reqs(fs: seq<Flight>): (q: seq<Req>)
    ensures |q| == |fs| && forall i :: 0 <= i < |fs| ==> q[i] == fs[i].req
  {
    seq(|fs|, i requires 0 <= i < |fs| => fs[i].req)
  }

  /** How often `r` occurs. */
  function Occ(q: seq<Req>, r: Req): nat {
    multiset(q)[r]
  }

  function One(a: Req, r: Req): nat {
    if a == r then 1 else 0
  }

  function Kept(next: Then, r: Req): nat {
    if next.Done? then 0 else One(next.req, r)
  }

  /** How often the loop's thread has the request in its hands. */
  function InLoop(l: Loop, r: Req): nat {
    match l
    case Idle => 0
    case Sending(next) => Kept(next, r)
    case Batch(temp, _, next) => Occ(temp, r) + Kept(next, r)
    case Completing(a, _) => One(a, r)
  }

  /** How often the request is outside the pool: held, queued, in the loop's hands, or with libuv. */
  function Busy(s: State, r: Req): nat {
    Occ(s.held, r) + Occ(s.sendQue, r) + InLoop(s.loop, r) + Occ(Reqs(s.inFlight), r)
  }

  /** Every request is in exactly one place. */
  ghost predicate Conserved(s: State) {
    forall r: Req :: Occ(s.pool, r) + Busy(s, r) == if r < s.created then 1 else 0
  }

  lemma OccConcat(a: seq<Req>, b: seq<Req>, r: Req)
    ensures Occ(a + b, r) == Occ(a, r) + Occ(b, r)
  {
  }

  lemma OccSnoc(a: seq<Req>, x: Req, r: Req)
    ensures Occ(a + [x], r) == Occ(a, r) + One(x, r)
  {
  }

  lemma OccNone(r: Req)
    ensures Occ([], r) == 0
  {
  }

  lemma OccFirst(q: seq<Req>, r: Req)
    requires q != []
    ensures Occ(q, r) == One(q[0], r) + Occ(q[1..], r)
  {
    assert q == [q[0]] + q[1..];
  }

  lemma OccWithout(q: seq<Req>, k: nat, r: Req)
    requires k < |q|
    ensures Occ(q, r) == Occ(Without(q, k), r) + One(q[k], r)
  {
    assert q == q[..k] + [q[k]] + q[k + 1..];
  }

  lemma FlightOut(fs: seq<Flight>, k: nat, r: Req)
    requires k < |fs|
    ensures Occ(Reqs(fs), r) == Occ(Reqs(Without(fs, k)), r) + One(fs[k].req, r)
  {
    OccWithout(Reqs(fs), k, r);
    assert Reqs(Without(fs, k)) == Without(Reqs(fs), k);
  }

  lemma FlightIn(fs: seq<Flight>, f: Flight, r: Req)
    ensures Occ(Reqs(fs + [f]), r) == Occ(Reqs(fs), r) + One(f.req, r)
  {
    assert Reqs(fs + [f]) == Reqs(fs) + [f.req];
    OccSnoc(Reqs(fs), f.req, r);
  }

  lemma BatchConserves(s: State, step: Step, r: Req)
    requires Enabled(s, step) && (step.Accept? || step.Refuse? || step.PutBack? || step.EndBatch?)
    ensures var t := After(s, step); Occ(t.pool, r) + Busy(t, r) == Occ(s.pool, r) + Busy(s, r)
  {
    hide Occ, Reqs, TasksOf, Without, One;
    OccNone(r);
    match step
    case Accept =>
      var a := s.loop.temp[0];
      OccFirst(s.loop.temp, r);
      FlightIn(s.inFlight, Flight(a, s.content[a].bytes), r);
    case EndBatch => if s.loop.next.Recycle? { OccSnoc(s.pool, s.loop.next.req, r); }
    case Refuse => OccFirst(s.loop.temp, r); OccSnoc(s.sendQue, s.loop.temp[0], r);
    case PutBack => OccFirst(s.loop.temp, r); OccSnoc(s.sendQue, s.loop.temp[0], r);
    case _ =>
  }

  /** No step loses or doubles a request; only encoding may create one. */
  lemma StepConserves(s: State, step: Step, r: Req)
    requires Enabled(s, step)
    ensures var t := After(s, step);
            Occ(t.pool, r) + Busy(t, r) ==
            Occ(s.pool, r) + Busy(s, r) + if step.Encode? && s.pool == [] then One(s.created, r) else 0
  {
    hide Occ, Reqs, TasksOf, Without, One;
    OccNone(r);
    match step
    case Encode(task) =>
      if s.pool != [] { OccFirst(s.pool, r); OccSnoc(s.held, s.pool[0], r); } else { OccSnoc(s.held, s.created, r); }
    case Push(k) => OccWithout(s.held, k, r); OccSnoc(s.sendQue, s.held[k], r);
    case PushInLoop(k) => OccWithout(s.held, k, r); OccSnoc(s.sendQue, s.held[k], r);
    case Accept => BatchConserves(s, step, r);
    case Refuse => BatchConserves(s, step, r);
    case PutBack => BatchConserves(s, step, r);
    case EndBatch => BatchConserves(s, step, r);
    case Complete(k, ok) => FlightOut(s.inFlight, k, r);
    case CompleteUnknown(k) => FlightOut(s.inFlight, k, r); OccSnoc(s.pool, s.inFlight[k].req, r);
    case Handled => OccSnoc(s.sendQue, s.loop.req, r);
    case Destroy => OccConcat(s.pool, s.sendQue, r);
    case _ =>
  }

  lemma StepKeepsConserved(s: State, step: Step)
    requires Conserved(s) && Enabled(s, step)
    ensures Conserved(After(s, step))
  {
    hide Busy, Occ;
    forall r: Req
      ensures Occ(After(s, step).pool, r) + Busy(After(s, step), r) == if r < After(s, step).created then 1 else 0
    {
      StepConserves(s, step, r);
      CreatedByEncode(s, step);
    }
  }

  lemma CreatedByEncode(s: State, step: Step)
    requires Enabled(s, step)
    ensures After(s, step).created == s.created + if step.Encode? && s.pool == [] then 1 else 0
  {
    hide TasksOf, Without, Reqs, Prepared;
    match step
    case Encode(_) =>
    case Push(_) =>
    case Announce =>
    case PushInLoop(_) =>
    case Callback =>
    case Swap =>
    case Accept =>
    case Refuse =>
    case PutBack =>
    case EndBatch =>
    case Complete(_, _) =>
    case CompleteUnknown(_) =>
    case Handled =>
    case Destroy =>
  }

  // ---- contents, order, and what is owed ------------------------------------------------------

  /** Every request outside the pool holds what the encoder made of its task. */
  ghost predicate Filled(s: State) {
    forall r: Req :: Busy(s, r) > 0 ==> r in s.content && s.content[r].bytes == s.content[r].task.bytes
  }

  /** What libuv was given is still what the request holds. */
  predicate Flying(s: State) {
    forall i :: 0 <= i < |s.inFlight| ==>
      var f := s.inFlight[i]; f.req in s.content && s.content[f.req].bytes == f.bytes
  }

  /** The request that Encode fills. */
  function Next(s: State): Req {
    if s.pool != [] then s.pool[0] else s.created
  }

  /** That request is in nobody's hands. */
  predicate Unused(s: State) {
    Busy(s, Next(s)) == 0
  }

  lemma NextIsFree(s: State)
    requires Conserved(s)
    ensures Unused(s)
  {
    var r := Next(s);
    assert Occ(s.pool, r) + Busy(s, r) == if r < s.created then 1 else 0;
    if s.pool != [] { OccFirst(s.pool, r); }
  }

  /** Only encoding takes a request out of the pool. */
  lemma BusyFromEncode(s: State, step: Step, r: Req)
    requires Enabled(s, step)
    ensures Busy(After(s, step), r) <= Busy(s, r) + if step.Encode? then One(Next(s), r) else 0
  {
    StepConserves(s, step, r);
    PoolChange(s, step, r);
  }

  lemma PoolChange(s: State, step: Step, r: Req)
    requires Enabled(s, step)
    ensures Occ(After(s, step).pool, r) +
            (if step.Encode? && s.pool != [] then One(s.pool[0], r) else 0) >= Occ(s.pool, r)
  {
    hide Occ, Reqs, TasksOf, Without, One;
    match step
    case Encode(task) => if s.pool != [] { OccFirst(s.pool, r); }
    case EndBatch => if s.loop.next.Recycle? { OccSnoc(s.pool, s.loop.next.req, r); }
    case CompleteUnknown(k) => OccSnoc(s.pool, s.inFlight[k].req, r);
    case Destroy => OccConcat(s.pool, s.sendQue, r);
    case _ =>
  }

  lemma ContentAfter(s: State, step: Step)
    requires Enabled(s, step)
    ensures After(s, step).content ==
            if step.Encode? then s.content[Next(s) := Content(step.task, step.task.bytes)] else s.content
  {
    hide TasksOf, Without, Reqs, Prepared;
    match step
    case Encode(_) =>
    case Push(_) =>
    case Announce =>
    case PushInLoop(_) =>
    case Callback =>
    case Swap =>
    case Accept =>
    case Refuse =>
    case PutBack =>
    case EndBatch =>
    case Complete(_, _) =>
    case CompleteUnknown(_) =>
    case Handled =>
    case Destroy =>
  }

  lemma StepKeepsFilled(s: State, step: Step)
    requires Filled(s) && Enabled(s, step)
    ensures Filled(After(s, step))
  {
    hide Busy, After, Enabled;
    var t := After(s, step);
    ContentAfter(s, step);
    forall r: Req | Busy(t, r) > 0 ensures r in t.content && t.content[r].bytes == t.content[r].task.bytes {
      BusyFromEncode(s, step, r);
    }
  }

  lemma FlightIsBusy(s: State, i: nat)
    requires i < |s.inFlight|
    ensures Busy(s, s.inFlight[i].req) > 0
  {
    assert Reqs(s.inFlight)[i] in multiset(Reqs(s.inFlight));
  }

  /** The bytes of a request in flight do not change. */
  lemma StepKeepsFlying(s: State, step: Step)
    requires Unused(s) && Flying(s) && Enabled(s, step)
    ensures Flying(After(s, step))
  {
    hide Busy, TasksOf;
    if step.Encode? {
      forall i | 0 <= i < |s.inFlight| ensures s.inFlight[i].req != Next(s) { FlightIsBusy(s, i); }
    }
  }

  /** The rest of the batch. */
  function Temp(l: Loop): seq<Req> {
    if l.Batch? then l.temp else []
  }

  /** The requests that wait, in the order in which they would be sent if nothing came between. */
  function Waiting(s: State): seq<Req> {
    if s.loop.Batch? && s.loop.bError then s.sendQue + s.loop.temp else Temp(s.loop) + s.sendQue
  }

  /** What was accepted and what waits, in order. */
  function Line(s: State): seq<Task> {
    s.accepted + TasksOf(s.content, Waiting(s))
  }

  predicate Ordered(s: State) {
    s.alive && !s.overtaken ==> s.pushed == Line(s)
  }

  lemma TasksSplit(c: map<Req, Content>, a: seq<Req>, b: seq<Req>)
    ensures TasksOf(c, a + b) == TasksOf(c, a) + TasksOf(c, b)
  {
  }

  lemma TasksKept(s: State, task: Task, q: seq<Req>)
    requires Next(s) !in q
    ensures TasksOf(s.content[Next(s) := Content(task, task.bytes)], q) == TasksOf(s.content, q)
  {
  }

  lemma WaitingIsBusy(s: State, r: Req)
    ensures r in Waiting(s) ==> Busy(s, r) > 0
  {
    assert r in s.sendQue ==> r in multiset(s.sendQue);
    assert r in Temp(s.loop) ==> r in multiset(Temp(s.loop));
  }

  lemma NoTasks(c: map<Req, Content>)
    ensures TasksOf(c, []) == []
  {
  }

  /** The steps that queue a request. */
  predicate Pushes(step: Step) {
    step.Push? || step.PushInLoop?
  }

  /** The task that such a step queues. */
  function Pushed(s: State, step: Step): Task
    requires Enabled(s, step) && Pushes(step)
  {
    TasksOf(s.content, [s.held[step.k]])[0]
  }

  /** The steps that may change the order: a request is put back behind others, or pushed before others
      that are still to be put back, or sent again. */
  predicate Disturbs(s: State, step: Step)
    requires Enabled(s, step)
  {
    (step.Push? && s.loop.Batch? && s.loop.bError && s.loop.temp != []) ||
    (step.Refuse? && s.sendQue != []) ||
    (step.Handled? && !s.loop.ok)
  }

  lemma LineAfterEncode(s: State, task: Task)
    requires Unused(s)
    ensures Line(After(s, Encode(task))) == Line(s)
  {
    hide Busy, TasksOf;
    WaitingIsBusy(s, Next(s));
    TasksKept(s, task, Waiting(s));
  }

  lemma LineAfterPush(s: State, step: Step)
    requires Enabled(s, step) && Pushes(step) && !Disturbs(s, step)
    ensures Line(After(s, step)) == Line(s) + [Pushed(s, step)]
    ensures After(s, step).pushed == s.pushed + [Pushed(s, step)]
  {
    hide TasksOf, Without, Line, Waiting;
    WaitingGrows(s, After(s, step), s.held[step.k]);
  }

  lemma LineAfterAccept(s: State)
    requires Enabled(s, Accept)
    ensures Line(After(s, Accept)) == Line(s)
  {
    hide TasksOf;
    var c, q, t := s.content, s.loop.temp, After(s, Accept);
    assert Waiting(s) == [q[0]] + Waiting(t);
    TasksSplit(c, [q[0]], Waiting(t));
    Assoc(s.accepted, TasksOf(c, [q[0]]), TasksOf(c, Waiting(t)));
  }

  lemma FirstAgain(q: seq<Req>, temp: seq<Req>)
    requires temp != []
    ensures q + [temp[0]] + temp[1..] == q + temp
  {
  }

  lemma EmptyAround(q: seq<Req>)
    ensures q + [] == q && [] + q == q
  {
  }

  lemma WaitingAfterSwap(s: State)
    requires Enabled(s, Swap)
    ensures Waiting(After(s, Swap)) == Waiting(s)
  {
    EmptyAround(s.sendQue);
  }

  lemma WaitingAfterEnd(s: State)
    requires Enabled(s, EndBatch)
    ensures Waiting(After(s, EndBatch)) == Waiting(s)
  {
    EmptyAround(s.sendQue);
  }

  lemma WaitingAfterRefusal(s: State)
    requires Enabled(s, Refuse) && s.sendQue == []
    ensures Waiting(After(s, Refuse)) == Waiting(s)
  {
    FirstAgain([], s.loop.temp);
    EmptyAround(s.loop.temp);
  }

  lemma WaitingAfterPutBack(s: State)
    requires Enabled(s, PutBack)
    ensures Waiting(After(s, PutBack)) == Waiting(s)
  {
    FirstAgain(s.sendQue, s.loop.temp);
  }

  /** What waits stays in its order. */
  lemma WaitingAfter(s: State, step: Step)
    requires Enabled(s, step) && !Disturbs(s, step) && !Pushes(step)
    requires !step.Encode? && !step.Accept? && !step.Destroy?
    ensures var t := After(s, step); Waiting(t) == Waiting(s) && t.content == s.content && t.accepted == s.accepted
  {
    hide TasksOf, Without, Reqs, Prepared;
    if step.Swap? { WaitingAfterSwap(s); }
    else if step.EndBatch? { WaitingAfterEnd(s); }
    else if step.Refuse? { WaitingAfterRefusal(s); }
    else if step.PutBack? { WaitingAfterPutBack(s); }
  }

  /** All other steps leave the line alone, but for what is pushed behind it. */
  lemma LineAfter(s: State, step: Step)
    requires Unused(s) && Enabled(s, step) && !Disturbs(s, step) && !step.Destroy?
    ensures Line(After(s, step)) == if Pushes(step) then Line(s) + [Pushed(s, step)] else Line(s)
    ensures After(s, step).pushed == if Pushes(step) then s.pushed + [Pushed(s, step)] else s.pushed
  {
    PushedAfter(s, step);
    if Pushes(step) { LineAfterPush(s, step); }
    else if step.Encode? { LineAfterEncode(s, step.task); }
    else if step.Accept? { LineAfterAccept(s); }
    else { WaitingAfter(s, step); }
    hide Unused, Enabled, After, TasksOf, Waiting, Disturbs;
  }

  lemma PushedAfter(s: State, step: Step)
    requires Enabled(s, step)
    ensures !Pushes(step) ==> After(s, step).pushed == s.pushed
    ensures After(s, step).overtaken == (s.overtaken || Disturbs(s, step))
    ensures After(s, step).alive == (s.alive && !step.Destroy?)
    ensures After(s, step).resent == s.resent + if step.Handled? && !s.loop.ok then 1 else 0
  {
    hide TasksOf, Without, Reqs, Prepared;
    match step
    case Encode(_) =>
    case Push(_) =>
    case Announce =>
    case PushInLoop(_) =>
    case Callback =>
    case Swap =>
    case Accept =>
    case Refuse =>
    case PutBack =>
    case EndBatch =>
    case Complete(_, _) =>
    case CompleteUnknown(_) =>
    case Handled =>
    case Destroy =>
  }

  lemma WaitingGrows(s: State, t: State, r: Req)
    requires t.content == s.content && t.accepted == s.accepted && t.sendQue == s.sendQue + [r]
    requires Temp(t.loop) == Temp(s.loop) && (t.loop.Batch? <==> s.loop.Batch?)
    requires s.loop.Batch? ==> t.loop == s.loop && (s.loop.bError ==> s.loop.temp == [])
    ensures Line(t) == Line(s) + [TasksOf(s.content, [r])[0]]
    ensures TasksOf(s.content, [r]) == [TasksOf(s.content, [r])[0]]
  {
    assert Waiting(t) == Waiting(s) + [r];
    TasksSplit(s.content, Waiting(s), [r]);
    Assoc(s.accepted, TasksOf(s.content, Waiting(s)), TasksOf(s.content, [r]));
  }

  /** Until a step disturbs the order, nothing overtakes anything. */
  lemma StepKeepsOrder(s: State, step: Step)
    requires Unused(s) && Ordered(s) && Enabled(s, step)
    ensures Ordered(After(s, step))
  {
    PushedAfter(s, step);
    if !Disturbs(s, step) && !step.Destroy? { LineAfter(s, step); }
    hide Unused, Enabled, After, Line, Disturbs, TasksOf;
  }

  /** Some call of realSend is still to come. */
  predicate Owing(s: State) {
    s.announcing > 0 || s.callbacks > 0 || s.loop.Sending?
  }

  /** What is queued is sent by a call that is still to come, unless it was put back since the last swap;
      and what was put back is still there. */
  predicate Owed(s: State) {
    s.alive ==> (s.sendQue != [] && !s.stale ==> Owing(s)) && (s.stale ==> s.sendQue != [])
  }

  predicate Counted(s: State) {
    |s.pool| + s.getNum == PREPARED + s.putNum && s.created == PREPARED + s.newNum
  }

  lemma StepKeepsOwed(s: State, step: Step)
    requires Owed(s) && Enabled(s, step)
    ensures Owed(After(s, step))
  {
    hide TasksOf, Without, Reqs, Prepared;
    match step
    case Encode(_) =>
    case Push(_) =>
    case Announce =>
    case PushInLoop(_) =>
    case Callback =>
    case Swap =>
    case Accept =>
    case Refuse =>
    case PutBack =>
    case EndBatch =>
    case Complete(_, _) =>
    case CompleteUnknown(_) =>
    case Handled =>
    case Destroy =>
  }

  lemma StepKeepsCounted(s: State, step: Step)
    requires Counted(s) && Enabled(s, step)
    ensures Counted(After(s, step))
  {
    hide TasksOf, Without, Reqs, Prepared;
    match step
    case Encode(_) =>
    case Push(_) =>
    case Announce =>
    case PushInLoop(_) =>
    case Callback =>
    case Swap =>
    case Accept =>
    case Refuse =>
    case PutBack =>
    case EndBatch =>
    case Complete(_, _) =>
    case CompleteUnknown(_) =>
    case Handled =>
    case Destroy =>
  }

  // ---- the order exactly ----------------------------------------------------------------------

  predicate Distinct(ts: seq<Task>) {
    forall i, j :: 0 <= i < j < |ts| ==> ts[i] != ts[j]
  }

  /** Nothing waits that was not pushed, and what was sent again makes the line too long. */
  predicate Traced(s: State) {
    s.alive ==>
      |Line(s)| == |s.pushed| + s.resent &&
      (s.resent == 0 ==> AllIn(Line(s), s.pushed))
  }

  predicate EndsWith(ts: seq<Task>, q: seq<Task>) {
    |q| <= |ts| && ts[|ts| - |q|..] == q
  }

  /** What is queued during a batch that was not refused was pushed last. */
  predicate Recent(s: State) {
    s.loop.Batch? && !s.loop.bError ==> EndsWith(s.pushed, TasksOf(s.content, s.sendQue))
  }

  lemma StepKeepsRecent(s: State, step: Step)
    requires Unused(s) && Recent(s) && Enabled(s, step)
    ensures Recent(After(s, step))
  {
    hide Busy, TasksOf, Without, Reqs;
    NoTasks(s.content);
    match step
    case Encode(task) =>
      WaitingIsBusy(s, Next(s));
      if s.loop.Batch? && !s.loop.bError { TasksKept(s, task, s.sendQue); }
    case Push(k) => TasksSplit(s.content, s.sendQue, [s.held[k]]);
    case _ =>
  }

  /** The line around a push while requests are still to be put back. */
  lemma LineSplit(s: State, k: nat)
    requires Enabled(s, Push(k)) && Disturbs(s, Push(k))
    ensures var c, b := s.content, Pushed(s, Push(k));
            var front, back := s.accepted + TasksOf(c, s.sendQue), TasksOf(c, s.loop.temp);
            Line(s) == front + back && Line(After(s, Push(k))) == front + [b] + back &&
            After(s, Push(k)).pushed == s.pushed + [b] && back != []
  {
    hide TasksOf, Without;
    var c, r := s.content, s.held[k];
    TasksSplit(c, s.sendQue, s.loop.temp);
    TasksSplit(c, s.sendQue, [r]);
    TasksSplit(c, s.sendQue + [r], s.loop.temp);
    Assoc(s.accepted, TasksOf(c, s.sendQue), TasksOf(c, s.loop.temp));
    Assoc(s.accepted, TasksOf(c, s.sendQue), TasksOf(c, [r]));
    Assoc(s.accepted, TasksOf(c, s.sendQue) + TasksOf(c, [r]), TasksOf(c, s.loop.temp));
  }

  /** The line around a refusal behind requests that were queued meanwhile. */
  lemma LineTurned(s: State)
    requires Enabled(s, Refuse) && s.sendQue != []
    ensures var batch, queue := TasksOf(s.content, s.loop.temp), TasksOf(s.content, s.sendQue);
            Line(s) == s.accepted + batch + queue && Line(After(s, Refuse)) == s.accepted + queue + batch &&
            After(s, Refuse).pushed == s.pushed && batch != [] && queue != []
  {
    hide TasksOf;
    var c, q := s.content, s.loop.temp;
    TasksSplit(c, q, s.sendQue);
    TasksSplit(c, s.sendQue, q);
    assert s.sendQue + [q[0]] + q[1..] == s.sendQue + q;
    Assoc(s.accepted, TasksOf(c, q), TasksOf(c, s.sendQue));
    Assoc(s.accepted, TasksOf(c, s.sendQue), TasksOf(c, q));
  }

  /** A request that is sent again makes the line longer. */
  lemma LineLonger(s: State)
    requires Enabled(s, Handled) && !s.loop.ok
    ensures |Line(After(s, Handled))| == |Line(s)| + 1 && After(s, Handled).pushed == s.pushed
  {
    hide TasksOf;
  }

  predicate AllIn(ts: seq<Task>, pushed: seq<Task>) {
    forall k :: 0 <= k < |ts| ==> ts[k] in pushed
  }

  lemma AllInConcat(a: seq<Task>, b: seq<Task>, pushed: seq<Task>)
    ensures AllIn(a + b, pushed) <==> AllIn(a, pushed) && AllIn(b, pushed)
  {
    if AllIn(a + b, pushed) {
      assert forall k :: 0 <= k < |a| ==> (a + b)[k] == a[k];
      assert forall k :: 0 <= k < |b| ==> (a + b)[|a| + k] == b[k];
    }
  }

  lemma AllInMore(ts: seq<Task>, pushed: seq<Task>, t: Task)
    requires AllIn(ts, pushed)
    ensures AllIn(ts, pushed + [t]) && AllIn([t], pushed + [t])
  {
  }

  lemma StepKeepsTraced(s: State, step: Step)
    requires Unused(s) && Traced(s) && Enabled(s, step)
    ensures Traced(After(s, step))
  {
    hide Unused, After, Line, TasksOf, Pushed, AllIn;
    PushedAfter(s, step);
    if step.Destroy? || !s.alive {
    } else if !Disturbs(s, step) {
      LineAfter(s, step);
      if Pushes(step) && s.resent == 0 {
        AllInMore(Line(s), s.pushed, Pushed(s, step));
        AllInConcat(Line(s), [Pushed(s, step)], s.pushed + [Pushed(s, step)]);
      }
    } else {
      DisturbedIsTraced(s, step);
    }
  }

  lemma DisturbedIsTraced(s: State, step: Step)
    requires Unused(s) && Traced(s) && Enabled(s, step) && Disturbs(s, step) && s.alive
    ensures Traced(After(s, step))
  {
    hide Unused, Line, TasksOf, Pushed, AllIn, Without;
    PushedAfter(s, step);
    if step.Push? {
      LineSplit(s, step.k);
      var front, back, t := s.accepted + TasksOf(s.content, s.sendQue), TasksOf(s.content, s.loop.temp),
        Pushed(s, step);
      if s.resent == 0 {
        AllInMore(Line(s), s.pushed, t);
        AllInConcat(front, back, s.pushed + [t]);
        AllInConcat(front, [t], s.pushed + [t]);
        AllInConcat(front + [t], back, s.pushed + [t]);
      }
    } else if step.Refuse? {
      LineTurned(s);
      var batch, queue := TasksOf(s.content, s.loop.temp), TasksOf(s.content, s.sendQue);
      AllInConcat(s.accepted + batch, queue, s.pushed);
      AllInConcat(s.accepted, batch, s.pushed);
      AllInConcat(s.accepted + queue, batch, s.pushed);
      AllInConcat(s.accepted, queue, s.pushed);
    } else { LineLonger(s); }
  }

  lemma InsertedIsNotLast(front: seq<Task>, b: Task, back: seq<Task>, pushed: seq<Task>)
    requires back != [] && Distinct(pushed + [b]) && AllIn(front + back, pushed)
    ensures front + [b] + back != pushed + [b]
  {
    var x := back[|back| - 1];
    assert (front + back)[|front + back| - 1] == x;
    var i :| 0 <= i < |pushed| && pushed[i] == x;
    assert (pushed + [b])[i] == x && (pushed + [b])[|pushed|] == b;
    assert (front + [b] + back)[|front| + |back|] == x;
  }

  lemma TurnedIsNotPushed(a: seq<Task>, batch: seq<Task>, queue: seq<Task>, pushed: seq<Task>)
    requires batch != [] && queue != [] && Distinct(pushed) && EndsWith(pushed, queue)
    ensures a + queue + batch != pushed
  {
    var turned, i, j := a + queue + batch, |a| + |queue| - 1, |pushed| - 1;
    if |turned| == |pushed| {
      assert turned[i] == queue[|queue| - 1];
      assert pushed[j] == pushed[|pushed| - |queue|..][|queue| - 1];
      assert pushed[i] != pushed[j];
    }
  }

  /** A disturbance that puts a request behind a later one changes the order. */
  lemma DisturbanceShows(s: State, step: Step)
    requires Unused(s) && Traced(s) && Recent(s) && Enabled(s, step) && Disturbs(s, step)
    requires s.alive && Distinct(After(s, step).pushed)
    ensures Line(After(s, step)) != After(s, step).pushed
  {
    hide Unused, Distinct, EndsWith, TasksOf, Without, Line;
    PushedAfter(s, step);
    if step.Handled? { LineLonger(s); }
    else if s.resent > 0 {
      StepKeepsTraced(s, step);
    } else if step.Push? {
      LineSplit(s, step.k);
      InsertedIsNotLast(s.accepted + TasksOf(s.content, s.sendQue), Pushed(s, step), TasksOf(s.content, s.loop.temp),
        s.pushed);
    } else {
      LineTurned(s);
      TurnedIsNotPushed(s.accepted, TasksOf(s.content, s.loop.temp), TasksOf(s.content, s.sendQue), s.pushed);
    }
  }

  /** With all tasks different the order, once lost, is lost for good. */
  predicate Lost(s: State) {
    s.alive && s.overtaken && Distinct(s.pushed) ==> Line(s) != s.pushed
  }

  lemma DistinctFront(ts: seq<Task>, t: Task)
    requires Distinct(ts + [t])
    ensures Distinct(ts)
  {
    assert forall i :: 0 <= i < |ts| ==> (ts + [t])[i] == ts[i];
  }

  lemma SameFront(a: seq<Task>, b: seq<Task>, t: Task)
    requires a + [t] == b + [t]
    ensures a == b
  {
    assert a == (a + [t])[..|a|] && b == (b + [t])[..|b|];
  }

  lemma StepKeepsLost(s: State, step: Step)
    requires Unused(s) && Traced(s) && Recent(s) && Lost(s) && Enabled(s, step)
    ensures Lost(After(s, step))
  {
    hide Unused, Distinct, TasksOf, Line, Recent, Traced, After, Enabled, Disturbs, Pushed;
    PushedAfter(s, step);
    if s.alive && !step.Destroy? && Distinct(After(s, step).pushed) {
      if Disturbs(s, step) { DisturbanceShows(s, step); }
      else {
        LineAfter(s, step);
        if Pushes(step) {
          DistinctFront(s.pushed, Pushed(s, step));
          if Line(After(s, step)) == After(s, step).pushed { SameFront(Line(s), s.pushed, Pushed(s, step)); }
        }
      }
    }
  }

  ghost predicate Inv(s: State) {
    Conserved(s) && Filled(s) && Flying(s) && Ordered(s) && Owed(s) && Counted(s) &&
    Traced(s) && Recent(s) && Lost(s)
  }

  lemma StepKeepsInv(s: State, step: Step)
    requires Inv(s) && Enabled(s, step)
    ensures Inv(After(s, step))
  {
    hide Conserved, Filled, Flying, Ordered, Owed, Counted, Traced, Recent, Lost, After, Enabled;
    NextIsFree(s);
    StepKeepsConserved(s, step);
    StepKeepsFilled(s, step);
    StepKeepsFlying(s, step);
    StepKeepsOrder(s, step);
    StepKeepsOwed(s, step);
    StepKeepsCounted(s, step);
    StepKeepsTraced(s, step);
    StepKeepsRecent(s, step);
    StepKeepsLost(s, step);
  }

  // ---- whole runs -----------------------------------------------------------------------------

  predicate Legal(s: State, steps: seq<Step>)
    decreases |steps|
  {
    steps == [] || (Enabled(s, steps[0]) && Legal(After(s, steps[0]), steps[1..]))
  }

  function Final(s: State, steps: seq<Step>): State
    requires Legal(s, steps)
    decreases |steps|
  {
    if steps == [] then s else Final(After(s, steps[0]), steps[1..])
  }

  lemma {:induction false} PreparedOnce(n: nat, r: Req)
    ensures Occ(Prepared(n), r) == if r < n then 1 else 0
  {
    if n > 0 {
      PreparedOnce(n - 1, r);
      OccSnoc(Prepared(n - 1), n - 1, r);
    }
  }

  lemma {:induction false} PreparedLength(n: nat)
    ensures |Prepared(n)| == n
  {
    if n > 0 { PreparedLength(n - 1); }
  }

  lemma {:induction false} PreparedAt(n: nat, k: nat)
    requires k < n
    ensures |Prepared(n)| == n && Prepared(n)[k] == k
  {
    PreparedLength(n);
    PreparedLength(n - 1);
    if k < n - 1 { PreparedAt(n - 1, k); }
  }

  lemma InitInv(s: State)
    requires Init(s)
    ensures Inv(s)
  {
    hide Occ, Prepared;
    forall r: Req ensures Occ(s.pool, r) == (if r < PREPARED then 1 else 0) && Busy(s, r) == 0 {
      PreparedOnce(PREPARED, r);
      OccNone(r);
    }
    PreparedLength(PREPARED);
  }

  /** In every interleaving of any length: each request in exactly one place, what flies unchanged, and
      until something is put back the order kept and nothing stranded. */
  lemma {:induction false} AnyRun(s: State, steps: seq<Step>)
    requires Inv(s) && Legal(s, steps)
    ensures Inv(Final(s, steps))
    decreases |steps|
  {
    hide Inv, After, Enabled;
    if steps != [] {
      StepKeepsInv(s, steps[0]);
      AnyRun(After(s, steps[0]), steps[1..]);
    }
  }

  lemma AnyRunFromStart(s: State, steps: seq<Step>)
    requires Init(s) && Legal(s, steps)
    ensures Inv(Final(s, steps))
  {
    InitInv(s);
    AnyRun(s, steps);
  }

  /** Exactly when a request is stranded: in every reachable state where no realSend is still to come, the
      queue is not empty if and only if something was put back since the last swap. */
  lemma StrandedIffStale(s: State, steps: seq<Step>)
    requires Init(s) && Legal(s, steps)
    ensures var t := Final(s, steps);
            t.alive && !Owing(t) ==> (t.sendQue != [] <==> t.stale)
  {
    hide Conserved, Filled, Flying, Ordered, Counted, Traced, Recent, Lost, Legal, Final;
    AnyRunFromStart(s, steps);
  }

  /** Exactly when the order is kept: with all tasks different, in every reachable state accepted and
      waiting requests are in the order they were pushed if and only if no request was put back behind
      later ones, none was pushed before others that were still to be put back, and none was sent again. */
  lemma OrderKeptIff(s: State, steps: seq<Step>)
    requires Init(s) && Legal(s, steps)
    ensures var t := Final(s, steps);
            t.alive && Distinct(t.pushed) ==> (Line(t) == t.pushed <==> !t.overtaken)
  {
    hide Conserved, Filled, Flying, Owed, Counted, Traced, Recent, Legal, Final, Line, Distinct;
    AnyRunFromStart(s, steps);
  }

  /** Once nothing is on its way, all that was sent was accepted, in the order it was sent. */
  lemma AtRestAllAccepted(s: State)
    requires Inv(s) && s.alive && !s.stale && !s.overtaken
    requires !Owing(s) && s.loop == Idle
    ensures s.sendQue == [] && s.accepted == s.pushed
  {
    hide Conserved, Filled, Flying, Counted, Traced, Recent, Lost, TasksOf;
    NoTasks(s.content);
    assert s.accepted + [] == s.accepted && [] + s.sendQue == s.sendQue;
  }

  // ---- progress -------------------------------------------------------------------------------

  /** The threads that queued a request go on to announce it, and the loop's thread goes on; nothing new is
      sent, and libuv refuses nothing. */
  predicate Proceeds(step: Step) {
    step.Announce? || step.Callback? || step.Swap? || step.Accept? || step.PutBack? || step.EndBatch? || step.Handled?
  }

  predicate AtRest(s: State) {
    s.announcing == 0 && s.callbacks == 0 && s.loop == Idle
  }

  /** Nothing that the loop's thread is about to do puts a request back. */
  predicate Unfailing(l: Loop) {
    (l.Batch? ==> !l.bError) && (l.Completing? ==> l.ok) &&
    (l.Sending? || l.Batch? ==> (l.next.Handle? ==> l.next.ok))
  }

  function NextStep(s: State): (step: Step)
    requires Inv(s) && !AtRest(s)
    ensures Proceeds(step) && Enabled(s, step)
  {
    if s.announcing > 0 then Announce
    else
      match s.loop
      case Idle => Callback
      case Sending(_) => Swap
      case Batch(temp, bError, _) =>
        if temp == [] then EndBatch
        else if bError then PutBack
        else
          FirstIsFilled(s);
          Accept
      case Completing(_, _) => Handled
  }

  lemma FirstIsFilled(s: State)
    requires Filled(s) && s.loop.Batch? && s.loop.temp != []
    ensures s.loop.temp[0] in s.content
  {
    hide Busy;
    WaitingIsBusy(s, s.loop.temp[0]);
    assert s.loop.temp[0] in Waiting(s);
  }

  function Stage(l: Loop): nat {
    match l
    case Idle => 0
    case Batch(_, _, next) => if next.Handle? then 4 else 1
    case Sending(next) => if next.Handle? then 5 else 2
    case Completing(_, _) => 3
  }

  /** A step forward in the order of announcements, callbacks, stages and batch. */
  lemma StepIsForward(s: State, step: Step)
    requires Enabled(s, step) && Proceeds(step)
    ensures var t := After(s, step);
            t.announcing < s.announcing ||
            (t.announcing == s.announcing &&
             (t.callbacks < s.callbacks ||
              (t.callbacks == s.callbacks &&
               (Stage(t.loop) < Stage(s.loop) ||
                (Stage(t.loop) == Stage(s.loop) && |Temp(t.loop)| < |Temp(s.loop)|)))))
  {
    hide TasksOf, Without, Reqs, Prepared;
    match step
    case Encode(_) =>
    case Push(_) =>
    case Announce =>
    case PushInLoop(_) =>
    case Callback =>
    case Swap =>
    case Accept =>
    case Refuse =>
    case PutBack =>
    case EndBatch =>
    case Complete(_, _) =>
    case CompleteUnknown(_) =>
    case Handled =>
    case Destroy =>
  }

  /** While nothing fails, a step forward keeps it so, and keeps a realSend coming for what was put back. */
  lemma StepStaysUnfailing(s: State, step: Step)
    requires Enabled(s, step) && Proceeds(step) && Unfailing(s.loop)
    ensures var t := After(s, step);
            Unfailing(t.loop) && !Disturbs(s, step) && (Owing(s) || !s.stale ==> Owing(t) || !t.stale)
  {
    hide TasksOf, Without, Reqs, Prepared;
    match step
    case Encode(_) =>
    case Push(_) =>
    case Announce =>
    case PushInLoop(_) =>
    case Callback =>
    case Swap =>
    case Accept =>
    case Refuse =>
    case PutBack =>
    case EndBatch =>
    case Complete(_, _) =>
    case CompleteUnknown(_) =>
    case Handled =>
    case Destroy =>
  }

  lemma StepForward(s: State, step: Step)
    requires Unused(s) && s.alive && Enabled(s, step) && Proceeds(step)
    ensures var t := After(s, step);
            t.alive && t.pushed == s.pushed &&
            (Unfailing(s.loop) ==>
               Unfailing(t.loop) && Line(t) == Line(s) && (Owing(s) || !s.stale ==> Owing(t) || !t.stale))
  {
    hide Unused, After, Enabled, TasksOf, Line, Unfailing, Disturbs, Owing;
    PushedAfter(s, step);
    if Unfailing(s.loop) {
      StepStaysUnfailing(s, step);
      LineAfter(s, step);
    }
  }

  /** Progress: from every reachable state the threads and the loop come to rest, and what then still
      waits was put back on the way. If nothing that is under way fails, and a realSend is still to come or nothing
      was put back, all that waits is accepted, in its order; so a new message also sends
      what was stranded. */
  lemma {:induction false} Settles(s: State) returns (steps: seq<Step>)
    requires Inv(s) && s.alive
    ensures Legal(s, steps) && forall k :: 0 <= k < |steps| ==> Proceeds(steps[k])
    ensures var t := Final(s, steps);
            Inv(t) && t.alive && AtRest(t) && t.pushed == s.pushed && (t.sendQue != [] <==> t.stale) &&
            (Unfailing(s.loop) && (Owing(s) || !s.stale) ==> t.sendQue == [] && t.accepted == Line(s))
    decreases s.announcing, s.callbacks, Stage(s.loop), |Temp(s.loop)|
  {
    hide Inv, After, Enabled, Line, TasksOf, Unfailing, Legal, Final;
    if AtRest(s) {
      steps := [];
      NoSteps(s);
      RestIs(s);
    } else {
      var step := NextStep(s);
      StepKeepsInv(s, step);
      ConservedIsKnown(s);
      NextIsFree(s);
      StepForward(s, step);
      StepIsForward(s, step);
      var rest := Settles(After(s, step));
      steps := [step] + rest;
      OneThen(s, step, rest);
    }
  }

  lemma ConservedIsKnown(s: State)
    ensures Inv(s) ==> Conserved(s)
  {
  }

  lemma RestIs(s: State)
    requires Inv(s) && s.alive && AtRest(s)
    ensures s.sendQue != [] <==> s.stale
    ensures s.sendQue == [] ==> s.accepted == Line(s)
  {
    hide Conserved, Filled, Flying, Ordered, Counted, Traced, Recent, Lost;
  }

  /** When libuv has answered everything and nobody holds or queues a request, all are in the pool, once. */
  lemma AtRestAllReturned(s: State, r: Req)
    requires Inv(s) && s.held == [] && s.sendQue == [] && s.loop == Idle && s.inFlight == []
    ensures Occ(s.pool, r) == if r < s.created then 1 else 0
  {
    OccNone(r);
    assert Occ(s.pool, r) + Busy(s, r) == if r < s.created then 1 else 0;
  }

  lemma {:induction false} LegalSnoc(s: State, steps: seq<Step>, last: Step)
    requires Legal(s, steps) && Enabled(Final(s, steps), last)
    ensures Legal(s, steps + [last]) && Final(s, steps + [last]) == After(Final(s, steps), last)
    decreases |steps|
  {
    if steps == [] {
      assert steps + [last] == [last] && [last][1..] == [];
    } else {
      assert (steps + [last])[1..] == steps[1..] + [last];
      LegalSnoc(After(s, steps[0]), steps[1..], last);
    }
  }

  /** One request, queued by a thread, taken by the loop and refused. */
  function Refused(task: Task): seq<Step> {
    [] + [Encode(task)] + [Push(0)] + [Announce] + [Callback] + [Swap] + [Refuse] + [EndBatch]
  }

  /** What the source leaves open: a request that was refused waits until somebody sends again. */
  lemma RefusedIsStranded(s: State, task: Task)
    requires Init(s)
    ensures Legal(s, Refused(task))
    ensures var t := Final(s, Refused(task));
            t.alive && t.sendQue != [] && t.announcing == 0 && t.callbacks == 0 && t.loop == Idle && t.held == []
  {
    hide Legal, Final, TasksOf, Prepared;
    PreparedLength(PREPARED);
    NoSteps(s);
    LegalSnoc(s, [], Encode(task));
    var a := [] + [Encode(task)];
    LegalSnoc(s, a, Push(0));
    LegalSnoc(s, a + [Push(0)], Announce);
    var b := a + [Push(0)] + [Announce];
    LegalSnoc(s, b, Callback);
    LegalSnoc(s, b + [Callback], Swap);
    var c := b + [Callback] + [Swap];
    LegalSnoc(s, c, Refuse);
    LegalSnoc(s, c + [Refuse], EndBatch);
  }

  /** Two requests, the second of them queued while the first is being refused. */
  function Overtaking(a: Task, b: Task): seq<Step> {
    [] + [Encode(a)] + [Push(0)] + [Announce] + [Callback] + [Swap] + [Encode(b)] + [Push(0)] + [Refuse]
  }

  /** A request that was refused falls behind one that was pushed after it. */
  lemma RefusedIsOvertaken(s: State, a: Task, b: Task)
    requires Init(s)
    ensures Legal(s, Overtaking(a, b))
    ensures var t := Final(s, Overtaking(a, b)); t.pushed == [a, b] && Line(t) == [b, a]
  {
    hide Legal, Final, Prepared;
    PreparedLength(PREPARED);
    PreparedAt(PREPARED, 0);
    PreparedAt(PREPARED, 1);
    NoSteps(s);
    LegalSnoc(s, [], Encode(a));
    var u := [] + [Encode(a)];
    LegalSnoc(s, u, Push(0));
    LegalSnoc(s, u + [Push(0)], Announce);
    var v := u + [Push(0)] + [Announce];
    LegalSnoc(s, v, Callback);
    LegalSnoc(s, v + [Callback], Swap);
    var w := v + [Callback] + [Swap];
    LegalSnoc(s, w, Encode(b));
    LegalSnoc(s, w + [Encode(b)], Push(0));
    var x := w + [Encode(b)] + [Push(0)];
    LegalSnoc(s, x, Refuse);
  }

  lemma NoSteps(s: State)
    ensures Legal(s, []) && Final(s, []) == s
  {
  }

  /** The steps of a batch of `m` requests of which libuv takes `n`. */
  function BatchSteps(m: nat, n: nat, bError: bool): seq<Step> {
    if m == 0 then [EndBatch]
    else if bError then [PutBack] + BatchSteps(m - 1, 0, true)
    else if n > 0 then [Accept] + BatchSteps(m - 1, n - 1, false)
    else [Refuse] + BatchSteps(m - 1, 0, true)
  }

  /** What one step of a batch does. */
  lemma BatchStep(s: State, step: Step)
    requires s.loop.Batch? && Enabled(s, step) && (step.Accept? || step.Refuse? || step.PutBack?)
    ensures var t, temp := After(s, step), s.loop.temp;
            t.loop == Batch(temp[1..], s.loop.bError || step.Refuse?, s.loop.next) && t.content == s.content &&
            (step.Accept? ==> Reqs(t.inFlight) == Reqs(s.inFlight) + [temp[0]] && t.sendQue == s.sendQue) &&
            (!step.Accept? ==> t.inFlight == s.inFlight && t.sendQue == s.sendQue + [temp[0]])
  {
    hide TasksOf, Prepared;
    if step.Accept? {
      assert Reqs(After(s, step).inFlight) == Reqs(s.inFlight) + [s.loop.temp[0]];
    }
  }

  /** Where the loop's thread goes after the batch. */
  function BackTo(next: Then): Loop {
    if next.Handle? then Completing(next.req, next.ok) else Idle
  }

  lemma BatchEnd(s: State)
    requires Enabled(s, EndBatch)
    ensures var t := After(s, EndBatch);
            t.loop == BackTo(s.loop.next) && t.inFlight == s.inFlight && t.sendQue == s.sendQue
  {
    hide TasksOf, Prepared;
  }

  lemma OneThen(s: State, step: Step, steps: seq<Step>)
    requires Enabled(s, step) && Legal(After(s, step), steps)
    ensures Legal(s, [step] + steps) && Final(s, [step] + steps) == Final(After(s, step), steps)
  {
    hide After, Enabled;
    assert ([step] + steps)[1..] == steps;
  }

  lemma CutOnce(a: seq<Req>, temp: seq<Req>, k: nat)
    requires temp != [] && k < |temp|
    ensures a + [temp[0]] + temp[1..][..k] == a + temp[..k + 1]
    ensures a + [temp[0]] + temp[1..] == a + temp && temp[1..][k..] == temp[k + 1..]
  {
  }

  /** A batch that no other thread interrupts: a first part is in flight, the rest is queued again. */
  lemma {:induction false} UninterruptedBatch(s: State, n: nat)
    requires s.loop.Batch? && n <= |s.loop.temp| && (s.loop.bError ==> n == 0)
    requires forall i :: 0 <= i < |s.loop.temp| ==> s.loop.temp[i] in s.content
    ensures var steps := BatchSteps(|s.loop.temp|, n, s.loop.bError);
            Legal(s, steps) &&
            Reqs(Final(s, steps).inFlight) == Reqs(s.inFlight) + s.loop.temp[..n] &&
            Final(s, steps).sendQue == s.sendQue + s.loop.temp[n..] &&
            Final(s, steps).loop == BackTo(s.loop.next)
    decreases |s.loop.temp|
  {
    hide After, Reqs, Legal, Final;
    var temp := s.loop.temp;
    if temp == [] {
      NoSteps(After(s, EndBatch));
      OneThen(s, EndBatch, []);
      assert [EndBatch] + [] == [EndBatch];
      BatchEnd(s);
      assert Reqs(s.inFlight) + temp == Reqs(s.inFlight) && s.sendQue + temp == s.sendQue;
    } else {
      var step := if n > 0 then Accept else if s.loop.bError then PutBack else Refuse;
      var rest := if n > 0 then n - 1 else 0;
      var t := After(s, step);
      BatchStep(s, step);
      UninterruptedBatch(t, rest);
      OneThen(s, step, BatchSteps(|t.loop.temp|, rest, t.loop.bError));
      CutOnce(if n > 0 then Reqs(s.inFlight) else s.sendQue, temp, rest);
      assert Reqs(s.inFlight) + temp[1..][..0] == Reqs(s.inFlight) + temp[..0];
    }
  }
}
