/** Any number of connections over the one pool of write requests that they share, each taking the steps of
    the send protocol: what one does to the pool leaves the requests of the others alone. */
module SharedPool {
  import opened SendProtocol

  /** What the connections share. */
  datatype Pool = Pool(free: seq<Req>, created: nat, content: map<Req, Content>, getNum: nat, putNum: nat, newNum: nat)

  /** The pool, and of each connection what is its own. */
  datatype System = System(pool: Pool, conns: seq<State>)

  /** A connection as the protocol sees it, with the pool as it is. */
  function View(p: Pool, s: State): State {
    s.(pool := p.free, created := p.created, content := p.content,
       getNum := p.getNum, putNum := p.putNum, newNum := p.newNum)
  }

  function PoolOf(s: State): Pool {
    Pool(s.pool, s.created, s.content, s.getNum, s.putNum, s.newNum)
  }

  /** A connection that was just made. */
  const NEW := State([], 0, [], [], 0, 0, Idle, [], map[], true, false, false, 0, [], [], 0, 0, 0)

  predicate Starts(y: System) {
    y.conns == [] && y.pool.free == Prepared(PREPARED) && y.pool.created == PREPARED &&
    y.pool.getNum == 0 && y.pool.putNum == 0 && y.pool.newNum == 0
  }

  datatype Move = Connect | Of(i: nat, step: Step)

  predicate Allowed(y: System, m: Move) {
    m.Of? ==> m.i < |y.conns| && Enabled(View(y.pool, y.conns[m.i]), m.step)
  }

  function Moved(y: System, m: Move): System
    requires Allowed(y, m)
  {
    match m
    case Connect => y.(conns := y.conns + [NEW])
    case Of(i, step) =>
      var t := After(View(y.pool, y.conns[i]), step);
      System(PoolOf(t), y.conns[i := t])
  }

  // ---- conservation over all connections ------------------------------------------------------

  /** How often the request is outside the pool, on whatever connection. */
  function BusyAll(cs: seq<State>, r: Req): nat {
    if cs == [] then 0 else Busy(cs[0], r) + BusyAll(cs[1..], r)
  }

  lemma {:induction false} BusyAllUpdate(cs: seq<State>, i: nat, t: State, r: Req)
    requires i < |cs|
    ensures BusyAll(cs[i := t], r) + Busy(cs[i], r) == BusyAll(cs, r) + Busy(t, r)
  {
    hide Busy;
    if i > 0 {
      BusyAllUpdate(cs[1..], i - 1, t, r);
      assert cs[i := t][1..] == cs[1..][i - 1 := t];
    } else {
      assert cs[i := t][1..] == cs[1..];
    }
  }

  lemma {:induction false} BusyAllSnoc(cs: seq<State>, t: State, r: Req)
    ensures BusyAll(cs + [t], r) == BusyAll(cs, r) + Busy(t, r)
  {
    hide Busy;
    if cs != [] {
      BusyAllSnoc(cs[1..], t, r);
      assert (cs + [t])[1..] == cs[1..] + [t];
    } else {
      assert cs + [t] == [t] && [t][1..] == [];
    }
  }

  lemma {:induction false} BusyIsCounted(cs: seq<State>, i: nat, r: Req)
    requires i < |cs|
    ensures Busy(cs[i], r) <= BusyAll(cs, r)
  {
    hide Busy;
    if i > 0 { BusyIsCounted(cs[1..], i - 1, r); }
  }

  lemma ViewIsAsBusy(p: Pool, s: State, r: Req)
    ensures Busy(View(p, s), r) == Busy(s, r)
  {
  }

  /** Every request is in exactly one place: in the pool, or with one connection, and there once. */
  ghost predicate Once(y: System) {
    forall r: Req :: Occ(y.pool.free, r) + BusyAll(y.conns, r) == if r < y.pool.created then 1 else 0
  }

  lemma MoveKeepsOnce(y: System, m: Move)
    requires Once(y) && Allowed(y, m)
    ensures Once(Moved(y, m))
  {
    hide Busy, Occ, After, Enabled;
    forall r: Req
      ensures Occ(Moved(y, m).pool.free, r) + BusyAll(Moved(y, m).conns, r) ==
              if r < Moved(y, m).pool.created then 1 else 0
    {
      if m.Connect? {
        BusyAllSnoc(y.conns, NEW, r);
        NewIsIdle(r);
      } else {
        var s := View(y.pool, y.conns[m.i]);
        StepConserves(s, m.step, r);
        CreatedByEncode(s, m.step);
        ViewIsAsBusy(y.pool, y.conns[m.i], r);
        BusyAllUpdate(y.conns, m.i, After(s, m.step), r);
      }
    }
  }

  lemma NewIsIdle(r: Req)
    ensures Busy(NEW, r) == 0
  {
    assert Reqs([]) == [];
  }

  /** The request that the next encoding fills is in nobody's hands, on any connection. */
  lemma NextIsNobodys(y: System, i: nat, k: nat)
    requires Once(y) && i < |y.conns| && k < |y.conns|
    ensures Busy(y.conns[k], Next(View(y.pool, y.conns[i]))) == 0
  {
    hide Busy;
    var r := Next(View(y.pool, y.conns[i]));
    BusyIsCounted(y.conns, k, r);
    if y.pool.free != [] { OccFirst(y.pool.free, r); }
  }

  // ---- what each connection keeps -------------------------------------------------------------

  /** What the protocol keeps for one connection, whatever the pool does. */
  ghost predicate Local(s: State) {
    Filled(s) && Flying(s) && Ordered(s) && Owed(s) && Traced(s) && Recent(s) && Lost(s)
  }

  lemma OwnStepKeepsLocal(s: State, step: Step)
    requires Unused(s) && Local(s) && Enabled(s, step)
    ensures Local(After(s, step))
  {
    hide Unused, Filled, Flying, Ordered, Owed, Traced, Recent, Lost, After, Enabled;
    StepKeepsFilled(s, step);
    StepKeepsFlying(s, step);
    StepKeepsOrder(s, step);
    StepKeepsOwed(s, step);
    StepKeepsTraced(s, step);
    StepKeepsRecent(s, step);
    StepKeepsLost(s, step);
  }

  /** The requests outside the pool hold in `d` what they hold in `s`. */
  ghost predicate SameFor(s: State, d: map<Req, Content>) {
    forall r: Req :: Busy(s, r) > 0 ==> (r in s.content <==> r in d) && (r in d ==> s.content[r] == d[r])
  }

  lemma SameTasks(s: State, d: map<Req, Content>, q: seq<Req>)
    requires SameFor(s, d) && forall r :: r in q ==> Busy(s, r) > 0
    ensures TasksOf(d, q) == TasksOf(s.content, q)
  {
    hide Busy;
    forall i | 0 <= i < |q| ensures TasksOf(d, q)[i] == TasksOf(s.content, q)[i] {
      assert q[i] in q;
    }
  }

  lemma SameLine(s: State, p: Pool)
    requires SameFor(s, p.content)
    ensures Line(View(p, s)) == Line(s)
    ensures TasksOf(p.content, s.sendQue) == TasksOf(s.content, s.sendQue)
  {
    hide Busy, TasksOf, SameFor;
    forall r | r in Waiting(s) ensures Busy(s, r) > 0 { WaitingIsBusy(s, r); }
    SameTasks(s, p.content, Waiting(s));
    assert forall r :: r in s.sendQue ==> r in Waiting(s);
    SameTasks(s, p.content, s.sendQue);
  }

  lemma SameFilled(s: State, p: Pool)
    requires SameFor(s, p.content)
    ensures Filled(s) ==> Filled(View(p, s))
    ensures Flying(s) ==> Flying(View(p, s))
  {
    hide Busy;
    forall r ensures Busy(View(p, s), r) == Busy(s, r) { ViewIsAsBusy(p, s, r); }
    forall i | 0 <= i < |s.inFlight| ensures Busy(s, s.inFlight[i].req) > 0 { FlightIsBusy(s, i); }
  }

  /** A connection keeps all of it when others change the pool and nothing of its own. */
  lemma OthersKeepLocal(s: State, p: Pool)
    requires Local(s) && SameFor(s, p.content)
    ensures Local(View(p, s))
  {
    hide Filled, Flying, Line, TasksOf, SameFor, Distinct, AllIn, EndsWith;
    SameLine(s, p);
    SameFilled(s, p);
  }

  lemma EncodesElsewhere(y: System, i: nat, step: Step, k: nat)
    requires Once(y) && Allowed(y, Of(i, step)) && k < |y.conns|
    ensures SameFor(View(y.pool, y.conns[k]), Moved(y, Of(i, step)).pool.content)
  {
    hide Busy, After, Enabled;
    var s := View(y.pool, y.conns[i]);
    ContentAfter(s, step);
    NextIsNobodys(y, i, k);
    forall r ensures Busy(View(y.pool, y.conns[k]), r) == Busy(y.conns[k], r) { ViewIsAsBusy(y.pool, y.conns[k], r); }
  }

  ghost predicate Sound(y: System) {
    Once(y) && Counted(View(y.pool, NEW)) && forall i :: 0 <= i < |y.conns| ==> Local(View(y.pool, y.conns[i]))
  }

  /** A step of one connection changes nothing of another: neither what it holds, queues and has in flight,
      nor the bytes of any of these. */
  lemma StepsDoNotInterfere(y: System, i: nat, step: Step, k: nat)
    requires Sound(y) && Allowed(y, Of(i, step)) && k < |y.conns| && k != i
    ensures var z := Moved(y, Of(i, step));
            z.conns[k] == y.conns[k] &&
            (forall r: Req :: Busy(y.conns[k], r) > 0 ==>
              r in z.pool.content && z.pool.content[r] == y.pool.content[r]) &&
            (forall j :: 0 <= j < |y.conns[k].inFlight| ==>
               var f := y.conns[k].inFlight[j]; f.req in z.pool.content && z.pool.content[f.req].bytes == f.bytes)
  {
    hide Busy, After, Enabled, Once, Counted, Ordered, Owed, Traced, Recent, Lost;
    var s := View(y.pool, y.conns[k]);
    EncodesElsewhere(y, i, step, k);
    assert Local(s);
    forall r ensures Busy(s, r) == Busy(y.conns[k], r) { ViewIsAsBusy(y.pool, y.conns[k], r); }
    forall j | 0 <= j < |s.inFlight| ensures Busy(s, s.inFlight[j].req) > 0 { FlightIsBusy(s, j); }
  }

  lemma ViewOfAfter(s: State)
    ensures View(PoolOf(s), s) == s
  {
  }

  lemma CountedIsShared(p: Pool, s: State)
    ensures Counted(View(p, s)) <==> Counted(View(p, NEW))
  {
  }

  lemma ViewAgain(p: Pool, q: Pool, s: State)
    ensures View(q, View(p, s)) == View(q, s)
  {
  }

  lemma NewIsLocal(p: Pool)
    ensures Local(View(p, NEW))
  {
    hide Busy;
    var s := View(p, NEW);
    forall r ensures Busy(s, r) == 0 { NewIsIdle(r); ViewIsAsBusy(p, NEW, r); }
    NoTasks(p.content);
  }

  lemma MoveKeepsSound(y: System, m: Move)
    requires Sound(y) && Allowed(y, m)
    ensures Sound(Moved(y, m))
  {
    hide Once, Local, After, Enabled, Busy, Counted, SameFor;
    MoveKeepsOnce(y, m);
    var z := Moved(y, m);
    forall k | 0 <= k < |z.conns| ensures Local(View(z.pool, z.conns[k])) {
      if m.Connect? {
        NewIsLocal(y.pool);
      } else {
        LocalAfter(y, m.i, m.step, k);
      }
    }
    if m.Of? {
      var s := View(y.pool, y.conns[m.i]);
      CountedIsShared(y.pool, y.conns[m.i]);
      StepKeepsCounted(s, m.step);
      ViewOfAfter(After(s, m.step));
      CountedIsShared(z.pool, After(s, m.step));
    }
  }

  lemma LocalAfter(y: System, i: nat, step: Step, k: nat)
    requires Sound(y) && Allowed(y, Of(i, step)) && k < |y.conns|
    ensures var z := Moved(y, Of(i, step)); Local(View(z.pool, z.conns[k]))
  {
    hide Once, Local, After, Enabled, Busy, Counted, SameFor;
    var s, z := View(y.pool, y.conns[k]), Moved(y, Of(i, step));
    if k == i {
      NextIsNobodys(y, i, i);
      ViewIsAsBusy(y.pool, y.conns[i], Next(s));
      OwnStepKeepsLocal(s, step);
      ViewOfAfter(After(s, step));
    } else {
      EncodesElsewhere(y, i, step, k);
      OthersKeepLocal(s, z.pool);
      ViewAgain(y.pool, z.pool, y.conns[k]);
    }
  }

  // ---- whole runs -----------------------------------------------------------------------------

  predicate Possible(y: System, ms: seq<Move>)
    decreases |ms|
  {
    ms == [] || (Allowed(y, ms[0]) && Possible(Moved(y, ms[0]), ms[1..]))
  }

  function Last(y: System, ms: seq<Move>): System
    requires Possible(y, ms)
    decreases |ms|
  {
    if ms == [] then y else Last(Moved(y, ms[0]), ms[1..])
  }

  lemma {:induction false} AnySystemRun(y: System, ms: seq<Move>)
    requires Sound(y) && Possible(y, ms)
    ensures Sound(Last(y, ms))
    decreases |ms|
  {
    hide Sound, Moved, Allowed;
    if ms != [] {
      MoveKeepsSound(y, ms[0]);
      AnySystemRun(Moved(y, ms[0]), ms[1..]);
    }
  }

  lemma StartIsSound(y: System)
    requires Starts(y)
    ensures Sound(y)
  {
    hide Occ, Prepared;
    forall r: Req ensures Occ(y.pool.free, r) == if r < PREPARED then 1 else 0 { PreparedOnce(PREPARED, r); }
    PreparedLength(PREPARED);
  }

  /** Whatever the connections do beside one another: each request is in one place, and for each connection
      alone the order is kept exactly if no step disturbed it, and a request is stranded exactly if
      it was put back since the last swap. */
  lemma EachConnection(y: System, ms: seq<Move>, k: nat)
    requires Starts(y) && Possible(y, ms) && k < |Last(y, ms).conns|
    ensures Once(Last(y, ms))
    ensures var z := Last(y, ms); var t := View(z.pool, z.conns[k]);
            Filled(t) && Flying(t) &&
            (t.alive && !Owing(t) ==> (t.sendQue != [] <==> t.stale)) &&
            (t.alive && Distinct(t.pushed) ==> (Line(t) == t.pushed <==> !t.overtaken))
  {
    hide Once, Filled, Flying, Traced, Recent, Counted, Line, Distinct, Possible, Last;
    StartIsSound(y);
    AnySystemRun(y, ms);
    assert Local(View(Last(y, ms).pool, Last(y, ms).conns[k]));
  }

  /** When every connection has nothing queued, held or in flight, each request is in the pool, once. */
  lemma {:induction false} AllReturned(y: System, r: Req)
    requires Sound(y) && forall k :: 0 <= k < |y.conns| ==> Busy(y.conns[k], r) == 0
    ensures Occ(y.pool.free, r) == if r < y.pool.created then 1 else 0
  {
    NobodyBusy(y.conns, r);
    assert Occ(y.pool.free, r) + BusyAll(y.conns, r) == if r < y.pool.created then 1 else 0;
  }

  lemma {:induction false} NobodyBusy(cs: seq<State>, r: Req)
    requires forall k :: 0 <= k < |cs| ==> Busy(cs[k], r) == 0
    ensures BusyAll(cs, r) == 0
  {
    hide Busy;
    if cs != [] { NobodyBusy(cs[1..], r); }
  }
}
