/** The send protocol on the wakeup protocol: the calls of realSend that the one counts are the callbacks
    that the other queues and runs. */
module SendWakeup {
  import A = AsyncProtocol
  import S = SendProtocol

  /** The callback that calls realSend. */
  const SEND := A.Callback(1, [], false)

  datatype State = State(wake: A.State, send: S.State)

  datatype Step =
    | Wake(a: A.Step)          // of the wakeup protocol alone
    | Send(b: S.Step)          // of the send protocol alone
    | Announce(i: nat)            // a thread that queued a request queues the callback
    | RunSend                     // the loop runs the callback

  predicate Enabled(s: State, step: Step) {
    match step
    case Wake(a) =>
      A.Enabled(s.wake, a) && !(a.Push? && a.cb == SEND) && !(a.RunNext? && s.wake.loop.batch[0] == SEND)
    case Send(b) => S.Enabled(s.send, b) && !b.Announce? && !b.Callback?
    case Announce(i) => A.Enabled(s.wake, A.Push(i, SEND)) && S.Enabled(s.send, S.Announce)
    case RunSend =>
      A.Enabled(s.wake, A.RunNext) && s.wake.loop.batch[0] == SEND && S.Enabled(s.send, S.Callback)
  }

  function Calls(q: seq<A.Callback>): nat {
    if q == [] then 0 else (if q[0] == SEND then 1 else 0) + Calls(q[1..])
  }

  /** The callbacks that wait to be run. */
  function Waiting(w: A.State): seq<A.Callback> {
    A.Unrun(w) + w.cbQue
  }

  /** Exactly the calls that the send protocol counts are waiting to be run. */
  ghost predicate Inv(s: State) {
    A.Inv(s.wake) && S.Inv(s.send) && s.send.callbacks == Calls(Waiting(s.wake))
  }

  lemma {:induction false} CallsOfConcat(a: seq<A.Callback>, b: seq<A.Callback>)
    ensures Calls(a + b) == Calls(a) + Calls(b)
  {
    if a == [] {
      assert a + b == b;
    } else {
      assert (a + b)[1..] == a[1..] + b;
      CallsOfConcat(a[1..], b);
    }
  }

  lemma CallsOfOne(cb: A.Callback)
    ensures Calls([cb]) == if cb == SEND then 1 else 0
  {
    assert [cb][1..] == [];
  }

  /** What waits after a step of the wakeup protocol. */
  lemma WaitingAfter(w: A.State, step: A.Step)
    requires A.Enabled(w, step)
    ensures var t := A.After(w, step);
            Waiting(t) ==
              if step.Push? then Waiting(w) + [step.cb] else if step.RunNext? then Waiting(w)[1..] else Waiting(w)
    ensures step.RunNext? ==> Waiting(w) != [] && Waiting(w)[0] == w.loop.batch[0]
  {
  }

  /** The callback can be run whenever its turn has come and the loop's thread is not sending: its call is one of
      those that were counted. */
  lemma RunSendIsCounted(s: State)
    requires Inv(s) && A.Enabled(s.wake, A.RunNext) && s.wake.loop.batch[0] == SEND && s.send.loop == S.Idle
    ensures Enabled(s, RunSend)
  {
    WaitingAfter(s.wake, A.RunNext);
  }

  function After(s: State, step: Step): State
    requires Enabled(s, step)
  {
    match step
    case Wake(a) => s.(wake := A.After(s.wake, a))
    case Send(b) => s.(send := S.After(s.send, b))
    case Announce(i) => State(A.After(s.wake, A.Push(i, SEND)), S.After(s.send, S.Announce))
    case RunSend => State(A.After(s.wake, A.RunNext), S.After(s.send, S.Callback))
  }

  lemma CallbacksAfter(s: S.State, step: S.Step)
    requires S.Enabled(s, step)
    ensures S.After(s, step).callbacks ==
            s.callbacks + (if step.Announce? then 1 else 0) - (if step.Callback? then 1 else 0)
  {
    hide S.TasksOf, S.Without, S.Reqs;
  }

  lemma WakeKeepsCount(w: A.State, step: A.Step, n: nat)
    requires A.Enabled(w, step) && n == Calls(Waiting(w))
    ensures Calls(Waiting(A.After(w, step))) ==
            n + (if step.Push? && step.cb == SEND then 1 else 0) -
            (if step.RunNext? && w.loop.batch[0] == SEND then 1 else 0)
  {
    hide A.After;
    WaitingAfter(w, step);
    if step.Push? {
      CallsOfConcat(Waiting(w), [step.cb]);
      CallsOfOne(step.cb);
    }
  }

  /** Every step of the two together keeps both protocols' invariants, and the count. */
  lemma StepKeepsInv(s: State, step: Step)
    requires Inv(s) && Enabled(s, step)
    ensures Inv(After(s, step))
  {
    hide A.Inv, S.Inv, A.After, S.After, Calls, Waiting;
    match step
    case Wake(a) =>
      A.StepKeepsInv(s.wake, a);
      WakeKeepsCount(s.wake, a, s.send.callbacks);
    case Send(b) =>
      S.StepKeepsInv(s.send, b);
      CallbacksAfter(s.send, b);
    case Announce(i) =>
      A.StepKeepsInv(s.wake, A.Push(i, SEND));
      WakeKeepsCount(s.wake, A.Push(i, SEND), s.send.callbacks);
      S.StepKeepsInv(s.send, S.Announce);
      CallbacksAfter(s.send, S.Announce);
    case RunSend =>
      A.StepKeepsInv(s.wake, A.RunNext);
      WakeKeepsCount(s.wake, A.RunNext, s.send.callbacks);
      S.StepKeepsInv(s.send, S.Callback);
      CallbacksAfter(s.send, S.Callback);
  }

  predicate Init(s: State) {
    A.Init(s.wake) && S.Init(s.send)
  }

  predicate Legal(s: State, steps: seq<Step>)
    decreases |steps|
  {
    steps == [] || (Enabled(s, steps[0]) && Legal(After(s, steps[0]), steps[1..]))
  }

  function Final(s: State, steps: seq<Step>): State
    requires Legal(s, steps)
    decreases |steps|
  {
    if steps == [] then s else Final(After(s, steps[0]), steps[1..])
  }

  lemma {:induction false} RunKeepsInv(s: State, steps: seq<Step>)
    requires Inv(s) && Legal(s, steps)
    ensures Inv(Final(s, steps))
    decreases |steps|
  {
    hide Inv, After, Enabled;
    if steps != [] {
      StepKeepsInv(s, steps[0]);
      RunKeepsInv(After(s, steps[0]), steps[1..]);
    }
  }

  lemma AnyRun(s: State, steps: seq<Step>)
    requires Init(s) && Legal(s, steps)
    ensures Inv(Final(s, steps))
  {
    hide S.Inv, S.Prepared;
    S.InitInv(s.send);
    RunKeepsInv(s, steps);
  }

  /** When all threads are quiet and the loop sleeps on an open handle, no call of realSend was lost: every
      request that waits was put back, and if none was, everything sent was accepted. */
  lemma AsleepIsAtRest(s: State)
    requires Inv(s) && s.send.alive && s.send.announcing == 0 && s.send.loop == S.Idle
    requires A.Quiet(s.wake) && A.Idle(s.wake) && s.wake.ready && s.wake.handle == A.Open
    ensures s.send.callbacks == 0 && (s.send.sendQue != [] <==> s.send.stale)
    ensures !s.send.stale ==> s.send.accepted == S.Line(s.send)
  {
    hide S.Conserved, S.Filled, S.Flying, S.Ordered, S.Counted, S.Traced, S.Recent, S.Lost, S.TasksOf, S.Line;
    assert s.wake.cbQue == [];
    assert Waiting(s.wake) == [];
    S.RestIs(s.send);
  }
}
