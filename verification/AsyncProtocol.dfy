/** The wakeup protocol between threads that queue callbacks and the loop that runs them, one atomic
    step at a time: a locked section, a read or write of the handle's data, or a libuv call. */
module AsyncProtocol {

  /** A callback, with the callbacks that it queues when it runs, and whether it closes the handle. */
  datatype Callback = Callback(id: nat, queues: seq<Callback>, closes: bool)

  /** Where a thread is in runInLoop. */
  datatype Producer =
    | Outside
    | Pushed       // the callback is queued, the handle's data not yet read
    | Signalling   // the data was ready, uv_async_send comes next

  /** Where the loop's thread is. */
  datatype Loop =
    | Stopped
    | Initialised        // after uv_async_init
    | Published          // the data points to the object, init's own send comes next
    | Polling
    | Taken              // libuv took the signal, the queue is not yet swapped
    | Draining(batch: seq<Callback>)

  datatype Handle = Unborn | Open | Closing | Closed

  datatype State = State(
    cbQue: seq<Callback>,
    ready: bool,               // the handle's data points to the object
    handle: Handle,
    pending: bool,             // a coalesced signal
    producers: seq<Producer>,
    loop: Loop,
    pushed: seq<Callback>,     // every callback ever queued, in order
    ran: seq<Callback>)        // every callback ever run, in order

  predicate Init(s: State) {
    s.cbQue == [] && !s.ready && s.handle == Unborn && !s.pending && s.loop == Stopped &&
    s.pushed == [] && s.ran == [] && forall i :: 0 <= i < |s.producers| ==> s.producers[i] == Outside
  }

  datatype Step =
    | Push(i: nat, cb: Callback)
    | Check(i: nat)
    | Send(i: nat)
    | AsyncInit
    | Publish
    | FirstSend
    | Rerun
    | Take
    | Swap
    | RunNext
    | Return
    | Close
    | AfterClose
    | Leave

  /** The state after one step; nothing if the step cannot be taken. A callback that queues others
      does so as a producer of its own. */
  function After(s: State, step: Step): (r: State)
    requires Enabled(s, step)
  {
    match step
    case Push(i, cb) =>
      s.(cbQue := s.cbQue + [cb], pushed := s.pushed + [cb], producers := s.producers[i := Pushed])
    case Check(i) => s.(producers := s.producers[i := if s.ready then Signalling else Outside])
    case Send(i) => s.(pending := true, producers := s.producers[i := Outside])
    case AsyncInit => s.(handle := Open, pending := false, loop := Initialised)
    case Publish => s.(ready := true, loop := Published)
    case FirstSend => s.(pending := true, loop := Polling)
    case Rerun => s.(loop := Polling)
    case Take => s.(pending := false, loop := Taken)
    case Swap => s.(cbQue := [], loop := Draining(s.cbQue))
    case RunNext => s.(ran := s.ran + [s.loop.batch[0]], loop := Draining(s.loop.batch[1..]))
    case Return => s.(loop := Polling)
    case Close => s.(handle := Closing)
    case AfterClose => s.(handle := Closed, ready := false)
    case Leave => s.(loop := Stopped)
  }

  predicate Enabled(s: State, step: Step) {
    match step
    case Push(i, cb) => i < |s.producers| && s.producers[i] == Outside
    case Check(i) => i < |s.producers| && s.producers[i] == Pushed
    case Send(i) => i < |s.producers| && s.producers[i] == Signalling
    case AsyncInit => s.loop == Stopped && !s.ready
    case Publish => s.loop == Initialised
    case FirstSend => s.loop == Published
    case Rerun => s.loop == Stopped && s.ready
    case Take => s.loop == Polling && s.pending && s.handle == Open
    case Swap => s.loop == Taken
    case RunNext => s.loop.Draining? && s.loop.batch != []
    case Return => s.loop == Draining([])
    case Close => s.handle == Open && s.ready && (s.loop == Polling || s.loop.Draining?)
    case AfterClose => s.loop == Polling && s.handle == Closing
    case Leave => s.loop == Polling
  }

  /** What the loop took out of the queue and did not run yet. */
  function Unrun(s: State): seq<Callback> {
    if s.loop.Draining? then s.loop.batch else []
  }

  predicate Awake(s: State) {
    s.pending || s.loop == Published || s.loop == Taken ||
    exists i :: 0 <= i < |s.producers| && (s.producers[i] == Pushed || s.producers[i] == Signalling)
  }

  /** A callback that waits is going to be noticed. */
  predicate NoLostWakeup(s: State) {
    s.cbQue != [] && s.ready && s.handle == Open ==> Awake(s)
  }

  /** Run once each, in the order they were queued. */
  predicate Fifo(s: State) {
    s.pushed == s.ran + Unrun(s) + s.cbQue
  }

  /** The data is published exactly while the handle lives. */
  predicate HandleSound(s: State) {
    (s.ready ==> s.handle == Open || s.handle == Closing) &&
    (s.loop == Initialised || s.loop == Published ==> s.handle == Open) &&
    (s.loop == Initialised ==> !s.ready) && (s.loop == Published ==> s.ready) &&
    (s.loop == Taken ==> s.ready) &&
    (s.loop == Polling || s.loop.Draining? ==> s.ready || s.handle == Closed)
  }

  predicate Inv(s: State) {
    NoLostWakeup(s) && Fifo(s) && HandleSound(s)
  }

  lemma StepKeepsInv(s: State, step: Step)
    requires Inv(s) && Enabled(s, step)
    ensures Inv(After(s, step))
  {
    var t := After(s, step);
    match step
    case Push(i, cb) =>
      assert t.producers[i] == Pushed;
    case Check(i) =>
      if s.ready { assert t.producers[i] == Signalling; }
    case _ =>
  }

  /** The steps can be taken one after the other. */
  predicate Legal(s: State, steps: seq<Step>)
    decreases |steps|
  {
    steps == [] || (Enabled(s, steps[0]) && Legal(After(s, steps[0]), steps[1..]))
  }

  function Final(s: State, steps: seq<Step>): State
    requires Legal(s, steps)
    decreases |steps|
  {
    if steps == [] then s else Final(After(s, steps[0]), steps[1..])
  }

  lemma OneStep(s: State, a: Step)
    requires Enabled(s, a)
    ensures Legal(s, [a]) && Final(s, [a]) == After(s, a)
  {
    assert [a][1..] == [];
  }

  lemma TwoSteps(s: State, a: Step, b: Step)
    requires Enabled(s, a) && Enabled(After(s, a), b)
    ensures Legal(s, [a, b]) && Final(s, [a, b]) == After(After(s, a), b)
  {
    assert [a, b][1..] == [b];
    OneStep(After(s, a), b);
  }

  lemma ThreeSteps(s: State, a: Step, b: Step, c: Step)
    requires Enabled(s, a) && Enabled(After(s, a), b) && Enabled(After(After(s, a), b), c)
    ensures Legal(s, [a, b, c]) && Final(s, [a, b, c]) == After(After(After(s, a), b), c)
  {
    assert [a, b, c][1..] == [b, c];
    TwoSteps(After(s, a), b, c);
  }

  /** One run behind another is a run. */
  lemma {:induction false} RunThenRun(s: State, a: seq<Step>, b: seq<Step>)
    requires Legal(s, a) && Legal(Final(s, a), b)
    ensures Legal(s, a + b) && Final(s, a + b) == Final(Final(s, a), b)
    decreases |a|
  {
    hide Enabled, After;
    if a == [] {
      assert a + b == b;
    } else {
      assert (a + b)[1..] == a[1..] + b;
      RunThenRun(After(s, a[0]), a[1..], b);
    }
  }

  lemma NoStep(s: State)
    ensures Legal(s, []) && Final(s, []) == s
  {
  }

  /** Every interleaving of any number of threads with the loop, over any number of opened, closed and
      reopened handles, keeps the order and loses no wakeup. */
  lemma {:induction false} RunsKeepInv(s: State, steps: seq<Step>)
    requires Inv(s) && Legal(s, steps)
    ensures Inv(Final(s, steps))
    decreases |steps|
  {
    if steps != [] {
      StepKeepsInv(s, steps[0]);
      RunsKeepInv(After(s, steps[0]), steps[1..]);
    }
  }

  lemma AnyRun(s: State, steps: seq<Step>)
    requires Init(s) && Legal(s, steps)
    ensures Inv(Final(s, steps))
  {
    RunsKeepInv(s, steps);
  }

  predicate Quiet(s: State) {
    forall i :: 0 <= i < |s.producers| ==> s.producers[i] == Outside
  }

  /** The loop's own next step, if it has one. */
  predicate Idle(s: State) {
    s.loop == Polling && !s.pending
  }

  function LoopStep(s: State): (step: Step)
    requires Inv(s) && s.ready && s.handle == Open && s.loop != Stopped && !Idle(s)
    ensures Enabled(s, step)
  {
    match s.loop
    case Published => FirstSend
    case Polling => Take
    case Taken => Swap
    case Draining(batch) => if batch != [] then RunNext else Return
  }

  function Rank(s: State): nat {
    (if s.pending then 4 else 0) +
    (match s.loop case Published => 10 case Taken => 3 case Draining(_) => 2 case _ => 0)
  }

  /** Where the loop gets to when the other threads rest: it runs all that was queued, then sleeps. */
  function Settle(s: State): (t: State)
    requires Inv(s) && Quiet(s) && s.ready && s.handle == Open && s.loop != Stopped
    ensures Idle(t) && t.cbQue == [] && t.ran == s.pushed == t.pushed
    decreases |Unrun(s)| + |s.cbQue|, Rank(s)
  {
    if Idle(s) then s
    else
      StepKeepsInv(s, LoopStep(s));
      Settle(After(s, LoopStep(s)))
  }

  /** What was queued before the first opening of the handle, or left over from a run that closed it, is
      run after the next opening, by the signal that opening sends itself. */
  lemma OpeningCatchesUp(s: State)
    requires Inv(s) && Quiet(s) && s.loop == Stopped && !s.ready
    ensures var steps := [AsyncInit, Publish, FirstSend];
            Legal(s, steps) &&
            var t := Final(s, steps);
            Inv(t) && Quiet(t) && t.ready && t.handle == Open && t.loop == Polling && t.pending &&
            Settle(t).ran == s.pushed && Settle(t).cbQue == []
  {
    ThreeSteps(s, AsyncInit, Publish, FirstSend);
    RunsKeepInv(s, [AsyncInit, Publish, FirstSend]);
  }
}
