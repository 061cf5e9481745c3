/** The object behind the wakeups: its queue, its handle, and the drain of what was queued. */
module Async {
  import opened AsyncProtocol

  /** What a batch queues while it runs. */
  function Queued(batch: seq<Callback>): seq<Callback> {
    if batch == [] then [] else batch[0].queues + Queued(batch[1..])
  }

  /** How many callbacks there are, counting the ones that they will queue. */
  function Total(q: seq<Callback>): nat {
    if q == [] then 0 else 1 + Total(q[0].queues) + Total(q[1..])
  }

  lemma {:induction false} TotalOfConcat(a: seq<Callback>, b: seq<Callback>)
    ensures Total(a + b) == Total(a) + Total(b)
  {
    if a == [] {
      assert a + b == b;
    } else {
      assert (a + b)[1..] == a[1..] + b;
      TotalOfConcat(a[1..], b);
    }
  }

  /** A pass leaves less to do, by just the number of callbacks in it. */
  lemma {:induction false} TotalOfQueued(q: seq<Callback>)
    ensures Total(Queued(q)) + |q| == Total(q)
  {
    if q != [] {
      TotalOfQueued(q[1..]);
      TotalOfConcat(q[0].queues, Queued(q[1..]));
    }
  }

  lemma {:induction false} QueuedSnoc(a: seq<Callback>, cb: Callback)
    ensures Queued(a + [cb]) == Queued(a) + cb.queues
  {
    if a == [] {
      assert a + [cb] == [cb] && [cb][1..] == [] && cb.queues + [] == cb.queues;
    } else {
      assert (a + [cb])[1..] == a[1..] + [cb];
      QueuedSnoc(a[1..], cb);
      assert a[0].queues + (Queued(a[1..]) + cb.queues) == a[0].queues + Queued(a[1..]) + cb.queues;
    }
  }

  /** All callbacks in the order of their generations. */
  function Generations(q: seq<Callback>): seq<Callback>
    decreases Total(q)
  {
    if q == [] then []
    else
      TotalOfQueued(q);
      q + Generations(Queued(q))
  }

  /** Some callback of the batch closes the handle. */
  predicate Closes(batch: seq<Callback>) {
    exists i :: 0 <= i < |batch| && batch[i].closes
  }

  /** How far the loop comes: what it runs, what is left in the queue, and whether the handle was closed. */
  datatype Progress = Progress(ran: seq<Callback>, left: seq<Callback>, closed: bool)

  /** Pass after pass, up to and including the first one that closes. */
  function Until(q: seq<Callback>): (r: Progress)
    ensures !r.closed ==> r.left == []
    decreases Total(q)
  {
    if q == [] then Progress([], [], false)
    else if Closes(q) then Progress(q, Queued(q), true)
    else
      TotalOfQueued(q);
      var r := Until(Queued(q));
      Progress(q + r.ran, r.left, r.closed)
  }

  /** What a closed run leaves is just what the generations go on with. */
  lemma {:induction false} UntilIsPrefix(q: seq<Callback>)
    ensures Generations(q) == Until(q).ran + Generations(Until(q).left)
    decreases Total(q)
  {
    if q != [] && !Closes(q) {
      TotalOfQueued(q);
      UntilIsPrefix(Queued(q));
      var r := Until(Queued(q));
      assert q + r.ran + Generations(r.left) == q + (r.ran + Generations(r.left));
    }
  }

  class Async {
    var cbQue: seq<Callback>
    var ready: bool
    var handle: Handle
    var pending: bool
    /** Whether the closed callback is set, which stops the loop. */
    var cbOnClosed: bool
    var uvStop: bool
    var ran: seq<Callback>

    constructor ()
      ensures AsyncProtocol.Init(View(Stopped)) && Sound() && !uvStop
    {
      cbQue, ready, handle, pending, ran := [], false, Unborn, false, [];
      cbOnClosed, uvStop := false, false;
    }

    /** The data points here exactly while the handle lives, and a handle that closes knows what to call. */
    predicate Tied()
      reads this
    {
      (ready <==> handle == Open || handle == Closing) && (handle == Closing ==> cbOnClosed)
    }

    /** Besides, what is queued on an open handle is signalled. */
    predicate Sound()
      reads this
    {
      Tied() && (handle == Open && cbQue != [] ==> pending)
    }

    /** This object as a state of the protocol with one thread outside. */
    function View(loop: Loop): State
      reads this
    {
      State(cbQue, ready, handle, pending, [Outside], loop,
            ran + (if loop.Draining? then loop.batch else []) + cbQue, ran)
    }

    method AsyncSend()
      modifies this`pending
      ensures pending
    {
      pending := true;
    }

    /** Opens the handle unless it is, and signals for what was queued before. */
    method Init()
      requires Sound()
      modifies this`handle, this`ready, this`pending
      ensures Sound() && ready && (!old(ready) ==> handle == Open)
      ensures var steps := if old(ready) then [Rerun] else [AsyncInit, Publish, FirstSend];
              Legal(old(View(Stopped)), steps) && View(Polling) == Final(old(View(Stopped)), steps)
    {
      if !ready {
        ThreeSteps(View(Stopped), AsyncInit, Publish, FirstSend);
        handle, pending := Open, false;
        ready := true;
        AsyncSend();
      }
    }

    /** Queues, and signals if the handle is open. */
    method RunInLoop(callback: Callback, ghost loop: Loop) returns (ghost steps: seq<Step>)
      requires Sound()
      modifies this`cbQue, this`pending
      ensures Sound() && cbQue == old(cbQue) + [callback] && pending == (old(pending) || ready)
      ensures steps == if ready then [Push(0, callback), Check(0), Send(0)] else [Push(0, callback), Check(0)]
      ensures Legal(old(View(loop)), steps) && View(loop) == Final(old(View(loop)), steps)
    {
      if ready {
        ThreeSteps(View(loop), Push(0, callback), Check(0), Send(0));
        steps := [Push(0, callback), Check(0), Send(0)];
      } else {
        TwoSteps(View(loop), Push(0, callback), Check(0));
        steps := [Push(0, callback), Check(0)];
      }
      cbQue := cbQue + [callback];
      if ready { AsyncSend(); }
    }

    /** Closes the handle unless it is closing or closed. */
    method Close(ghost loop: Loop) returns (ghost steps: seq<Step>)
      requires Sound()
      modifies this`handle, this`cbOnClosed
      ensures Sound() && cbOnClosed && handle == if old(handle) == Open then Closing else old(handle)
      ensures loop == Polling || loop.Draining? ==>
              Legal(old(View(loop)), steps) && View(loop) == Final(old(View(loop)), steps)
    {
      steps := if handle == Open && (loop == Polling || loop.Draining?) then [Step.Close] else [];
      if steps == [] { NoStep(View(loop)); } else { OneStep(View(loop), Step.Close); }
      cbOnClosed := true;
      if handle == Open { handle := Closing; }
    }

    /** Queues all of them, one after the other. */
    method QueueAll(callbacks: seq<Callback>, ghost loop: Loop) returns (ghost steps: seq<Step>)
      requires Sound()
      modifies this`cbQue, this`pending
      ensures Sound() && cbQue == old(cbQue) + callbacks
      ensures pending == (old(pending) || (ready && callbacks != []))
      ensures Legal(old(View(loop)), steps) && View(loop) == Final(old(View(loop)), steps)
    {
      hide Legal, Final, After, Enabled;
      ghost var start := View(loop);
      steps := [];
      NoStep(start);
      for i := 0 to |callbacks|
        invariant Sound() && cbQue == old(cbQue) + callbacks[..i]
        invariant pending == (old(pending) || (ready && i > 0))
        invariant Legal(start, steps) && View(loop) == Final(start, steps)
        modifies this`cbQue, this`pending
      {
        var more := RunInLoop(callbacks[i], loop);
        RunThenRun(start, steps, more);
        steps := steps + more;
      }
      assert callbacks[..|callbacks|] == callbacks;
    }

    /** Calls one callback: it queues others, and may close the handle. In a pass these are the protocol's
        steps. */
    method Call(callback: Callback, ghost rest: seq<Callback>) returns (ghost steps: seq<Step>)
      requires Sound()
      modifies this`cbQue, this`pending, this`ran, this`handle, this`cbOnClosed
      ensures Sound() && ran == old(ran) + [callback] && cbQue == old(cbQue) + callback.queues
      ensures pending == (old(pending) || (ready && callback.queues != []))
      ensures handle == if callback.closes && old(handle) == Open then Closing else old(handle)
      ensures Legal(old(View(Draining([callback] + rest))), steps)
      ensures View(Draining(rest)) == Final(old(View(Draining([callback] + rest))), steps)
    {
      hide Legal, Final, Enabled, After;
      ghost var start := View(Draining([callback] + rest));
      steps := [RunNext];
      RunsFirst(start, callback, rest);
      ran := ran + [callback];
      assert View(Draining(rest)) == Final(start, steps);
      var more := QueueAll(callback.queues, Draining(rest));
      RunThenRun(start, steps, more);
      steps := steps + more;
      if callback.closes {
        var last := Close(Draining(rest));
        RunThenRun(start, steps, last);
        steps := steps + last;
      }
    }

    /** One pass, as steps of the protocol: runs what was queued at its start, once and in order, and nothing
        that came later, also when the handle is closed meanwhile. */
    method RealProcess() returns (ghost steps: seq<Step>)
      requires Tied()
      modifies this`cbQue, this`pending, this`ran, this`handle, this`cbOnClosed
      ensures Sound() && ran == old(ran) + old(cbQue)
      ensures cbQue == Queued(old(cbQue))
      ensures pending == (old(pending) || (ready && cbQue != []))
      ensures handle == if Closes(old(cbQue)) && old(handle) == Open then Closing else old(handle)
      ensures Legal(old(View(Taken)), steps) && View(Polling) == Final(old(View(Taken)), steps)
    {
      ghost var batch, start := cbQue, View(Taken);
      var tmpCallbacks := cbQue;
      cbQue := [];
      steps := [Swap];
      OneStep(start, Swap);
      ghost var k := 0;
      while tmpCallbacks != []
        invariant Sound() && k <= |batch| && tmpCallbacks == batch[k..]
        invariant ran == old(ran) + batch[..k] && cbQue == Queued(batch[..k])
        invariant pending == (old(pending) || (ready && cbQue != []))
        invariant handle == if Closes(batch[..k]) && old(handle) == Open then Closing else old(handle)
        invariant Legal(start, steps) && View(Draining(tmpCallbacks)) == Final(start, steps)
        decreases |tmpCallbacks|
      {
        var func := tmpCallbacks[0];
        assert batch[..k] + [func] == batch[..k + 1] && tmpCallbacks == [func] + tmpCallbacks[1..];
        QueuedSnoc(batch[..k], func);
        ClosesSnoc(batch[..k], func);
        var more := Call(func, tmpCallbacks[1..]);
        RunThenRun(start, steps, more);
        steps := steps + more;
        tmpCallbacks := tmpCallbacks[1..];
        k := k + 1;
      }
      assert batch[..k] == batch;
      OneStep(View(Draining([])), Return);
      RunThenRun(start, steps, [Return]);
      steps := steps + [Return];
    }

    /** libuv's call for a signal that it took. Nothing runs when the data points to no object. */
    method UvCallback() returns (ghost steps: seq<Step>)
      requires Tied()
      modifies this`cbQue, this`pending, this`ran, this`handle, this`cbOnClosed
      ensures ready ==>
        && Sound() && ran == old(ran) + old(cbQue) && cbQue == Queued(old(cbQue))
        && pending == (old(pending) || cbQue != [])
        && handle == (if Closes(old(cbQue)) && old(handle) == Open then Closing else old(handle))
        && Legal(old(View(Taken)), steps) && View(Polling) == Final(old(View(Taken)), steps)
      ensures !ready ==> steps == [] && unchanged(this)
    {
      steps := [];
      if ready { steps := RealProcess(); }
    }

    /** libuv's call when the handle has closed: the closed callback, then the data is taken back. */
    method OnAfterClose() returns (ghost steps: seq<Step>)
      requires Sound() && handle == Closing
      modifies this`handle, this`ready, this`uvStop
      ensures Sound() && handle == Closed && !ready && uvStop
      ensures Legal(old(View(Polling)), steps) && View(Polling) == Final(old(View(Polling)), steps)
    {
      steps := [AfterClose];
      OneStep(View(Polling), AfterClose);
      if cbOnClosed { uvStop := true; }
      handle := Closed;
      ready := false;
    }

    /** One turn of the loop: the signal is taken and the callback called. */
    method Turn() returns (ghost steps: seq<Step>)
      requires Sound() && handle == Open && pending
      modifies this`cbQue, this`pending, this`ran, this`handle, this`cbOnClosed
      ensures Sound() && ran == old(ran) + old(cbQue) && cbQue == Queued(old(cbQue))
      ensures pending == (cbQue != [])
      ensures handle == if Closes(old(cbQue)) then Closing else Open
      ensures Legal(old(View(Polling)), steps) && View(Polling) == Final(old(View(Polling)), steps)
    {
      hide Legal, Final, After, Enabled, Closes;
      ghost var before := View(Polling);
      OneStepTaken(before);
      pending := false;
      assert View(Taken) == Final(before, [Take]);
      var more := UvCallback();
      RunThenRun(before, [Take], more);
      steps := [Take] + more;
    }

    /** The loop until it sleeps or is stopped: pass after pass while it is signalled, up to the one that
        closes the handle; what that one queued stays in the queue. All of it is a run of the protocol. */
    method UvRun() returns (closed: bool, ghost steps: seq<Step>)
      requires Sound() && ready && !uvStop
      modifies this
      ensures Sound() && uvStop == closed
      ensures var r := if old(handle) == Open then Until(old(cbQue)) else Progress([], old(cbQue), true);
              closed == r.closed && ran == old(ran) + r.ran && cbQue == r.left
      ensures if closed then handle == Closed else handle == Open && !pending
      ensures Legal(old(View(Polling)), steps) && View(Polling) == Final(old(View(Polling)), steps)
    {
      hide Legal, Final, After, Enabled, Until, Closes, Queued;
      ghost var start := View(Polling);
      steps := [];
      NoStep(start);
      ghost var r := if handle == Open then Until(cbQue) else Progress([], cbQue, true);
      while handle == Open && pending
        invariant Sound() && ready && !uvStop
        invariant var now := if handle == Open then Until(cbQue) else Progress([], cbQue, true);
                  r.left == now.left && r.closed == now.closed &&
                  old(ran) + r.ran == ran + now.ran
        invariant Legal(start, steps) && View(Polling) == Final(start, steps)
        decreases Total(cbQue), handle == Open, pending
      {
        TotalOfQueued(cbQue);
        UntilStep(cbQue);
        TurnRan(old(ran), r.ran, ran, cbQue, if Closes(cbQue) then [] else Until(Queued(cbQue)).ran);
        var more := Turn();
        RunThenRun(start, steps, more);
        steps := steps + more;
      }
      if handle == Closing {
        var last := OnAfterClose();
        RunThenRun(start, steps, last);
        return true, steps + last;
      }
      UntilNothing();
      return false, steps;
    }
  }

  lemma TurnRan(start: seq<Callback>, all: seq<Callback>, ran: seq<Callback>, q: seq<Callback>, rest: seq<Callback>)
    ensures start + all == ran + (q + rest) ==> start + all == ran + q + rest
  {
  }

  /** One pass of the loop. */
  lemma UntilStep(q: seq<Callback>)
    ensures var now := if Closes(q) then Progress([], Queued(q), true) else Until(Queued(q));
            Until(q) == Progress(q + now.ran, now.left, now.closed)
  {
  }

  lemma UntilNothing()
    ensures Until([]) == Progress([], [], false)
  {
  }

  lemma OneStepTaken(s: State)
    requires s.loop == Polling && s.pending && s.handle == Open
    ensures Legal(s, [Take]) && Final(s, [Take]) == s.(pending := false, loop := Taken)
  {
    OneStep(s, Take);
  }

  lemma RunsFirst(s: State, callback: Callback, rest: seq<Callback>)
    requires s.loop == Draining([callback] + rest)
    ensures Legal(s, [RunNext])
    ensures Final(s, [RunNext]) == s.(ran := s.ran + [callback], loop := Draining(rest))
  {
    OneStep(s, RunNext);
    assert ([callback] + rest)[1..] == rest;
  }

  lemma ClosesSnoc(a: seq<Callback>, cb: Callback)
    ensures Closes(a + [cb]) <==> Closes(a) || cb.closes
  {
    if Closes(a) {
      var i :| 0 <= i < |a| && a[i].closes;
      assert (a + [cb])[i].closes;
    }
    if cb.closes { assert (a + [cb])[|a|].closes; }
  }
}
