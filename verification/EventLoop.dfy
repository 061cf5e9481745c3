/** The loop object: who may call at once, who queues, and what a run does until it is stopped. */
module EventLoop {
  import opened Common
  import opened AsyncProtocol
  import opened Callbacks = Async

  datatype Status = NotRun | Running | Stop

  /** What became of a call of run: refused, still inside libuv and waiting there, or returned. */
  datatype Ran = Refused | Sleeping | Returned

  type Thread = nat

  class EventLoop {
    const async: Callbacks.Async
    var status: Status
    var loopThreadId: Thread

    predicate Valid()
      reads this, async
    {
      async.Sound() && !async.uvStop && (status == Running <==> async.ready)
    }

    constructor ()
      ensures Valid() && status == NotRun && fresh(async) && async.ran == [] && async.cbQue == []
    {
      async := new Callbacks.Async();
      status, loopThreadId := NotRun, 0;
    }

    /** Opens the handle and runs what was queued so far, also before the handle was opened or while the loop
        was not running, with all that it queues, pass after pass; it returns after the first pass that
        closes, and leaves in the queue exactly what that pass queued. Without one it sleeps in libuv. */
    method Run(me: Thread) returns (r: Ran)
      requires Valid()
      modifies this, async
      ensures Valid() && (r == Refused <==> old(status) == Running)
      ensures r == Refused ==> async.ran == old(async.ran) && async.cbQue == old(async.cbQue) && status == Running
      ensures r != Refused ==>
              var p := Until(old(async.cbQue));
              async.ran == old(async.ran) + p.ran && async.cbQue == p.left && (r == Returned <==> p.closed)
      ensures r == Returned ==> status == Stop && async.handle == Closed
      ensures r == Sleeping ==> status == Running && loopThreadId == me && async.handle == Open && !async.pending
    {
      hide Legal, Final, Until;
      if status == NotRun || status == Stop {
        async.Init();
        loopThreadId := me;
        status := Running;
        r := Continue();
      } else {
        r := Refused;
      }
    }

    /** libuv's loop from where it slept: runs what was queued since, or finishes closing. */
    method Continue() returns (r: Ran)
      requires Valid() && status == Running
      modifies this`status, async
      ensures Valid() && r != Refused
      ensures var p := if old(async.handle) == Open then Until(old(async.cbQue))
              else Progress([], old(async.cbQue), true);
              async.ran == old(async.ran) + p.ran && async.cbQue == p.left && (r == Returned <==> p.closed)
      ensures r == Returned ==> status == Stop && async.handle == Closed
      ensures r == Sleeping ==> status == Running && async.handle == Open && !async.pending
    {
      hide Legal, Final, Until;
      var closed, steps := async.UvRun();
      async.uvStop := false;
      if closed {
        status := Stop;
        r := Returned;
      } else {
        r := Sleeping;
      }
    }

    /** Asks the loop to close: at once on its own thread, by a callback from another; refused when it is not
        running. */
    method StopLoop(me: Thread) returns (ok: bool)
      requires Valid()
      modifies async
      ensures Valid() && (ok <==> status == Running)
      ensures ok && IsRunInLoopThread(me) ==>
              async.handle == Closing && async.cbQue == old(async.cbQue) && async.ran == old(async.ran) + [Closer()]
      ensures ok && !IsRunInLoopThread(me) ==>
              async.handle == old(async.handle) && async.cbQue == old(async.cbQue) + [Closer()] &&
                async.ran == old(async.ran)
      ensures !ok ==>
              async.handle == old(async.handle) && async.cbQue == old(async.cbQue) && async.ran == old(async.ran)
    {
      if status == Running {
        var queued := RunInLoop(Some(Closer()), me);
        assert old(async.cbQue) + [] == old(async.cbQue);
        return true;
      }
      return false;
    }

    predicate IsRunInLoopThread(me: Thread)
      reads this
    {
      status == Running && me == loopThreadId
    }

    /** Calls at once on the loop's thread or when the loop has stopped, else queues; the answer says
        which. */
    method RunInLoop(func: Option<Callback>, me: Thread) returns (queued: bool)
      requires Valid()
      modifies async
      ensures Valid()
      ensures queued <==> func.Some? && !IsRunInLoopThread(me) && status != Stop
      ensures func.None? || queued ==> async.ran == old(async.ran) && async.handle == old(async.handle)
      ensures func.None? ==> async.cbQue == old(async.cbQue)
      ensures func.Some? && queued ==> async.cbQue == old(async.cbQue) + [func.value]
      ensures func.Some? && !queued ==>
              async.ran == old(async.ran) + [func.value] && async.cbQue == old(async.cbQue) + func.value.queues &&
              async.handle == if func.value.closes && old(async.handle) == Open then Closing else old(async.handle)
    {
      hide Legal, Final;
      if func.None? { return false; }
      if IsRunInLoopThread(me) || status == Stop {
        var steps := async.Call(func.value, []);
        return false;
      }
      var steps := async.RunInLoop(func.value, Polling);
      return true;
    }

    /** Always queues, so that the order of the callbacks is the order of the calls. */
    method RunInLoopEn(func: Option<Callback>) returns (ok: bool)
      requires Valid()
      modifies async
      ensures Valid() && (ok <==> func.Some?)
      ensures async.ran == old(async.ran) && async.handle == old(async.handle)
      ensures async.cbQue == old(async.cbQue) + if func.Some? then [func.value] else []
    {
      hide Legal, Final;
      if func.None? {
        assert async.cbQue + [] == async.cbQue;
        return false;
      }
      var steps := async.RunInLoop(func.value, Polling);
      return true;
    }
  }

  /** The callback of stop. */
  function Closer(): Callback {
    Callback(0, [], true)
  }

  lemma NoGenerations()
    ensures Generations([]) == []
  {
  }

  /** A run that was closed, and the run after it: together they run what one run would have, in its order, as
      far as the second one gets. */
  method RunTwice(loop: EventLoop, me: Thread) returns (first: Ran, second: Ran)
    requires loop.Valid() && loop.status != Running && Until(loop.async.cbQue).closed
    modifies loop, loop.async
    ensures first == Returned && second != Refused
    ensures loop.async.ran + Generations(loop.async.cbQue) == old(loop.async.ran) + Generations(old(loop.async.cbQue))
    ensures second == Sleeping ==> loop.async.ran == old(loop.async.ran) + Generations(old(loop.async.cbQue))
  {
    hide Until, Generations, Queued;
    ghost var q, r := loop.async.cbQue, Until(loop.async.cbQue);
    UntilIsPrefix(q);
    UntilIsPrefix(r.left);
    first := loop.Run(me);
    second := loop.Run(me);
    ghost var t := Until(r.left);
    assert old(loop.async.ran) + r.ran + t.ran + Generations(t.left) ==
           old(loop.async.ran) + (r.ran + (t.ran + Generations(t.left)));
    if second == Sleeping {
      NoGenerations();
      assert loop.async.ran + [] == loop.async.ran;
    }
  }
}
