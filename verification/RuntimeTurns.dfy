/**
 Whole turns of the worker loop (Sylar/scheduler.cc), with nobody else in between: what a
 thread makes of a task that it takes and of the fiber that comes back to it. And no thread is
 ever stuck in the middle of a turn.
 */
module RuntimeTurns {
  import opened Prelude
  import opened Fibers
  import opened Semaphores
  import opened TaskQueue
  import opened Runtime
  import opened RuntimeSafety
  import opened RuntimeTheorems
  import opened RuntimeStopping

  /** A fiber that is taken runs; it leaves the queue, and the others keep their order. */
  lemma TakenFiberRuns(s: World, t: ThreadId, k: nat, f: FiberId)
    requires CanDequeue(s, t, k) && f < |s.states| && !Finished(s.states[f])
    requires s.schedulers[s.workers[t].home].queue[k].cont == Resume(f)
    ensures var w, q := s.workers[t], s.schedulers[s.workers[t].home];
      && var s1 := Apply(s, Dequeue(t, k));
      && Enabled(s1, SwapIn(t))
      && Apply(s1, SwapIn(t)) == s.(
           schedulers := s.schedulers[w.home := Scheduler(q.queue[..k] + q.queue[k + 1..], q.active + 1)],
           states := s.states[f := EXEC],
           consumed := s.consumed + {q.queue[k].id},
           workers := s.workers[t := w.(pc := Running(f, false))])
  {
  }

  /** So does a callback, on the blank fiber of the thread, or on a new one that it keeps. */
  lemma TakenCallbackRuns(s: World, t: ThreadId, k: nat)
    requires CanDequeue(s, t, k) && s.schedulers[s.workers[t].home].queue[k].cont.Call?
    requires s.workers[t].cbFiber.Some? ==> s.workers[t].cbFiber.value < |s.states|
    ensures var w, q := s.workers[t], s.schedulers[s.workers[t].home];
      && var f := if w.cbFiber.Some? then w.cbFiber.value else |s.states|;
      && var s1 := Apply(s, Dequeue(t, k));
      && Enabled(s1, StartCallback(t))
      && Apply(s1, StartCallback(t)) == s.(
           schedulers := s.schedulers[w.home := Scheduler(q.queue[..k] + q.queue[k + 1..], q.active + 1)],
           states := if w.cbFiber.Some? then s.states[f := EXEC] else s.states + [EXEC],
           consumed := s.consumed + {q.queue[k].id},
           workers := s.workers[t := w.(pc := Running(f, true), cbFiber := Some(f))])
  {
  }

  /** Back from a fiber, the thread first counts itself out. */
  lemma ComesBack(s: World, t: ThreadId)
    requires CanSwapOut(s, t)
    ensures var w, q := s.workers[t], s.schedulers[s.workers[t].home];
      && var s1 := Apply(s, SwapOut(t));
      && Enabled(s1, Decrement(t))
      && Apply(s1, Decrement(t)) == s.(
           schedulers := s.schedulers[w.home := q.(active := q.active - 1)],
           workers := s.workers[t := w.(pc := Counted(w.pc.fiber, w.pc.cb))])
  {
  }

  /** A fiber that has come back READY is queued. */
  lemma ReadyIsQueued(s: World, t: ThreadId)
    requires CanSettle(s, t) && s.states[s.workers[t].pc.fiber] == READY
    ensures var w, q := s.workers[t], s.schedulers[s.workers[t].home];
      && var s1 := Apply(s, Settle(t));
      && Enabled(s1, ScheduleAgain(t))
      && Apply(s1, ScheduleAgain(t)) == s.(
           schedulers := s.schedulers[w.home :=
             q.(queue := q.queue + [Task(s.nextTask, Resume(w.pc.fiber), -1)])],
           nextTask := s.nextTask + 1,
           workers := s.workers[t := w.(pc := Top, cbFiber := if w.pc.cb then None else w.cbFiber)])
  {
  }

  /** A fiber that yields READY ends up at the end of the queue, for any thread, just as if a
      client had scheduled it; the thread no longer keeps it for callbacks. */
  lemma YieldedIsQueuedAgain(s: World, t: ThreadId)
    requires IsRunning(s, t)
    ensures var w, f, q := s.workers[t], s.workers[t].pc.fiber, s.schedulers[s.workers[t].home];
      && Enabled(s, YieldToReady(t)) && var s1 := Apply(s, YieldToReady(t));
      && Enabled(s1, SwapOut(t)) && var s2 := Apply(s1, SwapOut(t));
      && Enabled(s2, Decrement(t)) && var s3 := Apply(s2, Decrement(t));
      && Enabled(s3, Settle(t)) && var s4 := Apply(s3, Settle(t));
      && Enabled(s4, ScheduleAgain(t))
      && Apply(s4, ScheduleAgain(t)) == s.(
           schedulers := s.schedulers[w.home :=
             Scheduler(q.queue + [Task(s.nextTask, Resume(f), -1)], q.active - 1)],
           nextTask := s.nextTask + 1,
           states := s.states[f := READY],
           workers := s.workers[t := w.(pc := Top, cbFiber := if w.pc.cb then None else w.cbFiber)])
  {
    var s1 := Apply(s, YieldToReady(t));
    ComesBack(s1, t);
    ReadyIsQueued(Apply(Apply(s1, SwapOut(t)), Decrement(t)), t);
  }

  /** Queueing a fiber again is a schedule for any thread, and the return to the top of the loop. */
  lemma ScheduleAgainIsSchedule(s: World, t: ThreadId)
    requires CanScheduleAgain(s, t)
    ensures var w, wake := s.workers[t], Schedule(s.workers[t].home, Resume(s.workers[t].pc.fiber), -1);
      && Enabled(s, wake)
      && var s1 := Apply(s, wake);
      Apply(s, ScheduleAgain(t)) == s1.(
        workers := s.workers[t := w.(pc := Top, cbFiber := if w.pc.cb then None else w.cbFiber)])
  {
  }

  /** A fiber that ends is done with, except that a thread keeps its own callback fiber, blank. */
  lemma EndedIsDropped(s: World, t: ThreadId, threw: bool)
    requires IsRunning(s, t)
    ensures var w, f, q := s.workers[t], s.workers[t].pc.fiber, s.schedulers[s.workers[t].home];
      && Enabled(s, Finish(t, threw)) && var s1 := Apply(s, Finish(t, threw));
      && s1.states == s.states[f := if threw then EXCEPT else TERM]
      && Enabled(s1, SwapOut(t)) && var s2 := Apply(s1, SwapOut(t));
      && Enabled(s2, Decrement(t)) && var s3 := Apply(s2, Decrement(t));
      && Enabled(s3, Settle(t))
      && Apply(s3, Settle(t)) == s.(
           schedulers := s.schedulers[w.home := q.(active := q.active - 1)],
           states := s.states[f := if w.pc.cb then INIT else if threw then EXCEPT else TERM],
           workers := s.workers[t := w.(pc := Top)])
  {
    ComesBack(Apply(s, Finish(t, threw)), t);
  }

  /** A fiber that leaves without more is suspended, and waits for somebody to schedule it. */
  lemma LeavingIsHeld(s: World, t: ThreadId)
    requires IsRunning(s, t) && s.states[s.workers[t].pc.fiber] == EXEC
    ensures var w, f, q := s.workers[t], s.workers[t].pc.fiber, s.schedulers[s.workers[t].home];
      && Enabled(s, SwapOut(t)) && var s1 := Apply(s, SwapOut(t));
      && Enabled(s1, Decrement(t)) && var s2 := Apply(s1, Decrement(t));
      && Enabled(s2, Settle(t))
      && Apply(s2, Settle(t)) == s.(
           schedulers := s.schedulers[w.home := q.(active := q.active - 1)],
           states := s.states[f := HOLD],
           workers := s.workers[t := w.(pc := Top, cbFiber := if w.pc.cb then None else w.cbFiber)])
  {
    ComesBack(s, t);
  }

  /** A fiber that parks itself, in a slot or at a semaphore without a free permit, leaves there
      that its own scheduler is to resume it, and so runs on until it leaves. */
  lemma ParkedIsSelf(s: World, t: ThreadId, key: SlotKey, m: SemaphoreId)
    requires IsRunning(s, t)
    ensures var self := Parked(s.workers[t].home, Resume(s.workers[t].pc.fiber));
      && (key !in s.slots ==>
            Enabled(s, Park(t, key, None)) && Apply(s, Park(t, key, None)) == s.(slots := s.slots[key := self]))
      && (m < |s.semaphores| && s.semaphores[m].free == 0 ==>
            && Enabled(s, Step.Wait(t, m))
            && Apply(s, Step.Wait(t, m)) == s.(semaphores := s.semaphores[m :=
                 Semaphore(0, s.semaphores[m].waiters + [self])]))
  {
  }

  // ---------------------------------------------------------------- nobody is stuck

  /** Thread `t` can do something by itself. */
  ghost predicate CanGoOn(s: World, t: ThreadId) {
    exists step :: OfThread(step) && step.t == t && Enabled(s, step)
  }

  /** In the middle of a turn a thread can always go on. */
  lemma MidTurnGoesOn(s: World, t: ThreadId)
    requires FibersOk(s) && t < |s.workers| && !s.workers[t].pc.Top?
    ensures CanGoOn(s, t)
  {
    assert WorkerOk(s.states, s.workers[t]);
    var pc := s.workers[t].pc;
    if pc.Took? && pc.task.cont.Call? {
      assert Enabled(s, StartCallback(t));
    } else if pc.Took? {
      assert Enabled(s, SwapIn(t));
    } else if pc.Back? {
      assert Enabled(s, Decrement(t));
    } else if pc.Counted? {
      assert Enabled(s, Settle(t));
    } else if pc.Requeue? {
      assert Enabled(s, ScheduleAgain(t));
    } else {
      assert Enabled(s, SwapOut(t));
    }
  }

  /** At the top of its loop it can, exactly if there is a task that is not for another thread
      and that is a callback or a fiber which nobody executes. */
  lemma IdleGoesOnExactly(s: World, t: ThreadId)
    requires t < |s.workers| && s.workers[t].home < |s.schedulers| && s.workers[t].pc.Top?
    ensures var q := s.schedulers[s.workers[t].home].queue;
      CanGoOn(s, t) <==>
      exists k :: 0 <= k < |q| && (q[k].thread == -1 || q[k].thread == t)
        && (q[k].cont.Resume? && q[k].cont.fiber < |s.states| ==> s.states[q[k].cont.fiber] != EXEC)
  {
    if CanGoOn(s, t) {
      var step :| OfThread(step) && step.t == t && Enabled(s, step);
      CanDequeueExactly(s, t, step.k);
    }
    var q := s.schedulers[s.workers[t].home].queue;
    forall k | 0 <= k < |q| && CanDequeue(s, t, k)
      ensures CanGoOn(s, t)
    {
      assert Enabled(s, Dequeue(t, k));
    }
    forall k | 0 <= k < |q|
      ensures CanDequeue(s, t, k) <==>
        && (q[k].thread == -1 || q[k].thread == t)
        && (q[k].cont.Resume? && q[k].cont.fiber < |s.states| ==> s.states[q[k].cont.fiber] != EXEC)
    {
      CanDequeueExactly(s, t, k);
    }
  }

  /** In every run, a task in a queue is never abandoned: a thread of its scheduler that it is
      meant for is in the middle of a turn and can go on, or takes it, or the task is a fiber
      that another thread has yet to let go, and that thread can go on. */
  lemma {:induction false} NoTaskIsAbandoned(start: World, steps: seq<Step>, t: ThreadId, k: nat)
    requires Start(start) && Legal(start, steps)
    requires var s := After(start, steps);
      && t < |s.workers| && s.workers[t].home < |s.schedulers|
      && k < |s.schedulers[s.workers[t].home].queue|
      && var task := s.schedulers[s.workers[t].home].queue[k];
      task.thread == -1 || task.thread == t
    ensures var s := After(start, steps);
      && var task := s.schedulers[s.workers[t].home].queue[k];
      || (!s.workers[t].pc.Top? && CanGoOn(s, t))
      || Enabled(s, Dequeue(t, k))
      || (task.cont.Resume? && exists u: ThreadId :: CarriedBy(s, u, task.cont.fiber) && u != t && CanGoOn(s, u))
  {
    StartIsOrdered(start);
    ReachableIsOrdered(start, steps);
    TaskGoesOn(After(start, steps), t, k);
  }

  lemma TaskGoesOn(s: World, t: ThreadId, k: nat)
    requires Invariant(s) && t < |s.workers| && k < |s.schedulers[s.workers[t].home].queue|
    requires var task := s.schedulers[s.workers[t].home].queue[k];
      task.thread == -1 || task.thread == t
    ensures var task := s.schedulers[s.workers[t].home].queue[k];
      || (!s.workers[t].pc.Top? && CanGoOn(s, t))
      || Enabled(s, Dequeue(t, k))
      || (task.cont.Resume? && exists u: ThreadId :: CarriedBy(s, u, task.cont.fiber) && u != t && CanGoOn(s, u))
  {
    var task := s.schedulers[s.workers[t].home].queue[k];
    if !s.workers[t].pc.Top? {
      MidTurnGoesOn(s, t);
    } else if !Enabled(s, Dequeue(t, k)) {
      OrderedSkips(s, task.cont.fiber);
      var u: ThreadId :| CarriedBy(s, u, task.cont.fiber) && ReturnsFiber(s.workers[u].pc);
      MidTurnGoesOn(s, u);
    }
  }
}
