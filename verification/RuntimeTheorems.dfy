/**
 What holds in every state that the runtime can reach, and what goes wrong without the
 client discipline.
 */
module RuntimeTheorems {
  import opened Prelude
  import opened Fibers
  import opened TaskQueue
  import opened Runtime
  import opened RuntimeSafety
  import opened RuntimeParking
  import opened Semaphores

  ghost predicate Invariant(s: World) {
    FibersOk(s) && ActiveIsExact(s) && TasksConserved(s) && PinsRespected(s) && ParkedIsAway(s)
  }

  /** Threads at the top of their loop, no fibers, nothing queued or parked. */
  ghost predicate Start(s: World) {
    && (forall t :: 0 <= t < |s.workers| ==>
          s.workers[t].home < |s.schedulers| && s.workers[t].pc.Top? && s.workers[t].cbFiber.None?)
    && (forall sc :: 0 <= sc < |s.schedulers| ==> s.schedulers[sc] == Scheduler([], 0))
    && (forall m :: 0 <= m < |s.semaphores| ==> s.semaphores[m].waiters == [])
    && s.states == [] && s.slots == map[] && s.nextTask == 0 && s.consumed == {}
  }

  /** The steps can be taken one after the other, clients keeping to the discipline. */
  ghost predicate Legal(s: World, steps: seq<Step>)
    decreases |steps|
  {
    steps == [] || (Allowed(s, steps[0]) && Legal(Apply(s, steps[0]), steps[1..]))
  }

  ghost function After(s: World, steps: seq<Step>): World
    requires Legal(s, steps)
    decreases |steps|
  {
    if steps == [] then s else After(Apply(s, steps[0]), steps[1..])
  }

  lemma StartIsOrdered(s: World)
    requires Start(s)
    ensures Invariant(s)
  {
    forall sc | 0 <= sc < |s.schedulers|
      ensures s.schedulers[sc].active == |ActiveThreads(s, sc)|
    {
      assert ActiveThreads(s, sc) == {};
    }
  }

  lemma StepKeepsInvariant(s: World, step: Step)
    requires Invariant(s) && Allowed(s, step)
    ensures Invariant(Apply(s, step))
  {
    StepKeepsFibers(s, step);
    StepKeepsActive(s, step);
    StepKeepsTasks(s, step);
    StepKeepsPins(s, step);
    StepKeepsAway(s, step);
  }

  /** Every state reached by any legal interleaving satisfies the invariant. */
  lemma {:induction false} ReachableIsOrdered(s: World, steps: seq<Step>)
    requires Invariant(s) && Legal(s, steps)
    ensures Invariant(After(s, steps))
    decreases |steps|
  {
    if steps != [] {
      StepKeepsInvariant(s, steps[0]);
      ReachableIsOrdered(Apply(s, steps[0]), steps[1..]);
    }
  }

  // ---------------------------------------------------------------- what the invariant gives

  /** No two threads are on the stack of the same fiber. */
  ghost predicate NoSharedStack(s: World) {
    forall f, t, u ::
      0 <= t < |s.workers| && 0 <= u < |s.workers| && OnStack(s.workers[t].pc, f) && OnStack(s.workers[u].pc, f) ==>
        t == u
  }

  /** `swapIn` never meets a fiber that is EXEC or whose context is still in use. */
  ghost predicate SwapInAssertionHolds(s: World, t: ThreadId) {
    TookFiber(s, t, false) ==>
      var f := s.workers[t].pc.task.cont.fiber;
      s.states[f] != EXEC && forall u :: 0 <= u < |s.workers| ==> !OnStack(s.workers[u].pc, f)
  }

  /** `reset` meets a blank fiber that nobody holds, or one that has ended. */
  ghost predicate ResetAssertionHolds(s: World, t: ThreadId) {
    && (CanStartCallback(s, t) && CallbackFiber(s, t) < |s.states| ==>
          var f := CallbackFiber(s, t);
          s.states[f] == INIT && forall u :: 0 <= u < |s.workers| ==> !Holds(s.workers[u].pc, f))
    && (IsRunning(s, t) ==> s.states[s.workers[t].pc.fiber] == EXEC)
  }

  /** A queued fiber that the worker loop skips because it is EXEC is on its way back: some
      thread carries it and has yet to store HOLD. */
  ghost predicate SkippedIsCarried(s: World, f: FiberId) {
    f < |s.states| && s.states[f] == EXEC ==>
      exists t: ThreadId :: CarriedBy(s, t, f) && ReturnsFiber(s.workers[t].pc)
  }

  predicate ReturnsFiber(pc: Pc) {
    pc.Running? || pc.Back? || pc.Counted?
  }

  /** The task is in exactly one queue entry, or in exactly one hand, or consumed. */
  ghost predicate TaskIsSomewhere(s: World, id: nat) {
    (id in s.consumed) != (exists p :: TaskAt(s, p, id) && forall q :: TaskAt(s, q, id) ==> p == q)
  }

  lemma OrderedStacks(s: World)
    requires HeldOnce(s)
    ensures NoSharedStack(s)
  {
    assert forall pc, f :: OnStack(pc, f) ==> Holds(pc, f);
  }

  lemma OrderedSwapIn(s: World, t: ThreadId)
    requires HeldOnce(s) && WorkersOk(s)
    ensures SwapInAssertionHolds(s, t)
  {
    if TookFiber(s, t, false) {
      assert WorkerOk(s.states, s.workers[t]);
      assert Holds(s.workers[t].pc, s.workers[t].pc.task.cont.fiber);
    }
  }

  lemma OrderedReset(s: World, t: ThreadId)
    requires ClaimedOnce(s) && WorkersOk(s)
    ensures ResetAssertionHolds(s, t)
  {
    if At(s, t) {
      assert WorkerOk(s.states, s.workers[t]);
      if CanStartCallback(s, t) && CallbackFiber(s, t) < |s.states| {
        var f := CallbackFiber(s, t);
        assert Claims(s, InCache(t), f);
        forall u | 0 <= u < |s.workers|
          ensures !Holds(s.workers[u].pc, f)
        {
          assert WorkerOk(s.states, s.workers[u]);
          assert !Claims(s, InHand(u), f);
        }
      }
    }
  }

  lemma OrderedSkips(s: World, f: FiberId)
    requires WorkersOk(s) && ExecIsCarried(s)
    ensures SkippedIsCarried(s, f)
  {
    if f < |s.states| && s.states[f] == EXEC {
      var t: ThreadId :| CarriedBy(s, t, f);
      assert WorkerOk(s.states, s.workers[t]);
      assert CarriedBy(s, t, f) && ReturnsFiber(s.workers[t].pc);
    }
  }

  lemma OrderedTask(s: World, id: nat)
    requires TasksConserved(s) && id < s.nextTask
    ensures TaskIsSomewhere(s, id)
  {
    assert TaskPlaced(s, id);
    if id !in s.consumed {
      var p :| TaskAt(s, p, id);
      assert forall q :: TaskAt(s, q, id) ==> p == q;
    }
  }

  /** In every interleaving: no fiber is on two stacks, even if it is scheduled again before
      it has left its own; no assertion of the fiber switch fails; no wake-up is lost behind
      an EXEC fiber; every task is in one place; counters are exact and pins are kept. */
  lemma {:induction false} EveryRunIsSafe(start: World, steps: seq<Step>)
    requires Start(start) && Legal(start, steps)
    ensures var s := After(start, steps);
      && NoSharedStack(s)
      && (forall t :: SwapInAssertionHolds(s, t) && ResetAssertionHolds(s, t))
      && (forall f :: SkippedIsCarried(s, f))
      && (forall id: nat :: id < s.nextTask ==> TaskIsSomewhere(s, id))
      && ActiveIsExact(s) && PinsRespected(s)
  {
    StartIsOrdered(start);
    ReachableIsOrdered(start, steps);
    var s := After(start, steps);
    InvariantIsSafe(s);
  }

  lemma InvariantIsSafe(s: World)
    requires Invariant(s)
    ensures NoSharedStack(s)
    ensures forall t :: SwapInAssertionHolds(s, t) && ResetAssertionHolds(s, t)
    ensures forall f :: SkippedIsCarried(s, f)
    ensures forall id: nat :: id < s.nextTask ==> TaskIsSomewhere(s, id)
  {
    OrderedStacks(s);
    forall t
      ensures SwapInAssertionHolds(s, t) && ResetAssertionHolds(s, t)
    {
      OrderedSwapIn(s, t);
      OrderedReset(s, t);
    }
    forall f
      ensures SkippedIsCarried(s, f)
    {
      OrderedSkips(s, f);
    }
    forall id: nat | id < s.nextTask
      ensures TaskIsSomewhere(s, id)
    {
      OrderedTask(s, id);
    }
  }

  /** In every reachable state, whatever the event table or a semaphore is about to hand over
      may be scheduled: they keep to the discipline that the schedulers expect of clients. */
  lemma {:induction false} HandoversAreDisciplined(start: World, steps: seq<Step>)
    requires Start(start) && Legal(start, steps)
    ensures var s := After(start, steps);
      && (forall key :: CanFire(s, key) ==>
            Disciplined(Apply(s, Drop(key)), Schedule(s.slots[key].scheduler, s.slots[key].cont, ANY_THREAD)))
      && (forall m: SemaphoreId :: CanNotify(s, m) && s.semaphores[m].waiters != [] ==>
            var first := s.semaphores[m].waiters[0];
            Disciplined(s.(semaphores := s.semaphores[m := AfterNotify(s.semaphores[m])]),
              Schedule(first.scheduler, first.cont, ANY_THREAD)))
  {
    StartIsOrdered(start);
    ReachableIsOrdered(start, steps);
    var s := After(start, steps);
    forall key | CanFire(s, key)
      ensures Disciplined(Apply(s, Drop(key)), Schedule(s.slots[key].scheduler, s.slots[key].cont, ANY_THREAD))
    {
      FireIsSchedule(s, key);
    }
    forall m: SemaphoreId | CanNotify(s, m) && s.semaphores[m].waiters != []
      ensures var first := s.semaphores[m].waiters[0];
        Disciplined(s.(semaphores := s.semaphores[m := AfterNotify(s.semaphores[m])]),
          Schedule(first.scheduler, first.cont, ANY_THREAD))
    {
      NotifyIsSchedule(s, m);
    }
  }

  // ---------------------------------------------------------------- semaphores in a run

  /** What the steps ask of semaphore `m`. */
  ghost function Asks(s: World, steps: seq<Step>, m: SemaphoreId): seq<Op<Parked>>
    requires Legal(s, steps)
    decreases |steps|
  {
    if steps == [] then [] else AskOf(s, steps[0], m) + Asks(Apply(s, steps[0]), steps[1..], m)
  }

  function AskOf(s: World, step: Step, m: SemaphoreId): (ask: seq<Op<Parked>>)
    requires Enabled(s, step)
    ensures |ask| <= 1
  {
    match step
    case Wait(t, x) =>
      if x == m then [Op.Wait(Parked(s.workers[t].home, Resume(s.workers[t].pc.fiber)))] else []
    case TryWait(x) => if x == m then [Op.TryWait] else []
    case Notify(x) => if x == m then [Op.Notify] else []
    case _ => []
  }

  /** What at most one request makes of a semaphore. */
  function AfterAsk<T>(sem: Semaphore<T>, ask: seq<Op<T>>): Semaphore<T>
    requires |ask| <= 1
  {
    if ask == [] then sem
    else
      match ask[0]
      case Wait(who) => AfterWait(sem, who)
      case TryWait => AfterTryWait(sem)
      case Notify => AfterNotify(sem)
  }

  lemma StepAsks(s: World, step: Step, m: SemaphoreId)
    requires Enabled(s, step) && m < |s.semaphores|
    ensures m < |Apply(s, step).semaphores|
    ensures Apply(s, step).semaphores[m] == AfterAsk(s.semaphores[m], AskOf(s, step, m))
  {
  }

  lemma {:induction false} RunAsks<T>(initial: nat, before: seq<Op<T>>, ask: seq<Op<T>>)
    requires |ask| <= 1
    ensures Run(initial, before + ask).sem == AfterAsk(Run(initial, before).sem, ask)
  {
    if ask == [] {
      assert before + ask == before;
    } else {
      RunMore(initial, before, ask[0]);
      assert ask == [ask[0]];
    }
  }

  lemma {:induction false} StepIsAsked(
      s: World, step: Step, m: SemaphoreId, initial: nat, before: seq<Op<Parked>>)
    requires Enabled(s, step) && m < |s.semaphores| && s.semaphores[m] == Run(initial, before).sem
    ensures m < |Apply(s, step).semaphores|
    ensures Apply(s, step).semaphores[m] == Run(initial, before + AskOf(s, step, m)).sem
  {
    StepAsks(s, step, m);
    RunAsks(initial, before, AskOf(s, step, m));
  }

  lemma {:induction false} SemaphoreFollows(
      s: World, steps: seq<Step>, m: SemaphoreId, initial: nat, before: seq<Op<Parked>>)
    requires Legal(s, steps) && m < |s.semaphores| && s.semaphores[m] == Run(initial, before).sem
    ensures m < |After(s, steps).semaphores|
    ensures After(s, steps).semaphores[m] == Run(initial, before + Asks(s, steps, m)).sem
    decreases |steps|
  {
    if steps == [] {
      assert before + Asks(s, steps, m) == before;
    } else {
      var s1, ask := Apply(s, steps[0]), AskOf(s, steps[0], m);
      StepIsAsked(s, steps[0], m, initial, before);
      SemaphoreFollows(s1, steps[1..], m, initial, before + ask);
      Regroup(before, ask, Asks(s1, steps[1..], m));
    }
  }

  /** In every interleaving a semaphore is what its waits, tries and notifications make it,
      so it is fair there too. */
  lemma {:induction false} SemaphoresAreFair(start: World, steps: seq<Step>, m: SemaphoreId)
    requires Start(start) && Legal(start, steps) && m < |start.semaphores|
    ensures m < |After(start, steps).semaphores|
    ensures var initial := start.semaphores[m].free;
      var l := Run(initial, Asks(start, steps, m));
      After(start, steps).semaphores[m] == l.sem && Fair(l, initial)
  {
    var initial, asks := start.semaphores[m].free, Asks(start, steps, m);
    SemaphoreFollows(start, steps, m, initial, []);
    assert [] + asks == asks;
    EveryRunIsFair(initial, asks);
  }

  // ---------------------------------------------------------------- without the discipline

  /** The discipline is needed: let a running fiber that is already queued yield READY, and
      the next two steps of an idle thread put it on two stacks. */
  lemma UndisciplinedYieldRunsTwice(s: World, t: ThreadId, u: ThreadId, k: nat)
    requires FibersOk(s) && IsRunning(s, t) && At(s, u) && s.workers[u].pc.Top?
    requires var q := s.schedulers[s.workers[u].home].queue;
      k < |q| && q[k].cont == Resume(s.workers[t].pc.fiber) && q[k].thread in {ANY_THREAD, u}
    ensures var f := s.workers[t].pc.fiber;
      var s1 := DoYieldToReady(s, t);
      && CanDequeue(s1, u, k)
      && var s2 := DoDequeue(s1, u, k);
      && TookFiber(s2, u, false)
      && var s3 := DoSwapIn(s2, u);
      t != u && OnStack(s3.workers[t].pc, f) && OnStack(s3.workers[u].pc, f)
  {
    assert Claims(s, InQueue(s.workers[u].home, k), s.workers[t].pc.fiber);
  }

  /** A fiber that is in a queue twice: two idle threads put it on two stacks. */
  lemma QueuedTwiceRunsTwice(s: World, t: ThreadId, u: ThreadId, i: nat, j: nat, f: FiberId)
    requires At(s, t) && At(s, u) && t != u && s.workers[t].home == s.workers[u].home
    requires s.workers[t].pc.Top? && s.workers[u].pc.Top?
    requires f < |s.states| && s.states[f] in {INIT, HOLD, READY}
    requires var q := s.schedulers[s.workers[t].home].queue;
      i < j < |q| && q[i].cont == q[j].cont == Resume(f) && q[i].thread == q[j].thread == ANY_THREAD
    ensures CanDequeue(s, t, i)
      && var s1 := DoDequeue(s, t, i);
      && CanDequeue(s1, u, j - 1)
      && var s2 := DoDequeue(s1, u, j - 1);
      && TookFiber(s2, t, false)
      && var s3 := DoSwapIn(s2, t);
      && TookFiber(s3, u, false)
      && var s4 := DoSwapIn(s3, u);
      OnStack(s4.workers[t].pc, f) && OnStack(s4.workers[u].pc, f)
  {
  }

  /** A client that schedules a fiber which is queued already puts it in the queue twice. */
  lemma UndisciplinedScheduleQueuesTwice(s: World, sc: SchedulerId, k: nat, f: FiberId)
    requires Claims(s, InQueue(sc, k), f)
    ensures !Disciplined(s, Schedule(sc, Resume(f), ANY_THREAD))
    ensures var n := |s.schedulers[sc].queue|;
      var s' := Apply(s, Schedule(sc, Resume(f), ANY_THREAD));
      k != n && Claims(s', InQueue(sc, k), f) && Claims(s', InQueue(sc, n), f)
  {
  }

  /** So does a fiber that is queued already and parks itself again, once the slot fires. By
      then it has left its stack, and is HOLD. */
  lemma UndisciplinedParkQueuesTwice(s: World, t: ThreadId, k: nat, key: SlotKey)
    requires FibersOk(s) && IsRunning(s, t) && key !in s.slots
    requires Claims(s, InQueue(s.workers[t].home, k), s.workers[t].pc.fiber)
    ensures !Disciplined(s, Park(t, key, None))
    ensures var f, sc := s.workers[t].pc.fiber, s.workers[t].home;
      var s1 := DoPark(s, t, key, None);
      && CanFire(s1, key)
      && var s2 := DoFire(s1, key);
      && CanSwapOut(s2, t)
      && var s3 := DoSwapOut(s2, t);
      && CanDecrement(s3, t)
      && var s4 := DoDecrement(s3, t);
      && CanSettle(s4, t)
      && var s5 := DoSettle(s4, t);
      var n := |s.schedulers[sc].queue|;
      s5.states[f] == HOLD && k != n && Claims(s5, InQueue(sc, k), f) && Claims(s5, InQueue(sc, n), f)
  {
    assert WorkerOk(s.states, s.workers[t]);
  }

  /** A fiber that is queued and ends: whoever takes it throws the resumption away. */
  lemma UndisciplinedFinishIsDiscarded(s: World, t: ThreadId, u: ThreadId, k: nat, threw: bool)
    requires FibersOk(s) && IsRunning(s, t) && At(s, u) && s.workers[u].pc.Top?
    requires var q := s.schedulers[s.workers[u].home].queue;
      k < |q| && q[k].cont == Resume(s.workers[t].pc.fiber) && q[k].thread in {ANY_THREAD, u}
    ensures !Disciplined(s, Finish(t, threw))
    ensures var s1 := DoFinish(s, t, threw);
      && CanDequeue(s1, u, k)
      && TookFiber(DoDequeue(s1, u, k), u, true)
  {
    assert Claims(s, InQueue(s.workers[u].home, k), s.workers[t].pc.fiber);
  }
}
