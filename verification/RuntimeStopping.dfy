/** When a scheduler may stop, and when its answer to that is final. */
module RuntimeStopping {
  import opened Fibers
  import opened Runtime
  import opened RuntimeSafety
  import opened RuntimeTheorems

  /** `Scheduler::stopping`, once stop has been requested. */
  predicate Stopping(s: World, sc: SchedulerId) {
    sc < |s.schedulers| && s.schedulers[sc].queue == [] && s.schedulers[sc].active == 0
  }

  /** When it answers true, its threads are idle or past the decrement. */
  lemma StoppingThreads(s: World, sc: SchedulerId, t: ThreadId)
    requires Invariant(s) && Stopping(s, sc)
    requires t < |s.workers| && s.workers[t].home == sc
    ensures s.workers[t].pc.Top? || s.workers[t].pc.Counted? || s.workers[t].pc.Requeue?
  {
    assert t !in ActiveThreads(s, sc);
  }

  /** Somebody other than the threads of `sc` puts work in its queue. */
  predicate PushesFromOutside(s: World, step: Step, sc: SchedulerId)
    requires Enabled(s, step)
  {
    match step
    case Schedule(x, _, _) => x == sc
    case Fire(key) => s.slots[key].scheduler == sc
    case Notify(m) => s.semaphores[m].waiters != [] && s.semaphores[m].waiters[0].scheduler == sc
    case _ => false
  }

  ghost predicate Undisturbed(s: World, steps: seq<Step>, sc: SchedulerId)
    requires Legal(s, steps)
    decreases |steps|
  {
    steps == [] ||
    (!PushesFromOutside(s, steps[0], sc) && Undisturbed(Apply(s, steps[0]), steps[1..], sc))
  }

  /** The answer stays true whatever all threads do, as long as no new work comes from outside. */
  ghost predicate IsFinal(s: World, sc: SchedulerId) {
    forall steps :: Legal(s, steps) && Undisturbed(s, steps, sc) ==> Stopping(After(s, steps), sc)
  }

  /** The thread is about to queue its fiber again: it has seen READY, or is going to. */
  predicate WillRequeue(s: World, t: ThreadId)
    requires t < |s.workers|
  {
    var pc := s.workers[t].pc;
    pc.Requeue? || (pc.Counted? && pc.fiber < |s.states| && s.states[pc.fiber] == READY)
  }

  ghost predicate NoneWillRequeue(s: World, sc: SchedulerId) {
    forall t: ThreadId :: t < |s.workers| && s.workers[t].home == sc ==> !WillRequeue(s, t)
  }

  /** The threads of `sc` are idle, or have a fiber to settle that will not come back. */
  ghost predicate Quiet(s: World, sc: SchedulerId) {
    && Stopping(s, sc)
    && forall t: ThreadId :: t < |s.workers| && s.workers[t].home == sc ==>
         s.workers[t].pc.Top? || (s.workers[t].pc.Counted? && !WillRequeue(s, t))
  }

  /** A fiber becomes READY only by a step of the thread that runs it. */
  lemma OnlyYieldMakesReady(s: World, step: Step, f: FiberId)
    requires Enabled(s, step) && f < |Apply(s, step).states| && Apply(s, step).states[f] == READY
    ensures (f < |s.states| && s.states[f] == READY) || (step.YieldToReady? && s.workers[step.t].pc.fiber == f)
  {
  }

  /** The threads of a quiet scheduler only settle. */
  lemma QuietThreadsSettle(s: World, step: Step, sc: SchedulerId)
    requires Quiet(s, sc) && Enabled(s, step) && OfThread(step) && s.workers[step.t].home == sc
    ensures step.Settle? && s.workers[step.t].pc.Counted? && !WillRequeue(s, step.t)
  {
  }

  /** The step is one of a thread's own. */
  predicate OfThread(step: Step) {
    !step.NewFiber? && !step.Schedule? && !step.Fire? && !step.Drop? && !step.TryWait? && !step.Notify?
  }

  /** Steps of other threads, and of no thread, leave the scheduler and its threads alone. */
  lemma OthersLeaveQueue(s: World, step: Step, sc: SchedulerId)
    requires sc < |s.schedulers| && Enabled(s, step) && !PushesFromOutside(s, step, sc)
    requires OfThread(step) ==> s.workers[step.t].home != sc
    ensures var s' := Apply(s, step);
      sc < |s'.schedulers| && s'.schedulers[sc] == s.schedulers[sc]
  {
  }

  lemma OthersLeaveThreads(s: World, step: Step, sc: SchedulerId)
    requires Enabled(s, step) && (OfThread(step) ==> s.workers[step.t].home != sc)
    ensures SameThreads(s, Apply(s, step), sc)
  {
  }

  ghost predicate SameThreads(s: World, s': World, sc: SchedulerId) {
    && |s'.workers| == |s.workers|
    && forall t: ThreadId :: t < |s.workers| ==>
         s'.workers[t].home == s.workers[t].home && (s.workers[t].home == sc ==> s'.workers[t] == s.workers[t])
  }

  lemma QuietThreads(s: World, step: Step, sc: SchedulerId)
    requires Quiet(s, sc) && Enabled(s, step) && !PushesFromOutside(s, step, sc)
    ensures var s' := Apply(s, step);
      && Stopping(s', sc) && |s'.workers| == |s.workers|
      && forall t: ThreadId :: t < |s.workers| ==>
           && s'.workers[t].home == s.workers[t].home
           && (s.workers[t].home == sc ==> s'.workers[t].pc.Top? || s'.workers[t].pc == s.workers[t].pc)
  {
    if OfThread(step) && s.workers[step.t].home == sc {
      QuietThreadsSettle(s, step, sc);
    } else {
      OthersLeaveQueue(s, step, sc);
      OthersLeaveThreads(s, step, sc);
    }
  }

  lemma QuietStaysQuiet(s: World, step: Step, sc: SchedulerId)
    requires HeldOnce(s) && WorkersOk(s) && Quiet(s, sc) && Enabled(s, step) && !PushesFromOutside(s, step, sc)
    ensures Quiet(Apply(s, step), sc)
  {
    var s' := Apply(s, step);
    QuietThreads(s, step, sc);
    forall t: ThreadId | t < |s'.workers| && s'.workers[t].home == sc && !s'.workers[t].pc.Top?
      ensures s'.workers[t].pc.Counted? && !WillRequeue(s', t)
    {
      var f := s.workers[t].pc.fiber;
      assert WorkerOk(s.states, s.workers[t]);
      if f < |s'.states| && s'.states[f] == READY {
        OnlyYieldMakesReady(s, step, f);
        assert Holds(s.workers[t].pc, f) && Holds(s.workers[step.t].pc, f);
        assert false;
      }
    }
  }

  lemma {:induction false} QuietIsFinal(s: World, steps: seq<Step>, sc: SchedulerId)
    requires Invariant(s) && Quiet(s, sc) && Legal(s, steps) && Undisturbed(s, steps, sc)
    ensures Stopping(After(s, steps), sc)
    decreases |steps|
  {
    if steps != [] {
      QuietStaysQuiet(s, steps[0], sc);
      StepKeepsInvariant(s, steps[0]);
      QuietIsFinal(Apply(s, steps[0]), steps[1..], sc);
    }
  }

  /** A thread that will queue its fiber again does so in two steps of its own, or in one. */
  lemma RequeueDisturbs(s: World, t: ThreadId) returns (steps: seq<Step>)
    requires At(s, t) && WillRequeue(s, t)
    ensures Legal(s, steps) && Undisturbed(s, steps, s.workers[t].home)
    ensures !Stopping(After(s, steps), s.workers[t].home)
  {
    if s.workers[t].pc.Requeue? {
      steps := RequeueNow(s, t);
    } else {
      var more := RequeueNow(Apply(s, Settle(t)), t);
      steps := [Settle(t)] + more;
      assert steps[1..] == more;
    }
  }

  lemma RequeueNow(s: World, t: ThreadId) returns (steps: seq<Step>)
    requires CanScheduleAgain(s, t)
    ensures Legal(s, steps) && Undisturbed(s, steps, s.workers[t].home)
    ensures !Stopping(After(s, steps), s.workers[t].home)
  {
    steps := [ScheduleAgain(t)];
    var s' := Apply(s, steps[0]);
    assert steps[1..] == [] && Legal(s', []) && Undisturbed(s', [], s.workers[t].home);
  }

  /** The answer true is final if and only if none of the scheduler's threads is about to
      queue a READY fiber again, which happens after the counter is decremented. */
  lemma StoppingIsFinalExactly(s: World, sc: SchedulerId)
    requires Invariant(s) && Stopping(s, sc)
    ensures IsFinal(s, sc) <==> NoneWillRequeue(s, sc)
  {
    if NoneWillRequeue(s, sc) {
      forall t: ThreadId | t < |s.workers| && s.workers[t].home == sc
        ensures s.workers[t].pc.Top? || (s.workers[t].pc.Counted? && !WillRequeue(s, t))
      {
        StoppingThreads(s, sc, t);
      }
      forall steps | Legal(s, steps) && Undisturbed(s, steps, sc)
        ensures Stopping(After(s, steps), sc)
      {
        QuietIsFinal(s, steps, sc);
      }
    } else {
      var t: ThreadId :| t < |s.workers| && s.workers[t].home == sc && WillRequeue(s, t);
      var steps := RequeueDisturbs(s, t);
    }
  }

  /** It is not always: let the only active thread run the only work there is, a fiber that
      yields READY; three steps later the answer is true and not final. */
  lemma {:induction false} StoppingCanBeEarly(s: World, t: ThreadId)
    requires Invariant(s) && FreeToLeave(s, t)
    requires s.schedulers[s.workers[t].home] == Scheduler([], 1)
    ensures var steps := [YieldToReady(t), SwapOut(t), Decrement(t)];
      Legal(s, steps) && Stopping(After(s, steps), s.workers[t].home) && !IsFinal(After(s, steps), s.workers[t].home)
  {
    var steps := [YieldToReady(t), SwapOut(t), Decrement(t)];
    var sc := s.workers[t].home;
    YieldRunsOut(s, t);
    ReachableIsOrdered(s, steps);
    StoppingIsFinalExactly(After(s, steps), sc);
  }

  lemma {:induction false} YieldRunsOut(s: World, t: ThreadId)
    requires FreeToLeave(s, t) && s.schedulers[s.workers[t].home] == Scheduler([], 1)
    ensures var steps := [YieldToReady(t), SwapOut(t), Decrement(t)];
      && Legal(s, steps)
      && var s3 := After(s, steps);
      && Stopping(s3, s.workers[t].home) && t < |s3.workers| && s3.workers[t].home == s.workers[t].home
      && WillRequeue(s3, t)
  {
    var steps := [YieldToReady(t), SwapOut(t), Decrement(t)];
    var s1 := DoYieldToReady(s, t);
    var s2 := DoSwapOut(s1, t);
    var s3 := DoDecrement(s2, t);
    assert steps[1..] == [SwapOut(t), Decrement(t)] && steps[1..][1..] == [Decrement(t)];
    LegalOne(s2, Decrement(t));
    assert Legal(s1, steps[1..]) && After(s1, steps[1..]) == s3;
  }

  lemma {:induction false} LegalOne(s: World, step: Step)
    requires Allowed(s, step)
    ensures Legal(s, [step]) && After(s, [step]) == Apply(s, step)
  {
    assert [step][1..] == [];
  }
}
