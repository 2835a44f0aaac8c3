/**
 The event table and the fiber semaphores as clients of the schedulers. A fiber that they
 keep is away: it is leaving its stack or has left it. So what they hand over may be
 scheduled, by the rules that hold for every client.
 */
module RuntimeParking {
  import opened Prelude
  import opened Fibers
  import opened Semaphores
  import opened TaskQueue
  import opened Runtime
  import opened RuntimeSafety

  /** A slot of the event table, or a place among those who wait for a permit. */
  predicate KeepsParked(p: Place) {
    p.InSlot? || p.InWaiters?
  }

  predicate IsAway(s: World, f: FiberId) {
    f < |s.states| && s.states[f] in {EXEC, HOLD}
  }

  ghost predicate ParkedIsAway(s: World) {
    forall p, f: FiberId :: KeepsParked(p) && Claims(s, p, f) ==> IsAway(s, f)
  }

  /** Whatever is parked afterwards was parked before, perhaps further back in the line. */
  ghost predicate OnlyUnparks(s: World, s': World) {
    forall p, f: FiberId :: KeepsParked(p) && Claims(s', p, f) ==> exists q :: KeepsParked(q) && Claims(s, q, f)
  }

  lemma UnparkingKeepsAway(s: World, s': World)
    requires ParkedIsAway(s) && OnlyUnparks(s, s') && s'.states == s.states
    ensures ParkedIsAway(s')
  {
  }

  /** The slots and the waiters stay as they are, and fibers other than `f` keep their state. */
  ghost predicate Touches(s: World, s': World, f: FiberId) {
    && s'.slots == s.slots && s'.semaphores == s.semaphores && |s.states| <= |s'.states|
    && forall g :: 0 <= g < |s.states| && g != f ==> s'.states[g] == s.states[g]
  }

  lemma TouchingKeepsAway(s: World, s': World, f: FiberId)
    requires ParkedIsAway(s) && Touches(s, s', f)
    requires IsAway(s', f) || forall p :: KeepsParked(p) ==> !Claims(s, p, f)
    ensures ParkedIsAway(s')
  {
    forall p, g: FiberId | KeepsParked(p) && Claims(s', p, g)
      ensures IsAway(s', g)
    {
      assert Claims(s, p, g);
      assert IsAway(s, g);
    }
  }

  lemma SettleKeepsAway(s: World, t: ThreadId)
    requires FibersOk(s) && ParkedIsAway(s) && CanSettle(s, t)
    ensures ParkedIsAway(DoSettle(s, t))
  {
    var f := s.workers[t].pc.fiber;
    if !IsAway(DoSettle(s, t), f) {
      assert forall p :: KeepsParked(p) && Claims(s, p, f) ==> IsAway(s, f);
    }
    TouchingKeepsAway(s, DoSettle(s, t), f);
  }

  lemma ParkKeepsAway(s: World, t: ThreadId, key: SlotKey, callback: Option<nat>)
    requires FibersOk(s) && ParkedIsAway(s) && IsRunning(s, t)
    ensures ParkedIsAway(DoPark(s, t, key, callback))
  {
    var s' := DoPark(s, t, key, callback);
    assert WorkerOk(s.states, s.workers[t]);
    assert forall p, f :: KeepsParked(p) && Claims(s', p, f) && p != InSlot(key) ==> Claims(s, p, f);
    assert IsAway(s, s.workers[t].pc.fiber);
  }

  lemma WaitKeepsAway(s: World, t: ThreadId, m: SemaphoreId)
    requires FibersOk(s) && ParkedIsAway(s) && IsRunning(s, t) && m < |s.semaphores|
    ensures ParkedIsAway(DoWait(s, t, m))
  {
    var s' := DoWait(s, t, m);
    assert WorkerOk(s.states, s.workers[t]);
    var last := InWaiters(m, |s.semaphores[m].waiters|);
    assert forall p, f :: KeepsParked(p) && Claims(s', p, f) && p != last ==> Claims(s, p, f);
    assert IsAway(s, s.workers[t].pc.fiber);
  }

  lemma NotifyKeepsAway(s: World, m: SemaphoreId)
    requires ParkedIsAway(s) && CanNotify(s, m)
    ensures ParkedIsAway(DoNotify(s, m))
  {
    var s' := DoNotify(s, m);
    forall p, f: FiberId | KeepsParked(p) && Claims(s', p, f)
      ensures exists q :: KeepsParked(q) && Claims(s, q, f)
    {
      var q := if p.InWaiters? && p.semaphore == m && s.semaphores[m].waiters != []
        then InWaiters(m, p.index + 1) else p;
      assert KeepsParked(q) && Claims(s, q, f);
    }
    UnparkingKeepsAway(s, s');
  }

  /** Steps that leave every fiber's state, and park nobody. */
  predicate OnlyMoves(step: Step) {
    || step.Schedule? || step.Dequeue? || step.Discard? || step.SwapOut? || step.Decrement?
    || step.ScheduleAgain? || step.Fire? || step.Drop? || step.TryWait?
  }

  lemma MovingKeepsAway(s: World, step: Step)
    requires ParkedIsAway(s) && Enabled(s, step) && OnlyMoves(step)
    ensures ParkedIsAway(Apply(s, step))
  {
    var s' := Apply(s, step);
    assert forall p, f :: KeepsParked(p) && Claims(s', p, f) ==> Claims(s, p, f);
    UnparkingKeepsAway(s, s');
  }

  /** Every step keeps parked fibers away. */
  lemma StepKeepsAway(s: World, step: Step)
    requires FibersOk(s) && ParkedIsAway(s) && Allowed(s, step)
    ensures ParkedIsAway(Apply(s, step))
  {
    match step
    case NewFiber => TouchingKeepsAway(s, Apply(s, step), |s.states|);
    case SwapIn(t) => TouchingKeepsAway(s, DoSwapIn(s, t), s.workers[t].pc.task.cont.fiber);
    case StartCallback(t) => TouchingKeepsAway(s, DoStartCallback(s, t), CallbackFiber(s, t));
    case YieldToReady(t) => TouchingKeepsAway(s, DoYieldToReady(s, t), s.workers[t].pc.fiber);
    case Finish(t, threw) => TouchingKeepsAway(s, DoFinish(s, t, threw), s.workers[t].pc.fiber);
    case Settle(t) => SettleKeepsAway(s, t);
    case Park(t, key, callback) => ParkKeepsAway(s, t, key, callback);
    case Wait(t, m) => WaitKeepsAway(s, t, m);
    case Notify(m) => NotifyKeepsAway(s, m);
    case _ => MovingKeepsAway(s, step);
  }

  /** What is parked in one place only may be scheduled once it has been taken out. */
  lemma UnparkedMayWake(s: World, s': World, p: Place, f: FiberId)
    requires ClaimedOnce(s) && ParkedIsAway(s) && KeepsParked(p) && Claims(s, p, f)
    requires s'.states == s.states && forall q :: Claims(s', q, f) ==> exists r :: r != p && Claims(s, r, f)
    ensures MayWake(s', f)
  {
    assert IsAway(s, f);
  }

  /** A trigger is the removal of the continuation followed by a `schedule` of it, and the
      client that calls it keeps to the discipline. */
  lemma FireIsSchedule(s: World, key: SlotKey)
    requires ClaimedOnce(s) && ParkedIsAway(s) && CanFire(s, key)
    ensures var s1 := Apply(s, Drop(key));
      var wake := Schedule(s.slots[key].scheduler, s.slots[key].cont, ANY_THREAD);
      Allowed(s1, wake) && Apply(s1, wake) == Apply(s, Fire(key))
  {
    var s1, cont := Apply(s, Drop(key)), s.slots[key].cont;
    if cont.Resume? {
      assert forall q :: Claims(s1, q, cont.fiber) ==> q != InSlot(key) && Claims(s, q, cont.fiber);
      UnparkedMayWake(s, s1, InSlot(key), cont.fiber);
    }
  }

  /** So is a notification that finds somebody waiting. */
  lemma NotifyIsSchedule(s: World, m: SemaphoreId)
    requires ClaimedOnce(s) && ParkedIsAway(s) && CanNotify(s, m) && s.semaphores[m].waiters != []
    ensures var s1 := s.(semaphores := s.semaphores[m := AfterNotify(s.semaphores[m])]);
      var first := s.semaphores[m].waiters[0];
      var wake := Schedule(first.scheduler, first.cont, ANY_THREAD);
      Allowed(s1, wake) && Apply(s1, wake) == Apply(s, Step.Notify(m))
  {
    var s1 := s.(semaphores := s.semaphores[m := AfterNotify(s.semaphores[m])]);
    var cont := s.semaphores[m].waiters[0].cont;
    if cont.Resume? {
      forall q | Claims(s1, q, cont.fiber)
        ensures exists r :: r != InWaiters(m, 0) && Claims(s, r, cont.fiber)
      {
        var r := if q.InWaiters? && q.semaphore == m then InWaiters(m, q.index + 1) else q;
        assert r != InWaiters(m, 0) && Claims(s, r, cont.fiber);
      }
      UnparkedMayWake(s, s1, InWaiters(m, 0), cont.fiber);
    }
  }
}
