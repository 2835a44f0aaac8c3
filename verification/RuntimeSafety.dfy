/**
 What every step of the runtime keeps, and what therefore holds in every reachable state.
 */
module RuntimeSafety {
  import opened Prelude
  import opened Fibers
  import opened TaskQueue
  import opened Runtime

  // ---------------------------------------------------------------- the invariant

  /** Every scheduler named is one of ours. */
  ghost predicate HomesExist(s: World) {
    && (forall t :: 0 <= t < |s.workers| ==> s.workers[t].home < |s.schedulers|)
    && (forall key :: key in s.slots ==> s.slots[key].scheduler < |s.schedulers|)
    && (forall m, i :: 0 <= m < |s.semaphores| && 0 <= i < |s.semaphores[m].waiters| ==>
          s.semaphores[m].waiters[i].scheduler < |s.schedulers|)
  }

  /** At most one place is going to run each fiber. */
  ghost predicate ClaimedOnce(s: World) {
    forall f, p, q :: Claims(s, p, f) && Claims(s, q, f) ==> p == q
  }

  ghost predicate ClaimedIsLive(s: World) {
    forall p, f: FiberId :: Claims(s, p, f) ==> f < |s.states| && !Finished(s.states[f])
  }

  /** No two threads hold the same fiber. */
  ghost predicate HeldOnce(s: World) {
    forall f, t, u ::
      0 <= t < |s.workers| && 0 <= u < |s.workers| && Holds(s.workers[t].pc, f) && Holds(s.workers[u].pc, f) ==>
        t == u
  }

  /** The state of a thread's fiber fits the place where the thread stands. */
  predicate PcMatches(states: seq<FiberState>, pc: Pc) {
    match pc
    case Top => true
    case Took(task) =>
      task.cont.Resume? ==>
        task.cont.fiber < |states| && states[task.cont.fiber] in {INIT, HOLD, READY}
    case Running(f, _) => f < |states| && states[f] == EXEC
    case LeavingReady(f, _) => f < |states| && states[f] == READY
    case LeavingDone(f, _) => f < |states| && Finished(states[f])
    case Back(f, _) => f < |states| && states[f] in {EXEC, READY, TERM, EXCEPT}
    case Counted(f, _) => f < |states| && states[f] in {EXEC, READY, TERM, EXCEPT}
    case Requeue(f, _) => f < |states| && states[f] == READY
  }

  /** A thread's `cb_fiber` is the fiber it is running a callback on, or a blank one. */
  predicate CacheMatches(states: seq<FiberState>, pc: Pc, cache: Option<FiberId>) {
    && (!pc.Top? && !pc.Took? && pc.cb ==> cache == Some(pc.fiber))
    && (cache.Some? ==>
          && cache.value < |states|
          && ((Carries(pc, cache.value) && pc.cb) || states[cache.value] == INIT))
  }

  predicate WorkerOk(states: seq<FiberState>, w: Worker) {
    PcMatches(states, w.pc) && CacheMatches(states, w.pc, w.cbFiber)
  }

  ghost predicate WorkersOk(s: World) {
    forall t :: 0 <= t < |s.workers| ==> WorkerOk(s.states, s.workers[t])
  }

  /** A fiber marked EXEC is being carried by some thread. */
  ghost predicate ExecIsCarried(s: World) {
    forall f :: 0 <= f < |s.states| && s.states[f] == EXEC ==> exists t :: CarriedBy(s, t, f)
  }

  predicate CarriedBy(s: World, t: ThreadId, f: FiberId) {
    t < |s.workers| && Carries(s.workers[t].pc, f)
  }

  ghost predicate FibersOk(s: World) {
    && HomesExist(s)
    && ClaimedOnce(s)
    && ClaimedIsLive(s)
    && HeldOnce(s)
    && WorkersOk(s)
    && ExecIsCarried(s)
  }

  // ---------------------------------------------------------------- how claims move

  /** No new claim: whatever is claimed after was claimed before, in the same place. */
  ghost predicate OnlySettles(s: World, s': World) {
    forall p, f :: Claims(s', p, f) ==> Claims(s, p, f)
  }

  /** One new claim, on a fiber that nobody claimed. */
  ghost predicate Adds(s: World, s': World, f: FiberId, at: Place) {
    && Unclaimed(s, f)
    && forall p, g :: Claims(s', p, g) ==> Claims(s, p, g) || (p == at && g == f)
  }

  /** Claims change place, no two of them to the same one. */
  ghost predicate Moves(s: World, s': World, from: Place -> Place) {
    ComeFrom(s, s', from) && StayApart(s', from)
  }

  ghost predicate ComeFrom(s: World, s': World, from: Place -> Place) {
    forall p, f :: Claims(s', p, f) ==> Claims(s, from(p), f)
  }

  ghost predicate StayApart(s': World, from: Place -> Place) {
    forall p, q, f, g :: Claims(s', p, f) && Claims(s', q, g) && from(p) == from(q) ==> p == q
  }

  /** Fibers other than `f` keep their state, and `f` is unclaimed or live afterwards. */
  ghost predicate OnlyTouches(s: World, s': World, f: FiberId) {
    && |s.states| <= |s'.states|
    && (forall g :: 0 <= g < |s.states| && g != f ==> s'.states[g] == s.states[g])
    && ((f < |s'.states| && !Finished(s'.states[f])) || Unclaimed(s, f))
  }

  lemma SettlingKeepsClaims(s: World, s': World, f: FiberId)
    requires ClaimedOnce(s) && ClaimedIsLive(s) && OnlySettles(s, s') && OnlyTouches(s, s', f)
    ensures ClaimedOnce(s') && ClaimedIsLive(s')
  {
  }

  lemma QuietKeepsClaims(s: World, s': World)
    requires ClaimedOnce(s) && ClaimedIsLive(s) && OnlySettles(s, s') && s'.states == s.states
    ensures ClaimedOnce(s') && ClaimedIsLive(s')
  {
  }

  lemma AddingKeepsClaims(s: World, s': World, f: FiberId, at: Place)
    requires ClaimedOnce(s) && ClaimedIsLive(s) && Adds(s, s', f, at) && OnlyTouches(s, s', f)
    requires f < |s'.states| && !Finished(s'.states[f])
    ensures ClaimedOnce(s') && ClaimedIsLive(s')
  {
  }

  lemma MovingKeepsClaims(s: World, s': World, from: Place -> Place)
    requires ClaimedOnce(s) && ClaimedIsLive(s) && Moves(s, s', from) && s'.states == s.states
    ensures ClaimedOnce(s') && ClaimedIsLive(s')
  {
    forall f, p, q | Claims(s', p, f) && Claims(s', q, f)
      ensures p == q
    {
      assert Claims(s, from(p), f) && Claims(s, from(q), f);
    }
  }

  /** Where a claim stood before entry `k` of the queue went into the hand of `t`. */
  function BeforeDequeue(sc: SchedulerId, t: ThreadId, k: nat, p: Place): Place {
    if p == InHand(t) then InQueue(sc, k)
    else if p.InQueue? && p.scheduler == sc then InQueue(sc, Shift(k, p.index))
    else p
  }

  /** Where a claim stood before `source` was appended to the queue as entry `n`. */
  function BeforePush(sc: SchedulerId, n: nat, source: Place, p: Place): Place {
    if p == InQueue(sc, n) then source else p
  }

  /** As above, with the oldest waiter as the source. */
  function BeforeGrant(sc: SchedulerId, n: nat, m: SemaphoreId, p: Place): Place {
    if p == InQueue(sc, n) then InWaiters(m, 0)
    else if p.InWaiters? && p.semaphore == m then InWaiters(m, p.index + 1)
    else p
  }

  // ---------------------------------------------------------------- steps of one thread

  /** `f` is in the hand of `t`, or its blank callback fiber, or not made yet. */
  predicate OwnedBy(s: World, t: ThreadId, f: FiberId) {
    || (t < |s.workers| && Holds(s.workers[t].pc, f))
    || Claims(s, InCache(t), f)
    || f >= |s.states|
  }

  lemma OthersKeepOff(s: World, t: ThreadId, f: FiberId, u: ThreadId)
    requires ClaimedOnce(s) && HeldOnce(s) && WorkersOk(s)
    requires OwnedBy(s, t, f) && u < |s.workers| && u != t
    ensures !Holds(s.workers[u].pc, f) && s.workers[u].cbFiber != Some(f)
  {
    assert WorkerOk(s.states, s.workers[u]);
    assert t < |s.workers| ==> WorkerOk(s.states, s.workers[t]);
    assert !(Claims(s, InCache(t), f) && Claims(s, InCache(u), f));
    assert !(Claims(s, InCache(t), f) && Claims(s, InHand(u), f));
    assert !(Claims(s, InHand(t), f) && Claims(s, InCache(u), f));
  }

  /** Thread `t` moves on and touches no fiber but `f`. */
  ghost predicate Advances(s: World, s': World, t: ThreadId, f: FiberId) {
    && t < |s.workers| && |s'.workers| == |s.workers|
    && (forall u :: 0 <= u < |s.workers| && u != t ==> s'.workers[u] == s.workers[u])
    && f < |s'.states| && |s.states| <= |s'.states| <= |s.states| + 1
    && (|s.states| < |s'.states| ==> f == |s.states|)
    && (forall g :: 0 <= g < |s.states| && g != f ==> s'.states[g] == s.states[g])
    && (forall g :: Holds(s.workers[t].pc, g) || Holds(s'.workers[t].pc, g) ==> g == f)
  }

  lemma AdvanceKeepsOthers(s: World, s': World, t: ThreadId, f: FiberId, u: ThreadId)
    requires ClaimedOnce(s) && HeldOnce(s) && WorkersOk(s)
    requires OwnedBy(s, t, f) && Advances(s, s', t, f) && u < |s.workers| && u != t
    ensures WorkerOk(s'.states, s'.workers[u])
  {
    OthersKeepOff(s, t, f, u);
    assert WorkerOk(s.states, s.workers[u]);
  }

  lemma AdvanceKeepsHeldOnce(s: World, s': World, t: ThreadId, f: FiberId)
    requires ClaimedOnce(s) && HeldOnce(s) && WorkersOk(s)
    requires OwnedBy(s, t, f) && Advances(s, s', t, f)
    ensures HeldOnce(s')
  {
    forall u | 0 <= u < |s.workers| && u != t
      ensures !Holds(s'.workers[u].pc, f)
    {
      OthersKeepOff(s, t, f, u);
    }
  }

  lemma AdvanceKeepsExec(s: World, s': World, t: ThreadId, f: FiberId)
    requires ExecIsCarried(s) && Advances(s, s', t, f)
    requires s'.states[f] == EXEC ==> Carries(s'.workers[t].pc, f)
    ensures ExecIsCarried(s')
  {
    forall g | 0 <= g < |s'.states| && s'.states[g] == EXEC
      ensures exists u :: CarriedBy(s', u, g)
    {
      if g == f {
        assert CarriedBy(s', t, g);
      } else {
        var u: ThreadId :| CarriedBy(s, u, g);
        assert Holds(s.workers[u].pc, g) && u != t;
        assert CarriedBy(s', u, g);
      }
    }
  }

  lemma AdvanceKeepsThreads(s: World, s': World, t: ThreadId, f: FiberId)
    requires ClaimedOnce(s) && HeldOnce(s) && WorkersOk(s) && ExecIsCarried(s)
    requires OwnedBy(s, t, f) && Advances(s, s', t, f)
    requires WorkerOk(s'.states, s'.workers[t])
    requires s'.states[f] == EXEC ==> Carries(s'.workers[t].pc, f)
    ensures HeldOnce(s') && WorkersOk(s') && ExecIsCarried(s')
  {
    AdvanceKeepsHeldOnce(s, s', t, f);
    AdvanceKeepsExec(s, s', t, f);
    forall u | 0 <= u < |s'.workers|
      ensures WorkerOk(s'.states, s'.workers[u])
    {
      if u != t {
        AdvanceKeepsOthers(s, s', t, f, u);
      }
    }
  }

  /** No thread moves. */
  lemma IdleKeepsThreads(s: World, s': World)
    requires HeldOnce(s) && WorkersOk(s) && ExecIsCarried(s)
    requires s'.workers == s.workers && s'.states == s.states
    ensures HeldOnce(s') && WorkersOk(s') && ExecIsCarried(s')
  {
    forall f | 0 <= f < |s'.states| && s'.states[f] == EXEC
      ensures exists t :: CarriedBy(s', t, f)
    {
      var t: ThreadId :| CarriedBy(s, t, f);
      assert CarriedBy(s', t, f);
    }
  }

  // ---------------------------------------------------------------- every step keeps the fibers in order

  /** The eligible task at entry `k` names a fiber that no thread holds. */
  lemma TakenIsIdle(s: World, t: ThreadId, k: nat)
    requires ClaimedOnce(s) && ClaimedIsLive(s) && WorkersOk(s) && CanDequeue(s, t, k)
    requires s.schedulers[s.workers[t].home].queue[k].cont.Resume?
    ensures var f := s.schedulers[s.workers[t].home].queue[k].cont.fiber;
      && f < |s.states| && s.states[f] in {INIT, HOLD, READY}
      && forall u :: 0 <= u < |s.workers| ==> !Holds(s.workers[u].pc, f)
  {
    var f := s.schedulers[s.workers[t].home].queue[k].cont.fiber;
    assert Claims(s, InQueue(s.workers[t].home, k), f);
    forall u | 0 <= u < |s.workers|
      ensures !Holds(s.workers[u].pc, f)
    {
      assert WorkerOk(s.states, s.workers[u]);
      assert !Claims(s, InHand(u), f);
    }
  }

  /** Which tasks a thread can take: any that is not for another thread, a callback always and a
      fiber unless it is still executing. */
  lemma CanDequeueExactly(s: World, t: ThreadId, k: nat)
    requires t < |s.workers| && s.workers[t].home < |s.schedulers|
    ensures CanDequeue(s, t, k) <==>
      && s.workers[t].pc.Top?
      && var q := s.schedulers[s.workers[t].home].queue;
      && k < |q| && (q[k].thread == -1 || q[k].thread == t)
      && match q[k].cont
         case Call(_) => true
         case Resume(f) => f < |s.states| ==> s.states[f] != EXEC
  {
  }

  /** What the locked scan of the queue finds is a step of the runtime, at the moment at which it
      reads the state of the fiber that it takes. */
  lemma ScanIsDequeue(s: World, t: ThreadId, seen: nat -> FiberState, k: nat)
    requires At(s, t) && s.workers[t].pc.Top?
    requires IsFirstTaken(s.schedulers[s.workers[t].home].queue, t, seen, k)
    requires var cont := s.schedulers[s.workers[t].home].queue[k].cont;
      cont.Resume? && cont.fiber < |s.states| ==> seen(k) == s.states[cont.fiber]
    ensures CanDequeue(s, t, k)
    ensures var q, q' := s.schedulers[s.workers[t].home], DoDequeue(s, t, k).schedulers[s.workers[t].home];
      q'.queue == Without(q.queue, k) && q'.active == q.active + 1
  {
  }

  lemma DequeueThreads(s: World, t: ThreadId, k: nat)
    requires HeldOnce(s) && WorkersOk(s) && ExecIsCarried(s) && CanDequeue(s, t, k)
    requires var task := s.schedulers[s.workers[t].home].queue[k];
      task.cont.Resume? ==>
        && task.cont.fiber < |s.states| && s.states[task.cont.fiber] in {INIT, HOLD, READY}
        && forall u :: 0 <= u < |s.workers| ==> !Holds(s.workers[u].pc, task.cont.fiber)
    ensures var s' := DoDequeue(s, t, k);
      HeldOnce(s') && WorkersOk(s') && ExecIsCarried(s')
  {
    var s' := DoDequeue(s, t, k);
    forall f | 0 <= f < |s'.states| && s'.states[f] == EXEC
      ensures exists u :: CarriedBy(s', u, f)
    {
      var u: ThreadId :| CarriedBy(s, u, f);
      assert CarriedBy(s', u, f);
    }
    assert WorkerOk(s'.states, s.workers[t]);
  }

  lemma NewFiberKeeps(s: World)
    requires FibersOk(s)
    ensures FibersOk(Apply(s, NewFiber))
  {
    var s' := Apply(s, NewFiber);
    SettlingKeepsClaims(s, s', |s.states|);
    NewFiberThreads(s);
  }

  lemma NewFiberThreads(s: World)
    requires HeldOnce(s) && WorkersOk(s) && ExecIsCarried(s)
    ensures var s' := s.(states := s.states + [INIT]);
      HeldOnce(s') && WorkersOk(s') && ExecIsCarried(s')
  {
    var s' := s.(states := s.states + [INIT]);
    forall f | 0 <= f < |s'.states| && s'.states[f] == EXEC
      ensures exists u :: CarriedBy(s', u, f)
    {
      var u: ThreadId :| CarriedBy(s, u, f);
      assert CarriedBy(s', u, f);
    }
    forall u | 0 <= u < |s.workers|
      ensures WorkerOk(s'.states, s'.workers[u])
    {
      assert WorkerOk(s.states, s.workers[u]);
    }
  }

  lemma ScheduleKeeps(s: World, sc: SchedulerId, cont: Continuation, thread: int)
    requires FibersOk(s) && sc < |s.schedulers| && (cont.Resume? ==> MayWake(s, cont.fiber))
    ensures FibersOk(Push(s, sc, cont, thread))
  {
    var s' := Push(s, sc, cont, thread);
    if cont.Resume? {
      AddingKeepsClaims(s, s', cont.fiber, InQueue(sc, |s.schedulers[sc].queue|));
    } else {
      QuietKeepsClaims(s, s');
    }
    IdleKeepsThreads(s, s');
  }

  lemma DequeueMoves(s: World, t: ThreadId, k: nat, from: Place -> Place)
    requires CanDequeue(s, t, k) && forall p :: from(p) == BeforeDequeue(s.workers[t].home, t, k, p)
    ensures Moves(s, DoDequeue(s, t, k), from)
  {
    DequeuedComeFrom(s, t, k, from);
    DequeuedStayApart(s, t, k, from);
  }

  lemma DequeuedComeFrom(s: World, t: ThreadId, k: nat, from: Place -> Place)
    requires CanDequeue(s, t, k) && forall p :: from(p) == BeforeDequeue(s.workers[t].home, t, k, p)
    ensures ComeFrom(s, DoDequeue(s, t, k), from)
  {
  }

  lemma DequeuedStayApart(s: World, t: ThreadId, k: nat, from: Place -> Place)
    requires CanDequeue(s, t, k) && forall p :: from(p) == BeforeDequeue(s.workers[t].home, t, k, p)
    ensures StayApart(DoDequeue(s, t, k), from)
  {
  }

  lemma DequeueKeeps(s: World, t: ThreadId, k: nat)
    requires FibersOk(s) && CanDequeue(s, t, k)
    ensures FibersOk(DoDequeue(s, t, k))
  {
    var s' := DoDequeue(s, t, k);
    var from := p => BeforeDequeue(s.workers[t].home, t, k, p);
    DequeueMoves(s, t, k, from);
    MovingKeepsClaims(s, s', from);
    if s.schedulers[s.workers[t].home].queue[k].cont.Resume? {
      TakenIsIdle(s, t, k);
    }
    DequeueThreads(s, t, k);
  }

  lemma SwapInKeeps(s: World, t: ThreadId)
    requires FibersOk(s) && TookFiber(s, t, false)
    ensures FibersOk(DoSwapIn(s, t))
  {
    var s' := DoSwapIn(s, t);
    SettlingKeepsClaims(s, s', s.workers[t].pc.task.cont.fiber);
    assert WorkerOk(s.states, s.workers[t]);
    assert Claims(s, InHand(t), s.workers[t].pc.task.cont.fiber);
    assert !Claims(s, InCache(t), s.workers[t].pc.task.cont.fiber);
    AdvanceKeepsThreads(s, s', t, s.workers[t].pc.task.cont.fiber);
  }

  lemma StartCallbackKeeps(s: World, t: ThreadId)
    requires FibersOk(s) && CanStartCallback(s, t)
    ensures FibersOk(DoStartCallback(s, t))
  {
    var s' := DoStartCallback(s, t);
    SettlingKeepsClaims(s, s', CallbackFiber(s, t));
    assert WorkerOk(s.states, s.workers[t]);
    AdvanceKeepsThreads(s, s', t, CallbackFiber(s, t));
  }

  lemma YieldToReadyKeeps(s: World, t: ThreadId)
    requires FibersOk(s) && FreeToLeave(s, t)
    ensures FibersOk(DoYieldToReady(s, t))
  {
    var s' := DoYieldToReady(s, t);
    AddingKeepsClaims(s, s', s.workers[t].pc.fiber, InHand(t));
    assert WorkerOk(s.states, s.workers[t]);
    AdvanceKeepsThreads(s, s', t, s.workers[t].pc.fiber);
  }

  lemma FinishKeeps(s: World, t: ThreadId, threw: bool)
    requires FibersOk(s) && FreeToLeave(s, t)
    ensures FibersOk(DoFinish(s, t, threw))
  {
    var s' := DoFinish(s, t, threw);
    SettlingKeepsClaims(s, s', s.workers[t].pc.fiber);
    assert WorkerOk(s.states, s.workers[t]);
    AdvanceKeepsThreads(s, s', t, s.workers[t].pc.fiber);
  }

  lemma SwapOutKeeps(s: World, t: ThreadId)
    requires FibersOk(s) && CanSwapOut(s, t)
    ensures FibersOk(DoSwapOut(s, t))
  {
    var s' := DoSwapOut(s, t);
    QuietKeepsClaims(s, s');
    assert WorkerOk(s.states, s.workers[t]);
    AdvanceKeepsThreads(s, s', t, s.workers[t].pc.fiber);
  }

  lemma DecrementKeeps(s: World, t: ThreadId)
    requires FibersOk(s) && CanDecrement(s, t)
    ensures FibersOk(DoDecrement(s, t))
  {
    var s' := DoDecrement(s, t);
    QuietKeepsClaims(s, s');
    assert WorkerOk(s.states, s.workers[t]);
    AdvanceKeepsThreads(s, s', t, s.workers[t].pc.fiber);
  }

  lemma SettleKeeps(s: World, t: ThreadId)
    requires FibersOk(s) && CanSettle(s, t)
    ensures FibersOk(DoSettle(s, t))
  {
    var s' := DoSettle(s, t);
    var f := s.workers[t].pc.fiber;
    if Finished(s.states[f]) && s.workers[t].pc.cb {
      forall u | 0 <= u < |s.workers| && u != t
        ensures s.workers[u].cbFiber != Some(f)
      {
        OthersKeepOff(s, t, f, u);
      }
      AddingKeepsClaims(s, s', f, InCache(t));
    } else {
      SettlingKeepsClaims(s, s', f);
    }
    assert WorkerOk(s.states, s.workers[t]);
    AdvanceKeepsThreads(s, s', t, s.workers[t].pc.fiber);
  }

  lemma ScheduleAgainMoves(s: World, t: ThreadId, from: Place -> Place)
    requires WorkersOk(s) && CanScheduleAgain(s, t)
    requires var sc := s.workers[t].home;
      forall p :: from(p) == BeforePush(sc, |s.schedulers[sc].queue|, InHand(t), p)
    ensures Moves(s, DoScheduleAgain(s, t), from)
  {
    assert WorkerOk(s.states, s.workers[t]);
  }

  lemma ScheduleAgainKeeps(s: World, t: ThreadId)
    requires FibersOk(s) && CanScheduleAgain(s, t)
    ensures FibersOk(DoScheduleAgain(s, t))
  {
    var s' := DoScheduleAgain(s, t);
    var sc := s.workers[t].home;
    var from := p => BeforePush(sc, |s.schedulers[sc].queue|, InHand(t), p);
    ScheduleAgainMoves(s, t, from);
    MovingKeepsClaims(s, s', from);
    assert WorkerOk(s.states, s.workers[t]);
    AdvanceKeepsThreads(s, s', t, s.workers[t].pc.fiber);
  }

  lemma ParkKeeps(s: World, t: ThreadId, key: SlotKey, callback: Option<nat>)
    requires FibersOk(s) && IsRunning(s, t) && key !in s.slots && (callback.None? ==> FreeToLeave(s, t))
    ensures FibersOk(DoPark(s, t, key, callback))
  {
    var s' := DoPark(s, t, key, callback);
    assert WorkerOk(s.states, s.workers[t]);
    if callback.None? {
      AddingKeepsClaims(s, s', s.workers[t].pc.fiber, InSlot(key));
    } else {
      QuietKeepsClaims(s, s');
    }
    IdleKeepsThreads(s, s');
  }

  lemma FireKeeps(s: World, key: SlotKey)
    requires FibersOk(s) && CanFire(s, key)
    ensures FibersOk(DoFire(s, key))
  {
    var s' := DoFire(s, key);
    var sc := s.slots[key].scheduler;
    MovingKeepsClaims(s, s', p => BeforePush(sc, |s.schedulers[sc].queue|, InSlot(key), p));
    IdleKeepsThreads(s, s');
  }

  lemma DropKeeps(s: World, key: SlotKey)
    requires FibersOk(s) && key in s.slots
    ensures FibersOk(s.(slots := s.slots - {key}))
  {
    var s' := s.(slots := s.slots - {key});
    QuietKeepsClaims(s, s');
    IdleKeepsThreads(s, s');
  }

  lemma WaitKeeps(s: World, t: ThreadId, m: SemaphoreId)
    requires FibersOk(s) && IsRunning(s, t) && m < |s.semaphores| && (s.semaphores[m].free == 0 ==> FreeToLeave(s, t))
    ensures FibersOk(DoWait(s, t, m))
  {
    var s' := DoWait(s, t, m);
    assert WorkerOk(s.states, s.workers[t]);
    if s.semaphores[m].free == 0 {
      AddingKeepsClaims(s, s', s.workers[t].pc.fiber, InWaiters(m, |s.semaphores[m].waiters|));
    } else {
      QuietKeepsClaims(s, s');
    }
    IdleKeepsThreads(s, s');
  }

  lemma TryWaitKeeps(s: World, m: SemaphoreId)
    requires FibersOk(s) && m < |s.semaphores|
    ensures FibersOk(DoTryWait(s, m))
  {
    var s' := DoTryWait(s, m);
    QuietKeepsClaims(s, s');
    IdleKeepsThreads(s, s');
  }

  lemma NotifyMoves(s: World, m: SemaphoreId, from: Place -> Place)
    requires CanNotify(s, m) && s.semaphores[m].waiters != []
    requires var sc := s.semaphores[m].waiters[0].scheduler;
      forall p :: from(p) == BeforeGrant(sc, |s.schedulers[sc].queue|, m, p)
    ensures Moves(s, DoNotify(s, m), from)
  {
  }

  lemma NotifyKeeps(s: World, m: SemaphoreId)
    requires FibersOk(s) && CanNotify(s, m)
    ensures FibersOk(DoNotify(s, m))
  {
    var s' := DoNotify(s, m);
    if s.semaphores[m].waiters == [] {
      QuietKeepsClaims(s, s');
    } else {
      var sc := s.semaphores[m].waiters[0].scheduler;
      var from := p => BeforeGrant(sc, |s.schedulers[sc].queue|, m, p);
      NotifyMoves(s, m, from);
      MovingKeepsClaims(s, s', from);
    }
    IdleKeepsThreads(s, s');
  }

  /** The test for an ended fiber after a dequeue is never met. */
  lemma NothingIsDiscarded(s: World, t: ThreadId)
    requires WorkersOk(s) && At(s, t)
    ensures !TookFiber(s, t, true)
  {
    assert WorkerOk(s.states, s.workers[t]);
  }

  lemma StepKeepsFibers(s: World, step: Step)
    requires FibersOk(s) && Allowed(s, step)
    ensures FibersOk(Apply(s, step))
  {
    match step
    case NewFiber => NewFiberKeeps(s);
    case Schedule(sc, cont, thread) => ScheduleKeeps(s, sc, cont, thread);
    case Dequeue(t, k) => DequeueKeeps(s, t, k);
    case Discard(t) => NothingIsDiscarded(s, t);
    case SwapIn(t) => SwapInKeeps(s, t);
    case StartCallback(t) => StartCallbackKeeps(s, t);
    case YieldToReady(t) => YieldToReadyKeeps(s, t);
    case Finish(t, threw) => FinishKeeps(s, t, threw);
    case SwapOut(t) => SwapOutKeeps(s, t);
    case Decrement(t) => DecrementKeeps(s, t);
    case Settle(t) => SettleKeeps(s, t);
    case ScheduleAgain(t) => ScheduleAgainKeeps(s, t);
    case Park(t, key, callback) => ParkKeeps(s, t, key, callback);
    case Fire(key) => FireKeeps(s, key);
    case Drop(key) => DropKeeps(s, key);
    case Wait(t, m) => WaitKeeps(s, t, m);
    case TryWait(m) => TryWaitKeeps(s, m);
    case Notify(m) => NotifyKeeps(s, m);
  }

  ghost predicate Allowed(s: World, step: Step) {
    Enabled(s, step) && Disciplined(s, step)
  }

  // ---------------------------------------------------------------- counters and tasks

  ghost function ActiveThreads(s: World, sc: SchedulerId): set<ThreadId> {
    set t: ThreadId | t < |s.workers| && s.workers[t].home == sc && CountsAsActive(s.workers[t].pc)
  }

  /** `m_activeThreadCount` is the number of threads between dequeue and decrement. */
  ghost predicate ActiveIsExact(s: World) {
    forall sc :: 0 <= sc < |s.schedulers| ==> s.schedulers[sc].active == |ActiveThreads(s, sc)|
  }

  /** Every thread is as active as it was. */
  ghost predicate SameActivity(s: World, s': World) {
    && |s'.workers| == |s.workers| && |s'.schedulers| == |s.schedulers|
    && (forall t :: 0 <= t < |s.workers| ==>
          && s'.workers[t].home == s.workers[t].home
          && CountsAsActive(s'.workers[t].pc) == CountsAsActive(s.workers[t].pc))
    && (forall sc :: 0 <= sc < |s.schedulers| ==> s'.schedulers[sc].active == s.schedulers[sc].active)
  }

  lemma OnlyThreeStepsCount(s: World, step: Step)
    requires Enabled(s, step) && !step.Dequeue? && !step.Discard? && !step.Decrement?
    ensures SameActivity(s, Apply(s, step))
  {
  }

  lemma SameActivityCounts(s: World, s': World)
    requires ActiveIsExact(s) && SameActivity(s, s')
    ensures ActiveIsExact(s')
  {
    assert forall sc :: 0 <= sc < |s.schedulers| ==> ActiveThreads(s', sc) == ActiveThreads(s, sc);
  }

  lemma DequeueCounts(s: World, t: ThreadId, k: nat)
    requires ActiveIsExact(s) && CanDequeue(s, t, k)
    ensures ActiveIsExact(DoDequeue(s, t, k))
  {
    var s' := DoDequeue(s, t, k);
    forall sc | 0 <= sc < |s'.schedulers|
      ensures s'.schedulers[sc].active == |ActiveThreads(s', sc)|
    {
      var before := ActiveThreads(s, sc);
      assert ActiveThreads(s', sc) == if s.workers[t].home == sc then before + {t} else before;
    }
  }

  lemma LeavingCounts(s: World, s': World, t: ThreadId)
    requires ActiveIsExact(s) && At(s, t) && CountsAsActive(s.workers[t].pc)
    requires exists pc :: !CountsAsActive(pc) && s'.workers == MovePc(s, t, pc).workers
    requires s'.schedulers == AddActive(s, s.workers[t].home, -1).schedulers
    ensures ActiveIsExact(s')
  {
    forall sc | 0 <= sc < |s'.schedulers|
      ensures s'.schedulers[sc].active == |ActiveThreads(s', sc)|
    {
      var before := ActiveThreads(s, sc);
      assert ActiveThreads(s', sc) == if s.workers[t].home == sc then before - {t} else before;
    }
  }

  lemma StepKeepsActive(s: World, step: Step)
    requires ActiveIsExact(s) && Enabled(s, step)
    ensures ActiveIsExact(Apply(s, step))
  {
    match step
    case Dequeue(t, k) => DequeueCounts(s, t, k);
    case Discard(t) => LeavingCounts(s, DoDiscard(s, t), t);
    case Decrement(t) => LeavingCounts(s, DoDecrement(s, t), t);
    case _ =>
      OnlyThreeStepsCount(s, step);
      SameActivityCounts(s, Apply(s, step));
  }

  predicate TaskAt(s: World, p: Place, id: nat) {
    match p
    case InQueue(sc, i) =>
      sc < |s.schedulers| && i < |s.schedulers[sc].queue| && s.schedulers[sc].queue[i].id == id
    case InHand(t) => t < |s.workers| && s.workers[t].pc.Took? && s.workers[t].pc.task.id == id
    case _ => false
  }

  /** A task that has been accepted is in exactly one of a queue, a hand, or consumed; others are
      nowhere. */
  ghost predicate TaskPlaced(s: World, id: nat) {
    && (forall p, q :: TaskAt(s, p, id) && TaskAt(s, q, id) ==> p == q)
    && (forall p :: TaskAt(s, p, id) ==> id < s.nextTask && id !in s.consumed)
    && (id in s.consumed ==> id < s.nextTask)
    && (id < s.nextTask ==> id in s.consumed || exists p :: TaskAt(s, p, id))
  }

  ghost predicate TasksConserved(s: World) {
    forall id: nat :: TaskPlaced(s, id)
  }

  /** A pinned task is in the hand of its own thread only. */
  ghost predicate PinsRespected(s: World) {
    forall t :: 0 <= t < |s.workers| && s.workers[t].pc.Took? ==>
      s.workers[t].pc.task.thread in {ANY_THREAD, t}
  }

  lemma StepKeepsPins(s: World, step: Step)
    requires PinsRespected(s) && Enabled(s, step)
    ensures PinsRespected(Apply(s, step))
  {
  }

  /** The tasks in hand are the same, except that `gone` has put its own down. */
  ghost predicate SameHands(s: World, s': World, gone: Option<ThreadId>) {
    && |s'.workers| == |s.workers|
    && (forall t :: 0 <= t < |s.workers| && gone != Some(t) && (s.workers[t].pc.Took? || s'.workers[t].pc.Took?) ==>
          s'.workers[t].pc == s.workers[t].pc)
    && (gone.Some? ==>
          && gone.value < |s.workers|
          && s.workers[gone.value].pc.Took? && !s'.workers[gone.value].pc.Took?)
  }

  ghost predicate SameQueues(s: World, s': World) {
    && |s'.schedulers| == |s.schedulers|
    && (forall sc :: 0 <= sc < |s.schedulers| ==> s'.schedulers[sc].queue == s.schedulers[sc].queue)
    && s'.nextTask == s.nextTask
  }

  lemma StayingConserves(s: World, s': World, gone: Option<ThreadId>)
    requires TasksConserved(s) && SameHands(s, s', gone) && SameQueues(s, s')
    requires s'.consumed == if gone.Some? then s.consumed + {s.workers[gone.value].pc.task.id} else s.consumed
    ensures TasksConserved(s')
  {
    forall id: nat
      ensures TaskPlaced(s', id)
    {
      StayingKeepsTask(s, s', gone, id);
    }
  }

  lemma StayingKeepsTask(s: World, s': World, gone: Option<ThreadId>, id: nat)
    requires TasksConserved(s) && SameHands(s, s', gone) && SameQueues(s, s')
    requires s'.consumed == if gone.Some? then s.consumed + {s.workers[gone.value].pc.task.id} else s.consumed
    ensures TaskPlaced(s', id)
  {
    assert TaskPlaced(s, id);
    assert forall p :: TaskAt(s', p, id) ==> TaskAt(s, p, id) && (gone.Some? ==> p != InHand(gone.value));
    if gone.Some? {
      var its := s.workers[gone.value].pc.task.id;
      assert TaskPlaced(s, its) && TaskAt(s, InHand(gone.value), its);
    }
    if id < s'.nextTask && id !in s'.consumed {
      var p :| TaskAt(s, p, id);
      assert TaskAt(s', p, id);
    }
  }

  lemma PushConserves(s: World, s': World, sc: SchedulerId, cont: Continuation, thread: int)
    requires TasksConserved(s) && sc < |s.schedulers| && SameHands(s, s', None) && s'.consumed == s.consumed
    requires var pushed := Push(s, sc, cont, thread);
      s'.schedulers == pushed.schedulers && s'.nextTask == pushed.nextTask
    ensures TasksConserved(s')
  {
    var last := InQueue(sc, |s.schedulers[sc].queue|);
    forall id: nat
      ensures TaskPlaced(s', id)
    {
      assert TaskPlaced(s, id);
      assert forall p :: TaskAt(s', p, id) ==> TaskAt(s, p, id) || (p == last && id == s.nextTask);
      if id == s.nextTask {
        assert TaskAt(s', last, id);
      } else if id < s.nextTask && id !in s.consumed {
        var p :| TaskAt(s, p, id);
        assert TaskAt(s', p, id);
      }
    }
  }

  /** Where the task at `p` stands once entry `k` of the queue is in the hand of `t`. */
  function AfterDequeue(sc: SchedulerId, t: ThreadId, k: nat, p: Place): Place {
    if p == InQueue(sc, k) then InHand(t)
    else if p.InQueue? && p.scheduler == sc && p.index > k then InQueue(sc, p.index - 1)
    else p
  }

  lemma DequeueMovesTasks(s: World, t: ThreadId, k: nat, id: nat)
    requires CanDequeue(s, t, k)
    ensures var s', sc := DoDequeue(s, t, k), s.workers[t].home;
      && (forall p :: TaskAt(s', p, id) ==> TaskAt(s, BeforeDequeue(sc, t, k, p), id))
      && (forall p :: TaskAt(s, p, id) ==> TaskAt(s', AfterDequeue(sc, t, k, p), id))
  {
  }

  lemma DequeueConserves(s: World, t: ThreadId, k: nat)
    requires TasksConserved(s) && CanDequeue(s, t, k)
    ensures TasksConserved(DoDequeue(s, t, k))
  {
    var s', sc := DoDequeue(s, t, k), s.workers[t].home;
    forall id: nat
      ensures TaskPlaced(s', id)
    {
      assert TaskPlaced(s, id);
      DequeueMovesTasks(s, t, k, id);
      forall p, q | TaskAt(s', p, id) && TaskAt(s', q, id)
        ensures p == q
      {
        assert BeforeDequeue(sc, t, k, p) == BeforeDequeue(sc, t, k, q);
      }
      if id < s'.nextTask && id !in s'.consumed {
        var p :| TaskAt(s, p, id);
        assert TaskAt(s', AfterDequeue(sc, t, k, p), id);
      }
    }
  }

  predicate HandlesTask(step: Step) {
    || step.Schedule? || step.ScheduleAgain? || step.Fire? || step.Notify?
    || step.Dequeue? || step.SwapIn? || step.StartCallback? || step.Discard?
  }

  lemma OtherStepsLeaveTasks(s: World, step: Step)
    requires Enabled(s, step) && !HandlesTask(step)
    ensures var s' := Apply(s, step);
      SameHands(s, s', None) && SameQueues(s, s') && s'.consumed == s.consumed
  {
  }

  predicate IsPush(step: Step) {
    step.Schedule? || step.ScheduleAgain? || step.Fire? || step.Notify?
  }

  lemma PushKeepsTasks(s: World, step: Step)
    requires TasksConserved(s) && Enabled(s, step) && IsPush(step)
    ensures TasksConserved(Apply(s, step))
  {
    var s' := Apply(s, step);
    match step
    case Schedule(sc, cont, thread) => PushConserves(s, s', sc, cont, thread);
    case ScheduleAgain(t) =>
      PushConserves(s, s', s.workers[t].home, Resume(s.workers[t].pc.fiber), ANY_THREAD);
    case Fire(key) => PushConserves(s, s', s.slots[key].scheduler, s.slots[key].cont, ANY_THREAD);
    case Notify(m) =>
      if s.semaphores[m].waiters == [] {
        StayingConserves(s, s', None);
      } else {
        var next := s.semaphores[m].waiters[0];
        PushConserves(s, s', next.scheduler, next.cont, ANY_THREAD);
      }
  }

  lemma StepKeepsTasks(s: World, step: Step)
    requires TasksConserved(s) && Enabled(s, step)
    ensures TasksConserved(Apply(s, step))
  {
    if IsPush(step) {
      PushKeepsTasks(s, step);
      return;
    }
    var s' := Apply(s, step);
    match step
    case Dequeue(t, k) => DequeueConserves(s, t, k);
    case SwapIn(t) => StayingConserves(s, s', Some(t));
    case StartCallback(t) => StayingConserves(s, s', Some(t));
    case Discard(t) => StayingConserves(s, s', Some(t));
    case _ =>
      OtherStepsLeaveTasks(s, step);
      StayingConserves(s, s', None);
  }
}
