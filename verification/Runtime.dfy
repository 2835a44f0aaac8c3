/**
 Every interleaving of worker threads, running fibers, IO deliveries and semaphore grants,
 as a transition system. A step is one region that the source runs under a lock, or one
 access to shared memory outside every lock.
 */
module Runtime {
  import opened Prelude
  import opened Fibers
  import opened Semaphores
  import opened TaskQueue
  import IoEvents

  type SlotKey = (nat, IoEvents.Event)   // file descriptor and event
  type SemaphoreId = nat

  /** Where a worker thread stands in `Scheduler::run`. `cb` tells the callback branch,
      which runs the thread's own `cb_fiber`, from the fiber branch. */
  datatype Pc =
    | Top                                     // about to lock the queue
    | Took(task: Task)                        // dequeued, nothing run yet
    | Running(fiber: FiberId, cb: bool)       // inside swapIn
    | LeavingReady(fiber: FiberId, cb: bool)  // READY stored, context not saved yet
    | LeavingDone(fiber: FiberId, cb: bool)   // TERM or EXCEPT stored, still on its stack
    | Back(fiber: FiberId, cb: bool)          // swapIn returned, counter not decremented
    | Counted(fiber: FiberId, cb: bool)       // counter decremented, state not read
    | Requeue(fiber: FiberId, cb: bool)       // READY seen, not scheduled again yet

  datatype Worker = Worker(home: SchedulerId, pc: Pc, cbFiber: Option<FiberId>)

  datatype Scheduler = Scheduler(queue: seq<Task>, active: int)

  /** Threads, schedulers, fibers and semaphores are named by their index. */
  datatype World = World(
    schedulers: seq<Scheduler>,
    workers: seq<Worker>,
    states: seq<FiberState>,
    slots: map<SlotKey, Parked>,
    semaphores: seq<Semaphore<Parked>>,
    nextTask: nat,
    consumed: set<nat>)

  // ---------------------------------------------------------------- what is where

  predicate Carries(pc: Pc, f: FiberId) {
    !pc.Top? && !pc.Took? && pc.fiber == f
  }

  predicate Holds(pc: Pc, f: FiberId) {
    Carries(pc, f) || (pc.Took? && pc.task.cont == Resume(f))
  }

  /** The thread is using the fiber's stack: its context is not saved. */
  predicate OnStack(pc: Pc, f: FiberId) {
    (pc.Running? || pc.LeavingReady? || pc.LeavingDone?) && pc.fiber == f
  }

  predicate CountsAsActive(pc: Pc) {
    pc.Took? || pc.Running? || pc.LeavingReady? || pc.LeavingDone? || pc.Back?
  }

  /** A place that can hold the right to run a fiber next. */
  datatype Place =
    | InQueue(scheduler: SchedulerId, index: nat)
    | InSlot(key: SlotKey)
    | InWaiters(semaphore: SemaphoreId, index: nat)
    | InHand(thread: ThreadId)   // taken and not yet started, or READY and not yet queued
    | InCache(thread: ThreadId)  // the blank fiber kept for the thread's next callback

  predicate Claims(s: World, p: Place, f: FiberId) {
    match p
    case InQueue(sc, i) =>
      && sc < |s.schedulers| && i < |s.schedulers[sc].queue|
      && s.schedulers[sc].queue[i].cont == Resume(f)
    case InSlot(key) =>
      key in s.slots && s.slots[key].cont == Resume(f)
    case InWaiters(m, i) =>
      && m < |s.semaphores| && i < |s.semaphores[m].waiters|
      && s.semaphores[m].waiters[i].cont == Resume(f)
    case InHand(t) =>
      && t < |s.workers| && Holds(s.workers[t].pc, f)
      && (s.workers[t].pc.Took? || (f < |s.states| && s.states[f] == READY))
    case InCache(t) =>
      && t < |s.workers| && s.workers[t].cbFiber == Some(f)
      && f < |s.states| && s.states[f] == INIT
  }

  ghost predicate Unclaimed(s: World, f: FiberId) {
    forall p :: !Claims(s, p, f)
  }

  // ---------------------------------------------------------------- steps

  datatype Step =
    | NewFiber
    | Schedule(sc: SchedulerId, cont: Continuation, thread: int)
    | Dequeue(t: ThreadId, k: nat)
    | Discard(t: ThreadId)
    | SwapIn(t: ThreadId)
    | StartCallback(t: ThreadId)
    | YieldToReady(t: ThreadId)
    | Finish(t: ThreadId, threw: bool)
    | SwapOut(t: ThreadId)
    | Decrement(t: ThreadId)
    | Settle(t: ThreadId)
    | ScheduleAgain(t: ThreadId)
    | Park(t: ThreadId, key: SlotKey, callback: Option<nat>)
    | Fire(key: SlotKey)
    | Drop(key: SlotKey)
    | Wait(t: ThreadId, m: SemaphoreId)
    | TryWait(m: SemaphoreId)
    | Notify(m: SemaphoreId)

  // Each step comes as a guard, which holds what the source checks or what its control flow
  // gives, and a function that yields the next state.

  predicate At(s: World, t: ThreadId) {
    t < |s.workers| && s.workers[t].home < |s.schedulers|
  }

  /** The locked region of `schedule`. */
  function Push(s: World, sc: SchedulerId, cont: Continuation, thread: int): World
    requires sc < |s.schedulers|
  {
    var q := s.schedulers[sc];
    s.(schedulers := s.schedulers[sc := q.(queue := q.queue + [Task(s.nextTask, cont, thread)])],
       nextTask := s.nextTask + 1)
  }

  function MovePc(s: World, t: ThreadId, pc: Pc): World
    requires t < |s.workers|
  {
    s.(workers := s.workers[t := s.workers[t].(pc := pc)])
  }

  /** The thread forgets its callback fiber if that is the one it was running. */
  function Release(s: World, t: ThreadId, cb: bool): World
    requires t < |s.workers|
  {
    var w := s.workers[t];
    s.(workers := s.workers[t := w.(pc := Top, cbFiber := if cb then None else w.cbFiber)])
  }

  function SetState(s: World, f: FiberId, st: FiberState): World
    requires f < |s.states|
  {
    s.(states := s.states[f := st])
  }

  function AddActive(s: World, sc: SchedulerId, delta: int): World
    requires sc < |s.schedulers|
  {
    var q := s.schedulers[sc];
    s.(schedulers := s.schedulers[sc := q.(active := q.active + delta)])
  }

  /** The step is the moment at which the thread finds that it may take entry `k`. Entries
      before it may be eligible by now: the thread passed them earlier. */
  predicate CanDequeue(s: World, t: ThreadId, k: nat) {
    && At(s, t) && s.workers[t].pc.Top?
    && var q := s.schedulers[s.workers[t].home].queue;
    k < |q| && Eligible(q[k], t, s.states)
  }

  function DoDequeue(s: World, t: ThreadId, k: nat): World
    requires CanDequeue(s, t, k)
  {
    var sc := s.workers[t].home;
    var q := s.schedulers[sc];
    MovePc(s.(schedulers := s.schedulers[sc := Scheduler(Without(q.queue, k), q.active + 1)]),
           t, Took(q.queue[k]))
  }

  /** A fiber was taken from the queue; `ended` is the outcome of the test on its state. */
  predicate TookFiber(s: World, t: ThreadId, ended: bool) {
    && At(s, t) && s.workers[t].pc.Took? && s.workers[t].pc.task.cont.Resume?
    && s.workers[t].pc.task.cont.fiber < |s.states|
    && Finished(s.states[s.workers[t].pc.task.cont.fiber]) == ended
  }

  function DoDiscard(s: World, t: ThreadId): World
    requires TookFiber(s, t, true)
  {
    AddActive(MovePc(s, t, Top), s.workers[t].home, -1).(
      consumed := s.consumed + {s.workers[t].pc.task.id})
  }

  function DoSwapIn(s: World, t: ThreadId): World
    requires TookFiber(s, t, false)
  {
    var task := s.workers[t].pc.task;
    MovePc(SetState(s, task.cont.fiber, EXEC), t, Running(task.cont.fiber, false)).(
      consumed := s.consumed + {task.id})
  }

  predicate CanStartCallback(s: World, t: ThreadId) {
    && At(s, t) && s.workers[t].pc.Took? && s.workers[t].pc.task.cont.Call?
    && (s.workers[t].cbFiber.Some? ==> s.workers[t].cbFiber.value < |s.states|)
  }

  /** A callback runs on the thread's cached fiber if it has one, else on a fresh one. */
  function CallbackFiber(s: World, t: ThreadId): FiberId
    requires CanStartCallback(s, t)
  {
    if s.workers[t].cbFiber.Some? then s.workers[t].cbFiber.value else |s.states|
  }

  function DoStartCallback(s: World, t: ThreadId): World
    requires CanStartCallback(s, t)
  {
    var w, f := s.workers[t], CallbackFiber(s, t);
    s.(states := if f < |s.states| then s.states[f := EXEC] else s.states + [EXEC],
       consumed := s.consumed + {w.pc.task.id},
       workers := s.workers[t := w.(pc := Running(f, true), cbFiber := Some(f))])
  }

  predicate IsRunning(s: World, t: ThreadId) {
    At(s, t) && s.workers[t].pc.Running? && s.workers[t].pc.fiber < |s.states|
  }

  function DoYieldToReady(s: World, t: ThreadId): World
    requires IsRunning(s, t)
  {
    var pc := s.workers[t].pc;
    MovePc(SetState(s, pc.fiber, READY), t, LeavingReady(pc.fiber, pc.cb))
  }

  function DoFinish(s: World, t: ThreadId, threw: bool): World
    requires IsRunning(s, t)
  {
    var pc := s.workers[t].pc;
    MovePc(SetState(s, pc.fiber, if threw then EXCEPT else TERM), t, LeavingDone(pc.fiber, pc.cb))
  }

  predicate CanSwapOut(s: World, t: ThreadId) {
    At(s, t) && (s.workers[t].pc.Running? || s.workers[t].pc.LeavingReady? || s.workers[t].pc.LeavingDone?)
  }

  function DoSwapOut(s: World, t: ThreadId): World
    requires CanSwapOut(s, t)
  {
    MovePc(s, t, Back(s.workers[t].pc.fiber, s.workers[t].pc.cb))
  }

  predicate CanDecrement(s: World, t: ThreadId) {
    At(s, t) && s.workers[t].pc.Back?
  }

  function DoDecrement(s: World, t: ThreadId): World
    requires CanDecrement(s, t)
  {
    AddActive(MovePc(s, t, Counted(s.workers[t].pc.fiber, s.workers[t].pc.cb)), s.workers[t].home, -1)
  }

  predicate CanSettle(s: World, t: ThreadId) {
    At(s, t) && s.workers[t].pc.Counted? && s.workers[t].pc.fiber < |s.states|
  }

  /** The branch on the fiber's state after it came back. */
  function DoSettle(s: World, t: ThreadId): World
    requires CanSettle(s, t)
  {
    var f, cb := s.workers[t].pc.fiber, s.workers[t].pc.cb;
    if s.states[f] == READY then
      MovePc(s, t, Requeue(f, cb))
    else if Finished(s.states[f]) then
      MovePc(if cb then SetState(s, f, INIT) else s, t, Top)
    else
      Release(SetState(s, f, HOLD), t, cb)
  }

  predicate CanScheduleAgain(s: World, t: ThreadId) {
    At(s, t) && s.workers[t].pc.Requeue?
  }

  function DoScheduleAgain(s: World, t: ThreadId): World
    requires CanScheduleAgain(s, t)
  {
    var w := s.workers[t];
    Release(Push(s, w.home, Resume(w.pc.fiber), ANY_THREAD), t, w.pc.cb)
  }

  /** The event slot keeps the callback given, or else the running fiber. */
  function DoPark(s: World, t: ThreadId, key: SlotKey, callback: Option<nat>): World
    requires IsRunning(s, t)
  {
    var w := s.workers[t];
    var cont := if callback.Some? then Call(callback.value) else Resume(w.pc.fiber);
    s.(slots := s.slots[key := Parked(w.home, cont)])
  }

  predicate CanFire(s: World, key: SlotKey) {
    key in s.slots && s.slots[key].scheduler < |s.schedulers|
  }

  function DoFire(s: World, key: SlotKey): World
    requires CanFire(s, key)
  {
    Push(s, s.slots[key].scheduler, s.slots[key].cont, ANY_THREAD).(slots := s.slots - {key})
  }

  function DoWait(s: World, t: ThreadId, m: SemaphoreId): World
    requires IsRunning(s, t) && m < |s.semaphores|
  {
    var self := Parked(s.workers[t].home, Resume(s.workers[t].pc.fiber));
    s.(semaphores := s.semaphores[m := AfterWait(s.semaphores[m], self)])
  }

  function DoTryWait(s: World, m: SemaphoreId): World
    requires m < |s.semaphores|
  {
    s.(semaphores := s.semaphores[m := AfterTryWait(s.semaphores[m])])
  }

  predicate CanNotify(s: World, m: SemaphoreId) {
    && m < |s.semaphores|
    && (s.semaphores[m].waiters != [] ==> s.semaphores[m].waiters[0].scheduler < |s.schedulers|)
  }

  function DoNotify(s: World, m: SemaphoreId): World
    requires CanNotify(s, m)
  {
    var sem := s.semaphores[m];
    (if sem.waiters == [] then s else Push(s, sem.waiters[0].scheduler, sem.waiters[0].cont, ANY_THREAD)).(
      semaphores := s.semaphores[m := AfterNotify(sem)])
  }

  predicate Enabled(s: World, step: Step) {
    match step
    case NewFiber => true
    case Schedule(sc, _, _) => sc < |s.schedulers|
    case Dequeue(t, k) => CanDequeue(s, t, k)
    case Discard(t) => TookFiber(s, t, true)
    case SwapIn(t) => TookFiber(s, t, false)
    case StartCallback(t) => CanStartCallback(s, t)
    case YieldToReady(t) => IsRunning(s, t)
    case Finish(t, _) => IsRunning(s, t)
    case SwapOut(t) => CanSwapOut(s, t)
    case Decrement(t) => CanDecrement(s, t)
    case Settle(t) => CanSettle(s, t)
    case ScheduleAgain(t) => CanScheduleAgain(s, t)
    case Park(t, key, _) => IsRunning(s, t) && key !in s.slots
    case Fire(key) => CanFire(s, key)
    case Drop(key) => key in s.slots
    case Wait(t, m) => IsRunning(s, t) && m < |s.semaphores|
    case TryWait(m) => m < |s.semaphores|
    case Notify(m) => CanNotify(s, m)
  }

  function Apply(s: World, step: Step): World
    requires Enabled(s, step)
  {
    match step
    case NewFiber => s.(states := s.states + [INIT])
    case Schedule(sc, cont, thread) => Push(s, sc, cont, thread)
    case Dequeue(t, k) => DoDequeue(s, t, k)
    case Discard(t) => DoDiscard(s, t)
    case SwapIn(t) => DoSwapIn(s, t)
    case StartCallback(t) => DoStartCallback(s, t)
    case YieldToReady(t) => DoYieldToReady(s, t)
    case Finish(t, threw) => DoFinish(s, t, threw)
    case SwapOut(t) => DoSwapOut(s, t)
    case Decrement(t) => DoDecrement(s, t)
    case Settle(t) => DoSettle(s, t)
    case ScheduleAgain(t) => DoScheduleAgain(s, t)
    case Park(t, key, callback) => DoPark(s, t, key, callback)
    case Fire(key) => DoFire(s, key)
    case Drop(key) => s.(slots := s.slots - {key})
    case Wait(t, m) => DoWait(s, t, m)
    case TryWait(m) => DoTryWait(s, m)
    case Notify(m) => DoNotify(s, m)
  }

  // ---------------------------------------------------------------- client discipline

  /** May a client schedule `f`? Nobody else is going to run it and it has not ended. */
  ghost predicate MayWake(s: World, f: FiberId) {
    Unclaimed(s, f) && f < |s.states| && s.states[f] in {INIT, HOLD, EXEC}
  }

  /** Nobody is going to resume the fiber that runs on `t`. */
  ghost predicate FreeToLeave(s: World, t: ThreadId) {
    IsRunning(s, t) && Unclaimed(s, s.workers[t].pc.fiber)
  }

  /** A fiber is resumed at most once per suspension: clients schedule a fiber only when
      nobody else is going to, and a fiber that somebody is going to resume neither parks
      itself again, nor yields READY, nor ends. */
  ghost predicate Disciplined(s: World, step: Step) {
    match step
    case Schedule(_, cont, _) => cont.Resume? ==> MayWake(s, cont.fiber)
    case YieldToReady(t) => FreeToLeave(s, t)
    case Finish(t, _) => FreeToLeave(s, t)
    case Park(t, _, callback) => callback.None? ==> FreeToLeave(s, t)
    case Wait(t, m) => m < |s.semaphores| && s.semaphores[m].free == 0 ==> FreeToLeave(s, t)
    case _ => true
  }
}
