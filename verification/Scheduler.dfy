/**
 The task queue of one scheduler (Sylar/scheduler.h, Sylar/scheduler.cc): what a worker
 thread does to it while holding `m_mutex`.
 */
module TaskQueue {
  import opened Prelude
  import opened Fibers

  const ANY_THREAD: int := -1

  /** `FiberAndThread`; `id` numbers the accepted tasks so that each can be followed. */
  datatype Task = Task(id: nat, cont: Continuation, thread: int)

  /** May thread `t` take the task, if it reads `st` as the state of its fiber? A pinned task
      waits for its own thread and a fiber that is still executing is left in the queue. */
  predicate MayTake(task: Task, t: ThreadId, st: FiberState) {
    (task.thread == ANY_THREAD || task.thread == t) && !(task.cont.Resume? && st == EXEC)
  }

  /** May it take the task now? */
  predicate Eligible(task: Task, t: ThreadId, states: seq<FiberState>) {
    MayTake(task, t, if task.cont.Resume? && task.cont.fiber < |states| then states[task.cont.fiber] else HOLD)
  }

  /** Index `k` holds the first task that `t` finds it may take, when it reads `seen(i)` as
      the state of the fiber at entry `i`. The states change while the thread goes through
      the queue: no lock protects them. */
  predicate IsFirstTaken(q: seq<Task>, t: ThreadId, seen: nat -> FiberState, k: nat) {
    && k < |q|
    && MayTake(q[k], t, seen(k))
    && forall i: nat :: i < k ==> !MayTake(q[i], t, seen(i))
  }

  /** Some task is pinned to another thread. */
  predicate PinnedElsewhere(q: seq<Task>, t: ThreadId) {
    exists i :: 0 <= i < |q| && q[i].thread !in {ANY_THREAD, t}
  }

  function Without<T>(q: seq<T>, k: nat): (r: seq<T>)
    requires k < |q|
    ensures |r| == |q| - 1
    ensures forall i :: 0 <= i < |r| ==> r[i] == q[Shift(k, i)]
  {
    q[..k] + q[k + 1..]
  }

  /** Where the element now at index `i` stood before index `k` was removed. */
  function Shift(k: nat, i: nat): (j: nat)
    ensures j == if i < k then i else i + 1
  {
    if i < k then i else i + 1
  }

  class Queue {
    var fibers: seq<Task>
    var active: nat

    constructor ()
      ensures fibers == [] && active == 0
    {
      fibers := [];
      active := 0;
    }

    /** `scheduleNoLock`: an empty handle is ignored, and the answer says whether the queue
        was empty before, so that an idle thread has to be woken. */
    method ScheduleNoLock(task: Option<Task>) returns (needTickle: bool)
      modifies this`fibers
      ensures needTickle <==> old(fibers) == []
      ensures fibers == if task.Some? then old(fibers) + [task.value] else old(fibers)
    {
      needTickle := fibers == [];
      if task.Some? {
        fibers := fibers + [task.value];
      }
    }

    /** The locked region at the top of the worker loop. Another thread is to be woken when a
        task was left for it behind the one taken, or when an older one is pinned to it. */
    method Take(t: ThreadId, seen: nat -> FiberState)
      returns (task: Option<Task>, tickleMe: bool)
      modifies this
      // Nothing is taken only if every task is for another thread, or is a fiber read as EXEC.
      ensures task.None? ==>
        && fibers == old(fibers) && active == old(active)
        && (forall i: nat :: i < |fibers| ==>
              fibers[i].thread !in {ANY_THREAD, t} || (fibers[i].cont.Resume? && seen(i) == EXEC))
        && (tickleMe <==> exists i :: 0 <= i < |fibers| && fibers[i].thread !in {ANY_THREAD, t})
      // Otherwise the first one that is neither is taken.
      ensures task.Some? ==>
        && active == old(active) + 1
        && exists k: nat ::
          && k < |old(fibers)| && task.value == old(fibers)[k]
          && task.value.thread in {ANY_THREAD, t} && (task.value.cont.Call? || seen(k) != EXEC)
          && (forall i: nat :: i < k ==>
                old(fibers)[i].thread !in {ANY_THREAD, t} || (old(fibers)[i].cont.Resume? && seen(i) == EXEC))
          && fibers == old(fibers)[..k] + old(fibers)[k + 1..]
          && (tickleMe <==>
                || k + 1 < |old(fibers)|
                || exists i :: 0 <= i < k && old(fibers)[i].thread !in {ANY_THREAD, t})
    {
      task, tickleMe := None, false;
      var it: nat := 0;
      while it < |fibers|
        invariant it <= |fibers|
        invariant fibers == old(fibers) && active == old(active) && task.None?
        invariant forall i: nat :: i < it ==> !MayTake(fibers[i], t, seen(i))
        invariant tickleMe <==> PinnedElsewhere(fibers[..it], t)
      {
        var cur := fibers[it];
        assert fibers[..it + 1] == fibers[..it] + [cur];
        if cur.thread != ANY_THREAD && cur.thread != t {
          it := it + 1;
          tickleMe := true;
          continue;
        }
        if cur.cont.Resume? && seen(it) == EXEC {
          it := it + 1;
          continue;
        }
        task := Some(cur);
        fibers := Without(fibers, it);
        active := active + 1;
        tickleMe := tickleMe || it != |fibers|;
        return;
      }
      assert fibers[..it] == fibers;
    }
  }
}
