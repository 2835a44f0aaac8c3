/**
 The event table is a client of the runtime that keeps to the discipline: each of its
 operations comes to steps of the runtime that a client is allowed, and what it hands over
 may be scheduled.
 */
module RuntimeIo {
  import opened Prelude
  import opened Fibers
  import opened TaskQueue
  import Io = IoEvents
  import opened Runtime
  import opened RuntimeSafety
  import opened RuntimeParking
  import opened RuntimeTheorems

  /** The runtime's slots are the table's. */
  ghost predicate Represents(slots: map<SlotKey, Parked>, s: Io.IoState) {
    && (forall fd: nat, e :: (fd, e) in slots <==> fd < |s.contexts| && e in s.contexts[fd].events)
    && (forall fd: nat, e :: (fd, e) in slots ==> SlotHolds(s, fd, e, slots[(fd, e)]))
  }

  predicate SlotHolds(s: Io.IoState, fd: nat, e: Io.Event, p: Parked) {
    Io.Triggerable(s, fd, e) && p == Io.ParkedIn(Io.Slot(s.contexts[fd], e))
  }

  lemma AddIsPark(w: World, s: Io.IoState, t: ThreadId, fd: nat, e: Io.Event, cb: Option<nat>)
    requires Represents(w.slots, s) && IsRunning(w, t) && fd < |s.contexts| && e !in s.contexts[fd].events
    ensures Enabled(w, Park(t, (fd, e), cb))
    ensures Represents(DoPark(w, t, (fd, e), cb).slots,
              Io.Added(s, fd, e, w.workers[t].home, w.workers[t].pc.fiber, cb))
  {
    var s' := Io.Added(s, fd, e, w.workers[t].home, w.workers[t].pc.fiber, cb);
    var slots' := DoPark(w, t, (fd, e), cb).slots;
    forall g: nat, x | (g, x) in slots'
      ensures SlotHolds(s', g, x, slots'[(g, x)])
    {
      assert (g, x) != (fd, e) ==> SlotHolds(s, g, x, w.slots[(g, x)]);
    }
  }

  /** A trigger takes the continuation out of its slot and pushes exactly that on the recorded
      scheduler's queue, which any client would be allowed then. */
  lemma TriggerIsFire(w: World, s: Io.IoState, fd: nat, e: Io.Event)
    requires FibersOk(w) && ParkedIsAway(w) && Represents(w.slots, s) && Io.Triggerable(s, fd, e)
    ensures CanFire(w, (fd, e))
    ensures Represents(DoFire(w, (fd, e)).slots, Io.Triggered(s, fd, e))
    ensures var handed := Io.Triggered(s, fd, e).handed;
      && |handed| == |s.handed| + 1
      && var p := handed[|s.handed|].1;
      var s1, wake := Apply(w, Drop((fd, e))), Schedule(p.scheduler, p.cont, ANY_THREAD);
      Allowed(s1, wake) && Apply(s1, wake) == DoFire(w, (fd, e))
  {
    FireIsSchedule(w, (fd, e));
    var s' := Io.Triggered(s, fd, e);
    var slots' := DoFire(w, (fd, e)).slots;
    assert SlotHolds(s, fd, e, w.slots[(fd, e)]);
    forall g: nat, x | (g, x) in slots'
      ensures SlotHolds(s', g, x, slots'[(g, x)])
    {
      assert SlotHolds(s, g, x, w.slots[(g, x)]);
    }
  }

  lemma DeleteIsDrop(w: World, s: Io.IoState, fd: nat, e: Io.Event)
    requires Represents(w.slots, s) && fd < |s.contexts| && e in s.contexts[fd].events
    ensures Enabled(w, Drop((fd, e)))
    ensures Represents(Apply(w, Drop((fd, e))).slots, Io.Deleted(s, fd, e))
  {
    var s' := Io.Deleted(s, fd, e);
    var slots' := Apply(w, Drop((fd, e))).slots;
    forall g: nat, x | (g, x) in slots'
      ensures SlotHolds(s', g, x, slots'[(g, x)])
    {
      assert SlotHolds(s, g, x, w.slots[(g, x)]);
    }
  }

  // ---------------------------------------------------------------- operations as steps

  lemma GrowIsNothing(w: World, s: Io.IoState, fd: nat)
    requires Represents(w.slots, s) && Io.NothingFrom(s, fd * 3 / 2)
    ensures Represents(w.slots, Io.Grown(s, fd))
  {
    forall g: nat, x | (g, x) in w.slots
      ensures SlotHolds(Io.Grown(s, fd), g, x, w.slots[(g, x)])
    {
      assert SlotHolds(s, g, x, w.slots[(g, x)]);
    }
  }

  lemma UnregisterIsNothing(w: World, s: Io.IoState, fd: nat, which: set<Io.Event>)
    requires Represents(w.slots, s) && fd < |s.contexts|
    ensures Represents(w.slots, Io.Unregistered(s, fd, which))
  {
    forall g: nat, x | (g, x) in w.slots
      ensures SlotHolds(Io.Unregistered(s, fd, which), g, x, w.slots[(g, x)])
    {
      assert SlotHolds(s, g, x, w.slots[(g, x)]);
    }
  }

  /** One step of the runtime after others. */
  lemma {:induction false} OneMore(w: World, step: Step, more: seq<Step>)
    requires Allowed(w, step) && Legal(Apply(w, step), more)
    ensures Legal(w, [step] + more) && After(w, [step] + more) == After(Apply(w, step), more)
  {
    assert ([step] + more)[1..] == more;
  }

  lemma TriggerAllIsFires(w: World, s: Io.IoState, fd: nat, which: set<Io.Event>) returns (steps: seq<Step>)
    requires Invariant(w) && Represents(w.slots, s)
    requires Io.READ in which ==> Io.Triggerable(s, fd, Io.READ)
    requires Io.WRITE in which ==> Io.Triggerable(s, fd, Io.WRITE)
    ensures Legal(w, steps) && Represents(After(w, steps).slots, Io.TriggeredAll(s, fd, which))
  {
    steps := [];
    var w1, s1 := w, s;
    if Io.READ in which {
      TriggerIsFire(w, s, fd, Io.READ);
      w1, s1 := Apply(w, Fire((fd, Io.READ))), Io.Triggered(s, fd, Io.READ);
      StepKeepsInvariant(w, Fire((fd, Io.READ)));
    }
    if Io.WRITE in which {
      TriggerIsFire(w1, s1, fd, Io.WRITE);
      steps := [Fire((fd, Io.WRITE))];
      OneMore(w1, steps[0], []);
      assert steps + [] == steps;
    }
    if Io.READ in which {
      OneMore(w, Fire((fd, Io.READ)), steps);
      steps := [Fire((fd, Io.READ))] + steps;
    }
  }

  /** The thread that calls `addEvent` runs the fiber that is to be resumed, and nobody else
      is going to resume it. */
  ghost predicate IsCaller(w: World, t: ThreadId, op: Io.Op) {
    op.Add? ==>
      && IsRunning(w, t) && op.scheduler == w.workers[t].home && op.fiber == w.workers[t].pc.fiber
      && (op.cb.None? ==> FreeToLeave(w, t))
  }

  lemma OneStep(w: World, step: Step) returns (steps: seq<Step>)
    requires Invariant(w) && Allowed(w, step)
    ensures Legal(w, steps) && After(w, steps) == Apply(w, step)
  {
    steps := [step];
    OneMore(w, step, []);
    assert [step] + [] == [step];
  }

  /** Every operation on the table is what some allowed steps of the runtime do to its slots;
      so all that holds of the runtime holds when the table is its client. */
  lemma OperationIsSteps(w: World, s: Io.IoState, t: ThreadId, op: Io.Op, s': Io.IoState) returns (steps: seq<Step>)
    requires Invariant(w) && Represents(w.slots, s) && Io.MayRun(s, op) && Io.IsStep(s, op, s') && IsCaller(w, t, op)
    ensures Legal(w, steps) && Invariant(After(w, steps)) && Represents(After(w, steps).slots, s')
  {
    steps := [];
    if s' != s {
      match op
      case Grow(fd) =>
        GrowIsNothing(w, s, fd);
      case Add(fd, e, _, _, cb, _) =>
        AddIsPark(w, s, t, fd, e, cb);
        steps := OneStep(w, Park(t, (fd, e), cb));
      case Del(fd, e, _) =>
        DeleteIsDrop(w, s, fd, e);
        steps := OneStep(w, Drop((fd, e)));
      case Cancel(fd, e, _) =>
        steps := FireIsSteps(w, s, fd, {e});
      case CancelAll(fd, _) =>
        steps := FireIsSteps(w, s, fd, s.contexts[fd].events);
      case Deliver(fd, reported, hangup, _) =>
        steps := FireIsSteps(w, s, fd, Io.Real(s.contexts[fd].events, reported, hangup));
    }
    ReachableIsOrdered(w, steps);
  }

  lemma FireIsSteps(w: World, s: Io.IoState, fd: nat, which: set<Io.Event>) returns (steps: seq<Step>)
    requires Invariant(w) && Represents(w.slots, s) && fd < |s.contexts|
    requires Io.READ in which ==> Io.Triggerable(s, fd, Io.READ)
    requires Io.WRITE in which ==> Io.Triggerable(s, fd, Io.WRITE)
    ensures Legal(w, steps) && Represents(After(w, steps).slots, Io.Fired(s, fd, which))
  {
    UnregisterIsNothing(w, s, fd, which);
    steps := TriggerAllIsFires(w, Io.Unregistered(s, fd, which), fd, which);
  }
}
