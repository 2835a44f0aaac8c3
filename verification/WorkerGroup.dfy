/** The worker group (Sylar/worker.cc), which is built on the fiber semaphore. */
module WorkerGroup {
  import opened Semaphores

  // ---------------------------------------------------------------- a group of workers

  /** Who asks the group's semaphore for a permit: a call of `schedule`, or one turn of the
      loop in `waitAll`. */
  datatype Asker = Job(id: nat) | Barrier

  /** A job is in flight from the moment it has its permit until its callback has returned.
      `early` are the jobs that had asked when `waitAll` began. */
  datatype Group = Group(
    batch: nat,
    sem: Semaphore<Asker>,
    inFlight: set<nat>,
    finished: set<nat>,
    asked: set<nat>,
    waitAllBegun: bool,
    held: nat,
    early: set<nat>)

  datatype Step =
    | Schedule(job: nat)
    | Finish(job: nat)
    | BeginWaitAll
    | WaitOnce

  function Granted(g: Group, a: Asker): Group {
    match a
    case Job(id) => g.(inFlight := g.inFlight + {id})
    case Barrier => g.(held := g.held + 1)
  }

  function Asked(g: Group, a: Asker): Group {
    var g' := g.(sem := AfterWait(g.sem, a));
    if g.sem.free > 0 then Granted(g', a) else g'
  }

  function Notified(g: Group): Group {
    var g' := g.(sem := AfterNotify(g.sem));
    if g.sem.waiters != [] then Granted(g', g.sem.waiters[0]) else g'
  }

  predicate Enabled(g: Group, step: Step) {
    match step
    case Schedule(job) => job !in g.asked
    case Finish(job) => job in g.inFlight
    case BeginWaitAll => !g.waitAllBegun
    case WaitOnce => g.waitAllBegun && g.held < g.batch && Barrier !in g.sem.waiters
  }

  function Apply(g: Group, step: Step): Group
    requires Enabled(g, step)
  {
    match step
    case Schedule(job) => Asked(g.(asked := g.asked + {job}), Job(job))
    case Finish(job) => Notified(g.(inFlight := g.inFlight - {job}, finished := g.finished + {job}))
    case BeginWaitAll => g.(waitAllBegun := true, early := g.asked)
    case WaitOnce => Asked(g, Barrier)
  }

  function Fresh(batch: nat): Group {
    Group(batch, Semaphore(batch, []), {}, {}, {}, false, 0, {})
  }

  /** `waitAll` has collected every permit. */
  predicate WaitAllReturned(g: Group) {
    g.waitAllBegun && g.held == g.batch
  }

  // ---------------------------------------------------------------- the invariant

  ghost predicate WaitersDistinct(g: Group) {
    forall i, j :: 0 <= i < j < |g.sem.waiters| ==> g.sem.waiters[i] != g.sem.waiters[j]
  }

  /** Every job that asked waits, is in flight, or has finished, and only one of these. */
  ghost predicate JobsPlaced(g: Group) {
    && g.inFlight !! g.finished
    && g.inFlight <= g.asked && g.finished <= g.asked && g.early <= g.asked
    && (forall j :: Job(j) in g.sem.waiters ==> j in g.asked && j !in g.inFlight && j !in g.finished)
    && (forall j :: j in g.asked ==> Job(j) in g.sem.waiters || j in g.inFlight || j in g.finished)
  }

  /** Waiting is first come first served, so no early job waits behind the barrier. */
  ghost predicate EarlyGoFirst(g: Group) {
    && (!g.waitAllBegun ==> g.held == 0 && Barrier !in g.sem.waiters && g.early == {})
    && (g.held > 0 ==> forall j :: j in g.early ==> Job(j) !in g.sem.waiters)
    && (forall i, k :: 0 <= i < k < |g.sem.waiters| && g.sem.waiters[i] == Barrier ==>
          g.sem.waiters[k] != Barrier && (g.sem.waiters[k].Job? ==> g.sem.waiters[k].id !in g.early))
  }

  ghost predicate Invariant(g: Group) {
    && g.sem.free + |g.inFlight| + g.held == g.batch
    && (g.sem.free > 0 ==> g.sem.waiters == [])
    && WaitersDistinct(g)
    && JobsPlaced(g)
    && EarlyGoFirst(g)
  }

  /** `g` already counts `a` among those who asked. */
  ghost predicate AskerPlaced(g: Group, a: Asker) {
    && a !in g.sem.waiters
    && (a.Job? ==>
          && a.id in g.asked && a.id !in g.inFlight && a.id !in g.finished && a.id !in g.early
          && JobsPlaced(g.(asked := g.asked - {a.id})))
    && (a.Barrier? ==> g.waitAllBegun && JobsPlaced(g))
  }

  lemma AskKeepsJobs(g: Group, a: Asker)
    requires AskerPlaced(g, a) && WaitersDistinct(g)
    requires g.sem.free > 0 ==> g.sem.waiters == []
    ensures JobsPlaced(Asked(g, a)) && WaitersDistinct(Asked(g, a))
  {
    var g' := Asked(g, a);
    assert forall x :: x in g'.sem.waiters <==> x in g.sem.waiters || (g.sem.free == 0 && x == a);
  }

  lemma AskKeepsOrder(g: Group, a: Asker)
    requires AskerPlaced(g, a) && EarlyGoFirst(g)
    requires g.sem.free > 0 ==> g.sem.waiters == []
    ensures EarlyGoFirst(Asked(g, a))
  {
    var g' := Asked(g, a);
    assert forall x :: x in g'.sem.waiters <==> x in g.sem.waiters || (g.sem.free == 0 && x == a);
  }

  lemma AskKeepsInvariant(g: Group, a: Asker)
    requires AskerPlaced(g, a) && WaitersDistinct(g) && EarlyGoFirst(g)
    requires g.sem.free + |g.inFlight| + g.held == g.batch
    requires g.sem.free > 0 ==> g.sem.waiters == []
    ensures Invariant(Asked(g, a))
  {
    AskKeepsJobs(g, a);
    AskKeepsOrder(g, a);
  }

  lemma GrantKeepsJobs(g: Group)
    requires g.sem.waiters != [] && WaitersDistinct(g) && JobsPlaced(g)
    ensures JobsPlaced(Notified(g)) && WaitersDistinct(Notified(g))
  {
    var a, g' := g.sem.waiters[0], Notified(g);
    assert forall x :: x in g.sem.waiters <==> x == a || x in g'.sem.waiters;
    assert forall x :: x in g'.sem.waiters ==> x != a;
  }

  lemma GrantKeepsOrder(g: Group)
    requires g.sem.waiters != [] && EarlyGoFirst(g)
    ensures EarlyGoFirst(Notified(g))
  {
    var g' := Notified(g);
    assert forall i :: 0 <= i < |g'.sem.waiters| ==> g'.sem.waiters[i] == g.sem.waiters[i + 1];
    if g.sem.waiters[0] == Barrier {
      forall j | j in g.early
        ensures Job(j) !in g'.sem.waiters
      {
        assert forall k :: 0 < k < |g.sem.waiters| ==> g.sem.waiters[k] != Job(j);
      }
    }
  }

  lemma GrantKeepsInvariant(g: Group)
    requires g.sem.waiters != [] && g.sem.free == 0 && |g.inFlight| + g.held + 1 == g.batch
    requires WaitersDistinct(g) && JobsPlaced(g) && EarlyGoFirst(g)
    ensures Invariant(Notified(g))
  {
    GrantKeepsJobs(g);
    GrantKeepsOrder(g);
    assert g.sem.waiters[0] in g.sem.waiters;
  }

  lemma StepKeepsInvariant(g: Group, step: Step)
    requires Invariant(g) && Enabled(g, step)
    ensures Invariant(Apply(g, step))
  {
    match step
    case Schedule(job) =>
      var g1 := g.(asked := g.asked + {job});
      assert g1.asked - {job} == g.asked;
      AskKeepsInvariant(g1, Job(job));
    case Finish(job) =>
      var g1 := g.(inFlight := g.inFlight - {job}, finished := g.finished + {job});
      if g.sem.waiters != [] {
        GrantKeepsInvariant(g1);
      }
    case BeginWaitAll =>
    case WaitOnce =>
      AskKeepsInvariant(g, Barrier);
  }

  ghost predicate IsRun(run: seq<Group>, steps: seq<Step>, batch: nat) {
    && |run| == |steps| + 1
    && run[0] == Fresh(batch)
    && forall i :: 0 <= i < |steps| ==> Enabled(run[i], steps[i]) && run[i + 1] == Apply(run[i], steps[i])
  }

  lemma {:induction false} RunsKeepInvariant(run: seq<Group>, steps: seq<Step>, batch: nat, i: nat)
    requires IsRun(run, steps, batch) && i < |run|
    ensures Invariant(run[i]) && run[i].batch == batch
  {
    if i > 0 {
      RunsKeepInvariant(run, steps, batch, i - 1);
      StepKeepsInvariant(run[i - 1], steps[i - 1]);
    }
  }

  // ---------------------------------------------------------------- as a client of its semaphore

  /** What a step asks of the semaphore. */
  function AskOf(step: Step): seq<Op<Asker>> {
    match step
    case Schedule(job) => [Wait(Job(job))]
    case Finish(_) => [Notify]
    case BeginWaitAll => []
    case WaitOnce => [Wait(Barrier)]
  }

  function Asks(steps: seq<Step>): seq<Op<Asker>> {
    if steps == [] then [] else Asks(steps[..|steps| - 1]) + AskOf(steps[|steps| - 1])
  }

  lemma AsksMore(steps: seq<Step>, i: nat)
    requires 0 < i <= |steps|
    ensures Asks(steps[..i]) == Asks(steps[..i - 1]) + AskOf(steps[i - 1])
  {
    assert steps[..i][..i - 1] == steps[..i - 1];
  }

  lemma {:induction false} StepAsks(g: Group, step: Step, batch: nat, before: seq<Op<Asker>>)
    requires Enabled(g, step) && g.sem == Run(batch, before).sem
    ensures Apply(g, step).sem == Run(batch, before + AskOf(step)).sem
  {
    if step.BeginWaitAll? {
      assert before + [] == before;
    } else {
      RunMore(batch, before, AskOf(step)[0]);
    }
  }

  lemma {:induction false} GroupFollowsSemaphore(run: seq<Group>, steps: seq<Step>, batch: nat, i: nat)
    requires IsRun(run, steps, batch) && i < |run|
    ensures run[i].sem == Run(batch, Asks(steps[..i])).sem
  {
    if i > 0 {
      GroupFollowsSemaphore(run, steps, batch, i - 1);
      AsksMore(steps, i);
      StepAsks(run[i - 1], steps[i - 1], batch, Asks(steps[..i - 1]));
    }
  }

  /** First come first served, and no permit is lost: the askers of a group wait in the order
      in which they came, a job that finishes hands its permit to the first in line who has
      not been served, and the permits in use and free are all there are. */
  lemma {:induction false} ServedInOrder(run: seq<Group>, steps: seq<Step>, batch: nat, i: nat)
    requires IsRun(run, steps, batch) && i < |run|
    ensures var l := Run(batch, Asks(steps[..i]));
      && l.line == l.resumed + run[i].sem.waiters
      && run[i].sem.free + |run[i].inFlight| + run[i].held == batch
      && (run[i].sem.free > 0 ==> l.resumed == l.line)
      && (i < |steps| && steps[i].Finish? && |l.resumed| < |l.line| ==>
            match l.line[|l.resumed|]
            case Job(id) => id in run[i + 1].inFlight && id !in run[i].inFlight
            case Barrier => run[i + 1].held == run[i].held + 1)
  {
    var l := Run(batch, Asks(steps[..i]));
    RunsKeepInvariant(run, steps, batch, i);
    GroupFollowsSemaphore(run, steps, batch, i);
    EveryRunIsFair(batch, Asks(steps[..i]));
    if |l.resumed| < |l.line| {
      assert l.line[|l.resumed|] == run[i].sem.waiters[0];
    }
  }

  /** Over every run at most `batch` jobs are in flight, and once `waitAll` has returned none
      is, and none ever will be: it keeps the permits. Every job that had asked before has
      finished, exactly if there is a permit to be had at all or nobody asked. */
  lemma WaitAllIsABarrier(run: seq<Group>, steps: seq<Step>, batch: nat, i: nat)
    requires IsRun(run, steps, batch) && i < |run|
    ensures |run[i].inFlight| <= batch
    ensures WaitAllReturned(run[i]) ==> run[i].inFlight == {} && run[i].sem.free == 0
    ensures WaitAllReturned(run[i]) ==>
      (run[i].early <= run[i].finished <==> batch > 0 || run[i].early == {})
  {
    RunsKeepInvariant(run, steps, batch, i);
    if WaitAllReturned(run[i]) && batch == 0 {
      NoPermitsNoJobs(run, steps, i);
    }
  }

  lemma {:induction false} NoPermitsNoJobs(run: seq<Group>, steps: seq<Step>, i: nat)
    requires IsRun(run, steps, 0) && i < |run|
    ensures run[i].finished == {}
  {
    if i > 0 {
      NoPermitsNoJobs(run, steps, i - 1);
      assert run[i - 1].inFlight == {} by {
        RunsKeepInvariant(run, steps, 0, i - 1);
      }
    }
  }
}
