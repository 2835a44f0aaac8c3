/** The fiber semaphore (Sylar/mutex.cc). */
module Semaphores {
  import opened Prelude
  import opened Fibers

  /** Its free permits, and who waits for one, in order of arrival. */
  datatype Semaphore<T> = Semaphore(free: nat, waiters: seq<T>)

  function AfterWait<T>(s: Semaphore<T>, who: T): Semaphore<T> {
    if s.free > 0 then s.(free := s.free - 1) else s.(waiters := s.waiters + [who])
  }

  function AfterTryWait<T>(s: Semaphore<T>): Semaphore<T> {
    if s.free > 0 then s.(free := s.free - 1) else s
  }

  function AfterNotify<T>(s: Semaphore<T>): Semaphore<T> {
    if s.waiters != [] then s.(waiters := s.waiters[1..]) else s.(free := s.free + 1)
  }

  /** `FiberSemaphore`. A waiter is the scheduler and the fiber that it must resume. */
  class FiberSemaphore {
    var concurrency: nat
    var waiters: seq<Parked>

    function State(): Semaphore<Parked>
      reads this
    {
      Semaphore(concurrency, waiters)
    }

    /** Nobody waits while a permit is free. */
    predicate Valid()
      reads this
    {
      concurrency > 0 ==> waiters == []
    }

    constructor (initial: nat)
      ensures Valid() && State() == Semaphore(initial, [])
    {
      concurrency, waiters := initial, [];
    }

    method TryWait() returns (ok: bool)
      requires Valid()
      modifies this
      ensures Valid() && State() == AfterTryWait(old(State()))
      ensures ok <==> old(concurrency) > 0
      ensures concurrency == old(concurrency) - (if ok then 1 else 0) && waiters == old(waiters)
    {
      if concurrency > 0 {
        concurrency := concurrency - 1;
        return true;
      }
      return false;
    }

    /** Answers whether the caller has to yield until somebody resumes it. */
    method Wait(self: Parked) returns (blocks: bool)
      requires Valid()
      modifies this
      ensures Valid() && State() == AfterWait(old(State()), self)
      ensures blocks <==> old(concurrency) == 0
      ensures if blocks then concurrency == 0 && waiters == old(waiters) + [self]
        else concurrency == old(concurrency) - 1 && waiters == old(waiters)
    {
      if concurrency > 0 {
        concurrency := concurrency - 1;
        return false;
      }
      waiters := waiters + [self];
      return true;
    }

    /** Resumes the waiter that has waited longest, or else frees a permit. */
    method Notify() returns (resumed: Option<Parked>)
      requires Valid()
      modifies this
      ensures Valid() && State() == AfterNotify(old(State()))
      ensures resumed == if old(waiters) == [] then None else Some(old(waiters)[0])
      ensures if resumed.Some? then waiters == old(waiters)[1..] && concurrency == old(concurrency)
        else waiters == [] && concurrency == old(concurrency) + 1
    {
      if waiters != [] {
        resumed := Some(waiters[0]);
        waiters := waiters[1..];
      } else {
        resumed := None;
        concurrency := concurrency + 1;
      }
    }
  }

  // ---------------------------------------------------------------- whole runs

  datatype Op<T> = Wait(who: T) | TryWait | Notify

  /** A semaphore with its history: `line` is everybody who ever had to wait, in order of
      arrival, `resumed` those who were resumed, in that order; `atOnce` permits were taken
      without waiting. */
  datatype Ledger<T> = Ledger(sem: Semaphore<T>, line: seq<T>, resumed: seq<T>, atOnce: nat, notifies: nat)

  function Step<T>(l: Ledger<T>, op: Op<T>): Ledger<T> {
    match op
    case Wait(who) =>
      var l' := l.(sem := AfterWait(l.sem, who));
      if l.sem.free > 0 then l'.(atOnce := l.atOnce + 1) else l'.(line := l.line + [who])
    case TryWait =>
      l.(sem := AfterTryWait(l.sem), atOnce := if l.sem.free > 0 then l.atOnce + 1 else l.atOnce)
    case Notify =>
      l.(sem := AfterNotify(l.sem), notifies := l.notifies + 1,
         resumed := if l.sem.waiters != [] then l.resumed + [l.sem.waiters[0]] else l.resumed)
  }

  function Run<T>(initial: nat, ops: seq<Op<T>>): Ledger<T> {
    if ops == [] then Ledger(Semaphore(initial, []), [], [], 0, 0)
    else Step(Run(initial, ops[..|ops| - 1]), ops[|ops| - 1])
  }

  /** Permits are conserved, nobody waits while one is free, and the n-th to be resumed is
      the n-th who had to wait. */
  predicate Fair<T(==)>(l: Ledger<T>, initial: nat) {
    && l.sem.free + l.atOnce + |l.resumed| == initial + l.notifies
    && (l.sem.free > 0 ==> l.sem.waiters == [])
    && l.line == l.resumed + l.sem.waiters
  }

  /** Over every run of waits, tries and notifications, by whomever and in whatever order. */
  lemma {:induction false} EveryRunIsFair<T>(initial: nat, ops: seq<Op<T>>)
    ensures Fair(Run(initial, ops), initial)
  {
    if ops != [] {
      EveryRunIsFair(initial, ops[..|ops| - 1]);
    }
  }

  lemma {:induction false} RunMore<T>(initial: nat, ops: seq<Op<T>>, op: Op<T>)
    ensures Run(initial, ops + [op]) == Step(Run(initial, ops), op)
  {
    assert (ops + [op])[..|ops|] == ops;
  }
}
