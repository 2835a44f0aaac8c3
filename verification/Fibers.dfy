/** Names shared by the scheduler, the IO event table and the fiber semaphore. */
module Fibers {

  type FiberId = nat
  type ThreadId = nat
  type SchedulerId = nat

  /** `Fiber::State` (Sylar/fiber.h). */
  datatype FiberState = INIT | HOLD | EXEC | TERM | READY | EXCEPT

  /** What a scheduler is asked to resume: a parked fiber or a plain callback. */
  datatype Continuation =
    | Resume(fiber: FiberId)
    | Call(callback: nat)

  /** A fiber that parks itself records which scheduler must resume it. */
  datatype Parked = Parked(scheduler: SchedulerId, cont: Continuation)

  predicate Finished(st: FiberState) {
    st == TERM || st == EXCEPT
  }
}
