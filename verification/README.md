# Sylar: verified models

Dafny models of the concurrent and data-structure cores of the Sylar C++ server framework,
with proofs of what they promise. `dafny verify dfyconfig.toml` checks everything.

The files follow the system; `Prelude` holds what they share:

- **Fiber runtime.** `Fibers`, `Scheduler` (the locked task queue), `Semaphore` (the fiber
  semaphore), `Runtime` (every interleaving of worker threads, fibers, IO deliveries and
  semaphore grants as a transition system whose steps are the locked regions and the unlocked
  accesses of the source), `RuntimeSafety` (what each step keeps), `RuntimeParking` (parked
  fibers), `RuntimeTheorems` (what holds in every reachable state, and what goes wrong without
  the discipline), `RuntimeTurns` (whole turns of the worker loop), `RuntimeStopping` (when a
  scheduler may stop), `IoEvents` (the event table of the IO manager), `RuntimeIo` (the table's
  operations as steps of the runtime), `WorkerGroup`.
- **Compressed bitmap.** `Bits`, `BitmapCodec` (the run-length code), `BitmapForm` (what the
  code of a bitmap looks like), `Bitmap` (the class and its algebra), `BitmapPositions` (foreach,
  rforeach and sets of positions), `BitmapIterators`, `BitmapUnclean` (words with mark bits).
- **Byte array and messages.** `Blocks`, `ByteArray` (the linked blocks), `Integers` (varint,
  zigzag, fixed width), `ByteArrayCodec`, `Messages`.
- **Containers.** `Caches` (what least-recently-used caches promise), `CacheIndex` (list and
  hash index), `TimedLruCache`, `LruCache`, `Buckets`, `HashMap`.
- **Network.** `WebSocket` (frames), `WebSocketSession` (streams), `Url`, `Query`,
  `NameServer`.

## How the parts are modelled

The runtime is a transition system. Its clients keep to a discipline, stated as
`Runtime.Disciplined`: a fiber is resumed at most once per suspension. That the event table and
the semaphores keep to it is proved: parked fibers are EXEC or HOLD and claimed nowhere else, so
a trigger or a notification is a `schedule` that any client would be allowed
(`HandoversAreDisciplined`), and every operation on the table is a sequence of allowed steps
(`OperationIsSteps`). The `Undisciplined` lemmas show what each clause of it is for.
What the kernel does is a parameter: each call to `epoll_ctl` that it could accept may still
be refused, and an event list may be reported late.

Classes and loops of the source are Dafny classes and loops; they are proved against
functions on sequences and maps, and the promises of the source are lemmas about those
functions. Where both compressed operators or both loops of a pair share their code, the
model shares it too: `Bitmap.Combine` takes the operation as a parameter, `listPosAsc` is
`foreach` with a callback that wants everything, and `AndAssign` and `OrAssign` only differ
in that parameter. A bitmap word has 16 bits and a run count 32. Callbacks may decide by
everything that they have seen. Pairs of a hash map have integer keys; any total order would do.

Where the code does not do what its name or its comments promise, the model follows the code
and a lemma says exactly when the promise holds:

- `rforeach` starts one bit too high (`RforeachIsReverseExactly`).
- `compress` copies mixed words with their mark bits, which plain `~` sets
  (`CompressIsExactly`, `FlipThenCompressExactly`).
- `read` of no bytes at the capacity goes through a null block, which ends a message list on
  a block boundary badly (`Read`, `Exchange`).
- The length of a string with a 16-bit length is cut, the text is not, and an empty string at
  the end of full blocks is not read back (`CountedTextExactly`).
- An event list that was reported before a cancellation aborts the IO manager
  (`DeliverEvent`, `DeliveryCanAbort`), and two threads that grow the table at once can cut it
  (`StaleResizeExactly`, `StaleResizeCanCut`).
- `stopping` can answer true while a READY fiber is about to be queued again; the answer is
  final if and only if there is none (`StoppingIsFinalExactly`, `StoppingCanBeEarly`).
- A session that gives up a claim, changes its weight or disconnects takes along what another
  session offers on the same node (`ReplacedMirrorsExactly`, `DisconnectTakesAlong`).
- Negating the lowest number in the zigzag code is undefined in C++ (`ZigzagRoundTrip`).
- A rehash makes more buckets than pairs only below 2^30 pairs (`BasketIsLarge`, `Rehash`).
- The URL table leaves the equals sign as it is, against section 2.3 of RFC 3986; a query is
  parsed correctly nevertheless (`QueryRoundTrip`).
- A WebSocket client leaves the message that it sent masked. Reads and writes return an `int`,
  so neither side accepts an empty payload, or one whose length is no positive `int`
  (`SendMessage`, `Reassembled`, `ReassembledBelowLimit`).

## Model

| member | source | states |
|---|---|---|
| `TaskQueue.Queue.ScheduleNoLock` | Sylar/scheduler.h:144-151 | An accepted task goes to the end of the queue, an empty handle is ignored, and the answer tells whether the queue was empty before. |
| `TaskQueue.Queue.Take` | Sylar/scheduler.cc:152-177 | Under the lock a thread takes the first task that is not pinned elsewhere and that is a callback or a fiber which it does not read as EXEC, each state being read when its entry is looked at, counts itself active, and wakes another thread exactly if a task is left behind or an older one is pinned elsewhere; it finds none only if every task is pinned elsewhere or a fiber read as EXEC, and then changes nothing. |
| `RuntimeSafety.NewFiberKeeps` | Sylar/fiber.cc:54-77 | Making a fiber keeps the fiber invariants. |
| `RuntimeSafety.ScheduleKeeps` | Sylar/scheduler.h:74-85 | Scheduling a fiber that nobody else is going to run keeps the fiber invariants, also when the fiber is still executing. |
| `RuntimeSafety.DequeueKeeps` | Sylar/scheduler.cc:152-177 | Moving any task that a thread may take from the queue into its hand keeps the fiber invariants, also if an older task has become eligible during the scan. |
| `RuntimeSafety.CanDequeueExactly` | Sylar/scheduler.cc:155-175 | A thread can take exactly the tasks that are not for another thread, a callback always and a fiber unless it is EXEC. |
| `RuntimeSafety.TakenIsIdle` | Sylar/scheduler.cc:163-175 | A fiber that a thread takes out of the queue is carried by no other thread, although its state was read without its own lock. |
| `RuntimeSafety.ScanIsDequeue` | Sylar/scheduler.cc:152-177 | What the locked scan of the queue takes is a dequeue step of the runtime, at the moment at which it reads the state of the fiber that it takes; queue and counter change alike. |
| `RuntimeSafety.SwapInKeeps` | Sylar/fiber.cc:143-150 | Switching to a taken fiber keeps the fiber invariants. |
| `RuntimeSafety.StartCallbackKeeps` | Sylar/scheduler.cc:195-203 | Running a callback on the thread's cached or on a new fiber keeps the fiber invariants. |
| `RuntimeSafety.YieldToReadyKeeps` | Sylar/fiber.cc:183-188 | Storing READY while still on the fiber's stack keeps the fiber invariants. |
| `RuntimeSafety.FinishKeeps` | Sylar/fiber.cc:203-229 | Storing TERM or EXCEPT while still on the fiber's stack keeps the fiber invariants. |
| `RuntimeSafety.SwapOutKeeps` | Sylar/fiber.cc:158-164 | Leaving the fiber's stack keeps the fiber invariants. |
| `RuntimeSafety.SettleKeeps` | Sylar/scheduler.cc:186-214 | The branch on the state of a fiber that came back, with the store of HOLD outside every lock, keeps the fiber invariants. |
| `RuntimeSafety.ScheduleAgainKeeps` | Sylar/scheduler.cc:188-189 | Queueing a READY fiber again keeps the fiber invariants. |
| `RuntimeSafety.NothingIsDiscarded` | Sylar/scheduler.cc:215-220 | A fiber taken from the queue has never ended, so the branch that throws a taken task away is never entered. |
| `RuntimeSafety.StepKeepsFibers` | Sylar/scheduler.cc:148-214 | Each of the eighteen steps keeps: one claim at most per fiber, only live fibers claimed, one holder at most, state and program counter in agreement, EXEC only where some thread carries the fiber. |
| `RuntimeSafety.StepKeepsActive` | Sylar/scheduler.cc:172-218 | Each step keeps the active counter equal to the number of threads between dequeue and decrement. |
| `RuntimeSafety.StepKeepsTasks` | Sylar/scheduler.cc:148-220 | Each step keeps every accepted task in exactly one of: one queue entry, one thread's hand, consumed. |
| `RuntimeSafety.StepKeepsPins` | Sylar/scheduler.cc:157-161 | Each step keeps: a pinned task is in no hand but that of its own thread. |
| `RuntimeParking.StepKeepsAway` | Sylar/iomanager.cc:168-177 | Each step keeps: a fiber in a slot or among the waiters of a semaphore is EXEC or HOLD. |
| `RuntimeParking.FireIsSchedule` | Sylar/iomanager.cc:215-232 | Triggering is taking the continuation out followed by a schedule of it that any client would be allowed. |
| `RuntimeParking.NotifyIsSchedule` | Sylar/mutex.cc:62-71 | So is a notification that finds a waiter. |
| `RuntimeTheorems.ReachableIsOrdered` | Sylar/scheduler.cc:148-235 | Every state reached from an ordered one by any legal interleaving satisfies all invariants. |
| `RuntimeTheorems.EveryRunIsSafe` | Sylar/scheduler.cc:148-235 | From the start, over every interleaving: no fiber is on two stacks, even if it is scheduled again before it has left its own; the assertions of swapIn, reset and the yields hold; an EXEC fiber that a worker skips is carried by a thread that has yet to give it back; tasks are conserved; counters are exact; pins are kept. |
| `RuntimeTheorems.HandoversAreDisciplined` | Sylar/iomanager.cc:215-232 | In every reachable state, whatever a slot of the event table or a semaphore is about to hand over may be scheduled by the rule for every client: once it is taken out nobody else is going to run it, and it has not ended. |
| `RuntimeTheorems.SemaphoresAreFair` | Sylar/mutex.cc:37-71 | In every interleaving of the runtime a semaphore conserves its permits, lets nobody wait while one is free, and resumes waiters in the order of their arrival. |
| `RuntimeTheorems.UndisciplinedYieldRunsTwice` | Sylar/fiber.cc:183-188 | The discipline is needed: from every state in which a queued fiber runs and an idle thread would find it, a READY yield and two steps of that thread put the fiber on two stacks. |
| `RuntimeTheorems.QueuedTwiceRunsTwice` | Sylar/scheduler.cc:152-185 | A fiber that stands in a queue twice is put on two stacks by four steps of two idle threads. |
| `RuntimeTheorems.UndisciplinedScheduleQueuesTwice` | Sylar/scheduler.h:74-85 | A client that schedules a queued fiber breaks the discipline and puts the fiber in the queue twice. |
| `RuntimeTheorems.UndisciplinedParkQueuesTwice` | Sylar/iomanager.cc:168-177 | A queued fiber that parks itself breaks the discipline; when the slot fires and the fiber has left its stack it is HOLD and in the queue twice. |
| `RuntimeTheorems.UndisciplinedFinishIsDiscarded` | Sylar/scheduler.cc:215-220 | A queued fiber that ends breaks the discipline, and the thread that takes it throws the resumption away. |
| `RuntimeTurns.TakenFiberRuns` | Sylar/scheduler.cc:170-185 | A fiber that is taken leaves the queue, the others keep their order, and it runs as EXEC on the thread, which counts as active. |
| `RuntimeTurns.TakenCallbackRuns` | Sylar/scheduler.cc:195-203 | A callback that is taken runs, on the thread's blank fiber if it has one and else on a new one that it keeps. |
| `RuntimeTurns.YieldedIsQueuedAgain` | Sylar/scheduler.cc:185-207 | A running fiber that yields READY ends up at the end of the queue for any thread, the thread back at the top of its loop and counted out, and without it as its callback fiber; nothing else has changed. |
| `RuntimeTurns.ScheduleAgainIsSchedule` | Sylar/scheduler.cc:188-189 | Queueing a READY fiber again is a schedule for any thread and the return to the top of the loop. |
| `RuntimeTurns.EndedIsDropped` | Sylar/scheduler.cc:185-210 | A fiber that ends stays TERM or EXCEPT and goes nowhere, except that a thread keeps its own callback fiber, reset to INIT. |
| `RuntimeTurns.LeavingIsHeld` | Sylar/scheduler.cc:190-214 | A fiber that leaves without more becomes HOLD, and a thread gives up its callback fiber then. |
| `RuntimeTurns.ParkedIsSelf` | Sylar/iomanager.cc:168-177 | A fiber that parks itself, in a slot or at a semaphore without a free permit, leaves its own scheduler and itself there, at the end of the line, and nothing else changes. |
| `RuntimeTurns.MidTurnGoesOn` | Sylar/scheduler.cc:183-214 | In every ordered state, a thread in the middle of a turn has a step of its own that it can take. |
| `RuntimeTurns.IdleGoesOnExactly` | Sylar/scheduler.cc:152-177 | A thread at the top of its loop has one if and only if its queue holds a task that is not for another thread and is a callback or a fiber that is not EXEC. |
| `RuntimeTurns.NoTaskIsAbandoned` | Sylar/scheduler.cc:148-214 | In every run, for every queued task and every thread that may run it: the thread is busy and can go on, or can take it, or another thread that can go on has yet to let go of its fiber. |
| `RuntimeStopping.StoppingThreads` | Sylar/scheduler.cc:241-245 | When stopping answers true, every thread of the scheduler is at the top of its loop or past its decrement. |
| `RuntimeStopping.StoppingIsFinalExactly` | Sylar/scheduler.cc:185-193 | The answer true stays true over every sequence of steps of all threads without new work from outside, if and only if no thread of the scheduler is about to queue a READY fiber again. |
| `RuntimeStopping.StoppingCanBeEarly` | Sylar/scheduler.cc:185-193 | From every state in which the only work is a fiber that yields READY, three steps lead to a state in which stopping answers true and the answer is not final, because the counter is decremented before the fiber is queued again. |
| `IoEvents.IOManager.constructor` | Sylar/iomanager.cc:82-104 | The table starts with 32 empty contexts, nothing registered and nothing pending. |
| `IoEvents.IOManager.ContextResize` | Sylar/iomanager.cc:119-128 | The table has one and a half times the descriptor's number of contexts afterwards, the old ones and empty new ones; it is consistent if and only if nothing is parked on what is cut off. |
| `IoEvents.IOManager.AddLocked` | Sylar/iomanager.cc:143-178 | Registers the callback, or else the fiber, for the scheduler, in the empty slot of the event, sets its bit and counts it, and changes no other slot; or changes nothing if the kernel refuses. The table stays consistent, ADD is used only for unregistered descriptors and the empty-slot assertion holds. |
| `IoEvents.IOManager.AddEvent` | Sylar/iomanager.cc:130-179 | The two regions one after the other: the table covers the descriptor, and the continuation is registered unless the kernel refuses. |
| `IoEvents.IOManager.DelEvent` | Sylar/iomanager.cc:181-213 | Drops the continuation that was parked for the event and hands nothing over, clears its bit, counts it out and changes no other slot; answers whether it did. |
| `IoEvents.IOManager.TriggerEvent` | Sylar/iomanager.cc:215-232 | Hands the parked continuation to the scheduler recorded with it, or reports that the assertion on the event bit fails. |
| `IoEvents.IOManager.CancelEvent` | Sylar/iomanager.cc:234-263 | Hands over exactly the continuation that was registered for the event, clears its bit and counts it out, and leaves the other slots alone; mask, slots, counter and kernel stay in agreement. |
| `IoEvents.IOManager.CancelAllEvents` | Sylar/iomanager.cc:266-298 | Hands over exactly the continuations registered on the descriptor, that of READ first, and leaves it without events; mask, slots, counter and kernel stay in agreement. |
| `IoEvents.IOManager.DeliverEvent` | Sylar/iomanager.cc:386-424 | On a hang-up or an error every continuation registered on the descriptor is handed over, and otherwise exactly those of the reported events, that of READ first, while the rest stay; it aborts exactly if some of the events acted on are registered and some are not. The table stays consistent. |
| `IoEvents.StepKeepsConsistent` | Sylar/iomanager.cc:130-298 | Every operation keeps: slots match the event mask, the counter is the number of set bits over all descriptors, the kernel mask equals the event mask, every registration is in one place. |
| `IoEvents.RunsAreConsistent` | Sylar/iomanager.cc:130-424 | Every state of every run is consistent, where a run interleaves the locked regions: growing the table and adding to it are two steps. |
| `IoEvents.EachContinuationOnce` | Sylar/iomanager.cc:130-424 | Over every run each registered continuation is in one slot, or was handed exactly once to the scheduler it was registered with, or was dropped exactly once; pending 0 means that none is parked. |
| `IoEvents.DeliveryCanAbort` | Sylar/iomanager.cc:399-423 | From every consistent state with both events registered, cancelling one of them makes the handling of an earlier report of both fail the assertion. |
| `IoEvents.StaleResizeExactly` | Sylar/iomanager.cc:132-141 | A resize decided on an outdated size cuts the table; it stays consistent if and only if nothing is parked on the descriptors cut off. |
| `IoEvents.StaleResizeCanCut` | Sylar/iomanager.cc:132-141 | From every consistent table without two descriptors, one thread growing it for the higher one and parking there, and another one then growing it for the lower one, leave it inconsistent if the lower size does not cover the higher descriptor. |
| `RuntimeIo.AddIsPark` | Sylar/iomanager.cc:164-177 | Adding to the event table is a Park step of the runtime. |
| `RuntimeIo.TriggerIsFire` | Sylar/iomanager.cc:219-230 | Triggering is a Fire step of the runtime: what the table hands over is dropped from its slot and then scheduled, which a client is allowed then. |
| `RuntimeIo.DeleteIsDrop` | Sylar/iomanager.cc:208-211 | Deleting is a Drop step. |
| `RuntimeIo.OperationIsSteps` | Sylar/iomanager.cc:130-424 | Every operation on the event table is what a legal sequence of runtime steps does to its slots, so that the invariants of the runtime hold with the table as its client. |
| `Semaphores.FiberSemaphore.TryWait` | Sylar/mutex.cc:37-47 | Takes a free permit if there is one and says so; waiters stay. |
| `Semaphores.FiberSemaphore.Wait` | Sylar/mutex.cc:49-60 | Takes a free permit, or queues the caller behind the others; nobody waits while a permit is free. |
| `Semaphores.FiberSemaphore.Notify` | Sylar/mutex.cc:62-71 | Resumes the waiter that has waited longest, or frees a permit. |
| `Semaphores.EveryRunIsFair` | Sylar/mutex.cc:37-71 | Over every run of waits, tries and notifications: free permits plus permits granted equal the initial ones plus the notifications; nobody waits while one is free; the n-th waiter to be resumed is the n-th who had to wait. |
| `WorkerGroup.StepKeepsInvariant` | Sylar/worker.cc:28-46 | Scheduling, finishing and waiting keep: free permits plus jobs in flight plus permits held by waitAll equal the batch size; every job waits, is in flight or has finished; no early job waits behind waitAll. |
| `WorkerGroup.ServedInOrder` | Sylar/worker.cc:17-46 | Over every run of a group its callers wait in the order of their arrival, a callback that finishes hands its permit to the first in line, and permits in use and free add up to the batch size. |
| `WorkerGroup.WaitAllIsABarrier` | Sylar/worker.cc:28-46 | Over every run at most batchSize callbacks are in flight; when waitAll has returned none is; and every callback scheduled before it has finished, if and only if the batch size is positive or there was none. |
| `BitmapCodec.MasksSelectFields` | Sylar/DataStructure/bitmap.h:135-141 | Run mark, run value and payload of a word are what the masks select. |
| `BitmapCodec.TokensAreSeparated` | Sylar/DataStructure/bitmap.cc:338-373 | For clean words the encoder never writes two adjacent runs of the same value, and every run count fits 32 bits. |
| `BitmapCodec.ParseEmit` | Sylar/DataStructure/bitmap.cc:402-425 | Separated tokens are read back from the words they are written as: adjacent run words of one value are digits of one run. |
| `BitmapCodec.RoundTrip` | Sylar/DataStructure/bitmap.cc:329-427 | For every clean bitmap whose bits can be counted in 32 bits, decoding the code gives back every word. |
| `BitmapCodec.EncodeIsInjective` | Sylar/DataStructure/bitmap.cc:329-394 | Different clean bitmaps have different codes. |
| `BitmapCodec.UniformRoundTripExactly` | Sylar/DataStructure/bitmap.cc:405-411 | A run of n words is read back as itself if and only if 14n is below 2^32. |
| `BitmapForm.RunsAreWritten` | Sylar/DataStructure/bitmap.cc:353-384 | Two or more equal uniform words are written as one run: marked words of that value whose base-2^14 digits, lowest first, are 14 times their number, spelled out for every run below 2^32 bits (one, two or three words); a single one is written as it is. |
| `BitmapForm.CodeIsTheMaximalOne` | Sylar/DataStructure/bitmap.cc:335-384 | Any way to write a bitmap in runs of two or more words and literals such that no two neighbours stand for the same value is the code that compress writes: it is the only one. |
| `BitmapForm.MaximalIsUnique` | Sylar/DataStructure/bitmap.cc:335-384 | Two sequences of maximal tokens that stand for the same words are equal. |
| `BitmapForm.CodeLeavesNothing` | Sylar/DataStructure/bitmap.cc:353-384 | In the code of a bitmap two equal uniform words never stand side by side, nor one beside a run of its value. |
| `BitmapForm.CodeIsShorterExactly` | Sylar/DataStructure/bitmap.cc:329-394 | A clean bitmap never gets longer, and it gets shorter if and only if two equal uniform words stand side by side in it. |
| `BitmapCodec.FlipDecodesToComplement` | Sylar/DataStructure/bitmap.cc:163-177 | Complementing a compressed bitmap word by word complements the 14 bits of every word that it stands for. |
| `BitmapCodec.ComplementFlipsBits` | Sylar/DataStructure/bitmap.cc:173-173 | The complement of a word flips each of its 14 bits. |
| `Bitmaps.CompressedIsAligned` | Sylar/DataStructure/bitmap.cc:812-822 | Every run of a compressed bitmap covers whole words, so that the alignment assertions of the range operations never fire. |
| `Bitmaps.SetRange` | Sylar/DataStructure/bitmap.cc:812-827 | Sets exactly the words of the range and no other. |
| `Bitmaps.CompressWord` | Sylar/DataStructure/bitmap.cc:338-373 | One turn of the compression loop writes the words and leaves the counted run that the encoder defines, in no more room than there were words. |
| `Bitmaps.Bitmap.Compress` | Sylar/DataStructure/bitmap.cc:329-394 | The result stands for the same words and is the code of the plain words, which the rows above fix. |
| `Bitmaps.Bitmap.Uncompress` | Sylar/DataStructure/bitmap.cc:396-427 | The result is plain and stands for the same words. |
| `Bitmaps.Bitmap.AndAssign` | Sylar/DataStructure/bitmap.cc:101-150 | The result is the bitwise and of the two bitmaps' words, for a plain and for a compressed right operand alike, through the 64-bit loop or run by run; other combinations are refused and change nothing. |
| `Bitmaps.Bitmap.OrAssign` | Sylar/DataStructure/bitmap.cc:180-229 | The same for the bitwise or. |
| `Bitmaps.PackAnd` | Sylar/DataStructure/bitmap.cc:106-110 | The 64-bit and of packed words is the packed and of the words. |
| `Bitmaps.PackOr` | Sylar/DataStructure/bitmap.cc:185-189 | The 64-bit or of packed words is the packed or of the words. |
| `Bitmaps.Bitmap.Flip` | Sylar/DataStructure/bitmap.cc:152-178 | Compressed: the 14-bit complement of what it stands for, and still valid. Plain: every word is complemented with its mark bits. |
| `Bitmaps.Bitmap.Cross` | Sylar/DataStructure/bitmap.cc:649-710 | Tells whether the two bitmaps share a bit, for a plain and for a compressed right operand alike; a plain right operand may be longer; no for a compressed left operand. |
| `BitmapPositions.AlgebraOfSets` | Sylar/DataStructure/bitmap.cc:101-229 | To combine words by and, or and complement is to intersect, unite and complement the sets of their positions. |
| `BitmapPositions.MeetExactly` | Sylar/DataStructure/bitmap.cc:649-710 | Plain bitmaps cross if and only if a position is set in both. |
| `Bitmaps.Bitmap.AnyInRange` | Sylar/DataStructure/bitmap.cc:829-853 | Tells whether a word of the range has a payload bit set. |
| `Bitmaps.Bitmap.Get` | Sylar/DataStructure/bitmap.cc:302-306 | The bit at the position. |
| `Bitmaps.Bitmap.Set` | Sylar/DataStructure/bitmap.cc:308-316 | Changes that bit of its word and no other, marks included, and keeps clean words clean. |
| `BitmapUnclean.CompressIsExactly` | Sylar/DataStructure/bitmap.cc:366-372 | For arbitrary words, uncompressing what was compressed gives back every payload if and only if no mixed word carries the run mark. |
| `BitmapUnclean.FlipThenCompressExactly` | Sylar/DataStructure/bitmap.cc:152-162 | A clean plain bitmap survives plain complement followed by compression if and only if none of its words is mixed. |
| `BitmapUnclean.FlipThenCompressCanFail` | Sylar/DataStructure/bitmap.cc:155-161 | A bitmap word with one bit set, complemented and compressed, does not decode to its complement. |
| `BitmapPositions.AscendingIsExact` | Sylar/DataStructure/bitmap.cc:616-647 | The specified list holds the set positions below the bound, each once, in increasing order, and nothing else. |
| `BitmapPositions.DescendingIsReverse` | Sylar/DataStructure/bitmap.cc:525-614 | The downward list is the exact reverse of the upward one. |
| `BitmapPositions.Foreach` | Sylar/DataStructure/bitmap.cc:487-523 | Gives a callback the set positions below the size in increasing order until it first wants no more, across skipped zero words and blocks. |
| `BitmapPositions.ListPosAsc` | Sylar/DataStructure/bitmap.cc:616-647 | The set positions below the size in increasing order. |
| `BitmapPositions.Rforeach` | Sylar/DataStructure/bitmap.cc:525-614 | Gives a callback the set positions in decreasing order until it first wants no more, starting one bit above the size when the last word is not full. |
| `BitmapPositions.VisitsIsFunctional` | Sylar/DataStructure/bitmap.cc:487-523 | The positions that a callback is given are determined by the list and the callback. |
| `BitmapPositions.RforeachIsReverseExactly` | Sylar/DataStructure/bitmap.cc:558-568 | rforeach gives the reverse of foreach if and only if the last word is full or its first unused bit is clear. |
| `BitmapPositions.RforeachLeavesTheBitmap` | Sylar/DataStructure/bitmap.cc:558-568 | A bitmap of one bit, complemented while compressed, for which rforeach gives a position outside it. |
| `BitmapIterators.Iterator.Next` | Sylar/DataStructure/bitmap.cc:741-767 | Moves to the next set position, or past the size if there is none. |
| `BitmapIterators.ReverseIterator.Next` | Sylar/DataStructure/bitmap.cc:779-810 | Moves to the next lower set position, or to -1 if there is none. |
| `BitmapIterators.Walk` | Sylar/DataStructure/bitmap.cc:731-767 | Walking with the iterator yields the set positions below the size in increasing order. |
| `BitmapIterators.WalkBack` | Sylar/DataStructure/bitmap.cc:769-810 | Walking with the reverse iterator yields the exact reverse. |
| `ByteArrays.ByteArray.constructor` | Sylar/bytearray.cc:32-40 | One block, empty content, position 0. |
| `ByteArrays.ByteArray.AddCapacity` | Sylar/bytearray.cc:498-527 | There is room for the bytes asked for, in no more blocks than needed; old blocks and bytes stay; a position at the old capacity gets the first new block. |
| `ByteArrays.ByteArray.Write` | Sylar/bytearray.cc:344-377 | The visible content is the old one with the data written over it at the position, the position moves past it, and the current block is again the one that holds the position. |
| `ByteArrays.ByteArray.Read` | Sylar/bytearray.cc:379-406 | Gives the next bytes and moves past them; fails without moving if there are too few; goes through a null block exactly if the position is at the capacity. |
| `ByteArrays.ByteArray.SetPosition` | Sylar/bytearray.cc:438-454 | Moves the position, extends the size if need be, finds the block and changes no byte; no walk falls off the list. |
| `ByteArrays.ByteArray.Clear` | Sylar/bytearray.cc:331-342 | Keeps the first block, forgets the others, and shows nothing. |
| `ByteArrays.ByteArray.GetReadBuffers` | Sylar/bytearray.cc:555-584 | The regions lie one after the other in consecutive blocks from the position on and cover min(len, readable) bytes. |
| `ByteArrays.ByteArray.GetWriteBuffers` | Sylar/bytearray.cc:623-651 | The regions lie one after the other in consecutive blocks from the position on and cover len bytes; nothing visible changes. |
| `ByteArrays.ByteArray.Send` | Sylar/bytearray.cc:555-584 | The bytes in the read regions are exactly the next min(len, readable) bytes. |
| `ByteArrays.ByteArray.Receive` | Sylar/bytearray.cc:623-651 | Filling the first bytes of the write regions and then setting the position past them leaves the same content, position and size as write. |
| `ByteArrays.ByteArray.ToString` | Sylar/bytearray.cc:529-537 | The bytes from the position to the size; nothing moves. |
| `Blocks.FlatUpdate` | Sylar/bytearray.cc:354-372 | Writing within one block is writing at the corresponding place of the whole. |
| `Integers.VarintRoundTrip` | Sylar/bytearray.cc:253-283 | A varint is read back whatever follows it, as long as its number fits the word. |
| `Integers.VarintFits` | Sylar/bytearray.cc:141-165 | A 32-bit number takes one to five bytes, a 64-bit number one to ten. |
| `Integers.VarintForm` | Sylar/bytearray.cc:141-165 | Byte i of a varint holds bits 7i to 7i+6 of the number and is marked exactly if a byte follows, which is so exactly if the number has higher bits: the code is the shortest. |
| `Integers.EveryVarintIsRead` | Sylar/bytearray.cc:253-283 | Whatever the bytes, the loop stops at the first unmarked byte or the last that reaches into the word, and gives the number that the base-128 digits spell modulo the word; it runs out exactly if all bytes are marked and the word has room. |
| `Integers.ZigzagRoundTrip` | Sylar/bytearray.cc:112-134 | Zigzag decoding, through the exclusive or of the source, inverts encoding for every signed number but the lowest, whose negation C++ leaves undefined; for that one if and only if the negation wraps around or gives 0. |
| `Integers.ZigzagIsOnto` | Sylar/bytearray.cc:112-134 | Zigzag encoding inverts decoding for every unsigned number, with the same exception. |
| `Integers.FixedIsPortable` | Sylar/bytearray.cc:98-110 | The bytes of a fixed-width number depend on the chosen byte order only, not on the machine's. |
| `Integers.MemoryForm` | Sylar/endian.h:24-51 | In little endian byte i of a number is its i-th lowest, and in big endian its i-th from the end. |
| `Integers.FixedRoundTrip` | Sylar/bytearray.cc:215-245 | What a machine of one byte order writes, a machine of any byte order reads back. |
| `ByteArrayCodec.SignedVarintExactly` | Sylar/bytearray.cc:137-154 | A signed number written as a varint is read back whatever follows it, for the same numbers. |
| `ByteArrayCodec.WriteFixed` | Sylar/bytearray.cc:63-110 | Writes the bytes of the number in the chosen order. |
| `ByteArrayCodec.ReadFixed` | Sylar/bytearray.cc:203-245 | Reads the number that the next bytes stand for in the chosen order, or fails and moves nothing if they run out. |
| `ByteArrayCodec.WriteStringF` | Sylar/bytearray.cc:179-192 | Writes the length, cut to its width and in the chosen byte order, and the whole text. |
| `ByteArrayCodec.ReadStringF` | Sylar/bytearray.cc:299-321 | Reads what the decoder makes of the bytes ahead, with the position and the status of the failing read. |
| `ByteArrayCodec.CountedTextExactly` | Sylar/bytearray.cc:179-192 | A string after a fixed-width length is read back if and only if its length fits the width, and it is not an empty string at the end of data that fill their blocks. |
| `ByteArrayCodec.CountedTextCanFail` | Sylar/bytearray.cc:179-192 | An empty string at the end of full blocks is not read back, and neither is one whose length is the first that the width cannot hold. |
| `ByteArrayCodec.WriteVarint` | Sylar/bytearray.cc:141-150 | Writes the varint of the number. |
| `ByteArrayCodec.ReadVarint` | Sylar/bytearray.cc:253-265 | Reads what the decoder makes of the bytes ahead and moves past what it used, also when the bytes run out. |
| `ByteArrayCodec.WriteStringVint` | Sylar/bytearray.cc:194-197 | Writes the length as a varint and then the text. |
| `ByteArrayCodec.ReadStringVint` | Sylar/bytearray.cc:323-329 | Reads the text, or fails with too few bytes, or goes through a null block when an empty text ends a full array. |
| `Messages.MessageRoundTrip` | Sylar/protocol.cc:19-69 | A message that stands at any position of any data is read back there as itself and to its last byte, with the exception below. |
| `Messages.WireForm` | Sylar/protocol.cc:19-64 | A request is written as 1, sn, cmd; a response as 2, sn, cmd, result, the length of the text and the text; a notification as 3, notify; the numbers as varints. |
| `Messages.WireIsRead` | Sylar/protocol.cc:26-69 | Bytes of that form at any position are read as the message whose fields they are, each number in the field of its name, with the exception below. |
| `Messages.AllRoundTrip` | Sylar/protocol.cc:19-69 | Messages that stand back to back at the end of any data are read back as the same list and to the last byte, unless the last one is a response without a text and there is no room after the data. |
| `Messages.Serialize` | Sylar/protocol.cc:19-64 | Writes the type byte and then the fields in that order at the position. |
| `Messages.ParseBody` | Sylar/protocol.cc:26-69 | Reads the fields in order; the outcome and the bytes used are those of the decoder, failures included. |
| `Messages.ReadMessage` | Sylar/rock/rock_protocol.cc:216-237 | Reads a type byte and lets the parser for it read on; an unknown type is refused. |
| `Messages.Exchange` | Sylar/protocol.cc:6-69 | Messages written to a new byte array and read from its start come back as the same list, if and only if it is not the case that the last one is a response without a text and the bytes make up whole blocks. |
| `Messages.ExchangeCanFail` | Sylar/protocol.cc:38-60 | With blocks of one byte a single response without a text is lost: the read of its empty text goes through a null block. |
| `TimedLruCaches.TimedLruCache.Set` | Sylar/DataStructure/timed_lru_cache.h:68-85 | The contents become those of the specification; list, hash index and deadline index hold the same nodes, the latter in order although a deadline changed. |
| `TimedLruCaches.TimedLruCache.Get` | Sylar/DataStructure/timed_lru_cache.h:87-99 | A hit gives the stored value and moves the key to the front; a miss changes nothing. |
| `TimedLruCaches.TimedLruCache.Del` | Sylar/DataStructure/timed_lru_cache.h:115-126 | Takes the key out of all three indexes and says whether it was there. |
| `TimedLruCaches.TimedLruCache.CheckTimeout` | Sylar/DataStructure/timed_lru_cache.h:188-206 | Removes exactly the items whose deadline is not after the time, keeps the order of the others, and counts them. |
| `TimedLruCaches.TimedLruCache.Prune` | Sylar/DataStructure/timed_lru_cache.h:208-225 | Leaves the most recently touched maxSize items when the limit is reached, and everything otherwise. |
| `TimedLruCaches.UnindexedIsErased` | Sylar/DataStructure/timed_lru_cache.h:36-47 | Erasure by the order of the deadline index takes out the node meant and no other. |
| `TimedLruCaches.InsertedIsOrdered` | Sylar/DataStructure/timed_lru_cache.h:36-47 | Insertion keeps the deadline index in strict order and adds the node and no other. |
| `LruCaches.LruCache.Set` | Sylar/DataStructure/LRU_Cache.h:44-56 | The contents become those of the specification, and list and hash index hold the same nodes. |
| `LruCaches.LruCache.Get` | Sylar/DataStructure/LRU_Cache.h:58-70 | A hit gives the stored value and moves the key to the front; a miss changes nothing. |
| `LruCaches.LruCache.Del` | Sylar/DataStructure/LRU_Cache.h:86-96 | Takes the key out of both indexes and says whether it was there. |
| `LruCaches.LruCache.Prune` | Sylar/DataStructure/LRU_Cache.h:157-173 | Leaves the most recently touched maxSize items when the limit is reached, and everything otherwise. |
| `Caches.AliveIsExact` | Sylar/DataStructure/timed_lru_cache.h:191-204 | What is left after a timeout check are exactly the items with a later deadline. |
| `Caches.EveryRunIsRecent` | Sylar/DataStructure/LRU_Cache.h:44-96 | After every history keys are distinct and in the order of their last touch, each holds what was stored under it last, and a limited cache holds at most maxSize items, or maxSize + elasticity - 1 if that is more. |
| `Caches.RecentIsKept` | Sylar/DataStructure/LRU_Cache.h:44-96 | After every history a key among the last maxSize distinct keys touched, not deleted, cleared or expired since, is present with what was stored under it last; without a limit every such key is. |
| `Caches.SetEvictsExactly` | Sylar/DataStructure/LRU_Cache.h:157-173 | After every history a set evicts something if and only if its key is new and the items come to more than maxSize and to at least maxSize plus elasticity with it; then exactly maxSize stay, the new one first. |
| `Caches.RemovedIsGone` | Sylar/DataStructure/LRU_Cache.h:86-118 | After every history a key that was deleted, cleared or found past its deadline is absent until it is set again. |
| `Caches.EvictedAreOldest` | Sylar/DataStructure/LRU_Cache.h:157-173 | What a set evicts was touched before everything that it keeps. |
| `Caches.EveryShardedRunIsBounded` | Sylar/DataStructure/LRU_Cache.h:191-238 | After every history of a sharded cache the keys in shard i are those with hash i modulo the number of shards, and the total is at most getMaxAllowedSize. |
| `Caches.ShareIsCeiling` | Sylar/DataStructure/LRU_Cache.h:195-196 | The limits of the shards add up to at least the limit asked for, and to less than one item per shard more. |
| `Caches.ShardIsRun` | Sylar/DataStructure/LRU_Cache.h:191-238 | Each shard is the run of the operations that reach it: those on its keys, and those on all. |
| `Caches.EveryShardedRunIsRecent` | Sylar/DataStructure/LRU_Cache.h:191-238 | After every history each shard has its keys in the order of their last touch, each with what was stored under it last, and keeps the last maxSize of them that were touched and not removed since. |
| `Buckets.BinarySearch` | Sylar/DataStructure/util.h:226-236 | The position of the key in a sorted bucket, or the end if it is not there. |
| `Buckets.SortLast` | Sylar/DataStructure/util.h:238-250 | The last pair of an otherwise sorted bucket sinks to its place. |
| `Buckets.PlacedIsIncreasing` | Sylar/DataStructure/util.h:238-250 | That place keeps the bucket strictly sorted. |
| `Buckets.OneOrder` | Sylar/DataStructure/hash_map.h:282-284 | Two sorted buckets with the same pairs are equal, so that sorting is determined. |
| `HashMaps.BasketIsLarge` | Sylar/DataStructure/util.h:222-224 | There are more buckets than pairs if and only if there are fewer than 2^30 pairs, at most twice as many, and more than before if the load was above 16. |
| `HashMaps.HashMap.Get` | Sylar/DataStructure/hash_map.h:61-73 | The value of the key in the map. |
| `HashMaps.HashMap.Exists` | Sylar/DataStructure/hash_map.h:76-84 | Whether the key is in the map. |
| `HashMaps.HashMap.Set` | Sylar/DataStructure/hash_map.h:86-111 | The map with the key set, whatever rehash comes first; says whether the key is new; buckets stay sorted, hold only their own keys, and the total is the size of the map. |
| `HashMaps.HashMap.Del` | Sylar/DataStructure/hash_map.h:115-134 | The map without the key; says whether it was there; the buckets stay sorted. |
| `HashMaps.HashMap.Rehash` | Sylar/DataStructure/hash_map.h:271-291 | Keeps the map for every total that basket can measure as an int; below 2^31 pairs it strictly grows, to more buckets than pairs if and only if there are fewer than 2^30 pairs. |
| `HashMaps.HashMap.Merge` | Sylar/DataStructure/hash_map.h:151-162 | The map overridden by the other map, whatever rehashes happen on the way. |
| `NameServer.Diff` | Sylar/NodeService/name_server_module.cc:155-190 | What is only in the old claims, only in the new ones, and in both. |
| `NameServer.ClaimsAreAsked` | Sylar/NodeService/name_server_module.cc:145-147 | A session claims a command of a domain if and only if some entry of its registration names both. |
| `NameServer.AddedHas` | Sylar/NodeService/ns_protocol.cc:116-123 | Adding a node changes the entry of its id for that command and no other. |
| `NameServer.RemovedHas` | Sylar/NodeService/ns_protocol.cc:130-140 | Removing a node changes that entry only, and leaves no empty node set. |
| `NameServer.ReplacedMirrorsExactly` | Sylar/NodeService/name_server_module.cc:193-285 | Replacing a session, or taking it out, leaves a registry that mirrors the sessions if and only if the other sessions on its node claim nothing that it gives up, and claim nothing that it claims with another weight. |
| `NameServer.ApartFits` | Sylar/NodeService/name_server_module.cc:193-285 | Sessions on nodes of their own always meet that condition and stay on nodes of their own. |
| `NameServer.DisconnectTakesAlong` | Sylar/NodeService/name_server_module.cc:216-231 | Two sessions that offer one command on one node: when one of them goes, the other is live and no longer in the registry. |
| `NameServer.Server.Set` | Sylar/NodeService/name_server_module.cc:193-285 | The session of a stream is replaced or goes; a registry that held exactly what live sessions offer, weights included, does so again if and only if the new claims fit. |
| `NameServer.Server.Disconnect` | Sylar/NodeService/name_server_module.cc:56-70 | The session goes, with everything that it offered; the registry mirrors the others if and only if that fits, and always if sessions are on nodes of their own. |
| `NameServer.Server.Register` | Sylar/NodeService/name_server_module.cc:78-153 | Accepts exactly the registrations in which nothing is missing and all entries are for one node, which is that of the stream's session; what is refused changes nothing. The session then has the first entry's node and exactly the domains and commands that the entries name, or is gone without entries or connection; other sessions stay. The registry mirrors the sessions afterwards if and only if the new claims fit; if sessions are on nodes of their own it does, and holds on the node exactly the pairs that the entries name. |
| `NameServer.Server.Serve` | Sylar/NodeService/name_server_module.cc:56-285 | After every run of registrations and disconnections in which each accepted registration is for a node of its own, the registry holds exactly what the live sessions offer, and these are the sessions that the requests make. |
| `NameServer.HomesAreOwn` | Sylar/NodeService/name_server_module.cc:120-131 | If every stream has a node of its own and registers nothing else, every registration of every run is for a node of its own. |
| `NameServer.Server.Query` | Sylar/NodeService/name_server_module.cc:305-352 | The rows list exactly the registered nodes of the domains asked for. |
| `NameServer.Client.Query` | Sylar/NodeService/ns_client.cc:49-98 | The view becomes exactly the registry restricted to the queried domains; without domains, or without an answer, it stays what it was. |
| `WebSocket.MaskedTwice` | Sylar/HttpServer/ws_session.cc:160-164 | Masking twice with the same mask gives back the data. |
| `WebSocket.MaskFlipsBits` | Sylar/HttpServer/ws_session.cc:160-164 | A byte of the mask flips exactly the bits that are set in it. |
| `WebSocket.LengthRoundTrip` | Sylar/HttpServer/ws_session.cc:126-141 | The shortest length form is read back as the length, per section 5.2 of RFC 6455. |
| `WebSocket.LengthIsShortest` | Sylar/HttpServer/ws_session.cc:190-197 | No form of the length that can say it has fewer bytes than the one written. |
| `WebSocket.FrameForm` | Sylar/HttpServer/ws_session.cc:183-234 | The bytes of a data frame: final bit and opcode, mask bit and length up to 125, or 126 and two bytes, or 127 and eight bytes, highest first, then the mask and the masked payload, or the payload. |
| `WebSocket.ControlForm` | Sylar/HttpServer/ws_session.cc:240-262 | A ping is 0x89 0x00 and a pong is 0x8A 0x00. |
| `WebSocket.OthersArePassedOver` | Sylar/HttpServer/ws_session.cc:118-177 | A pong, or a head with an opcode that the receiver does not know, is passed over. |
| `WebSocket.FrameStep` | Sylar/HttpServer/ws_session.cc:106-178 | What one frame of a sender, empty or not, does to a receiver in any state. |
| `WebSocket.Reassembled` | Sylar/HttpServer/ws_session.cc:102-181 | For every limit of 32 bits: a message in fragments, with any masks and with empty pings and pongs between, is put together again if and only if every fragment is taken (not empty, its length a positive int, the total below the limit, the count of bytes before it an int) and masked when it comes from a client; the rest of the stream is left, each ping is answered. |
| `WebSocket.ReassembledBelowLimit` | Sylar/HttpServer/ws_session.cc:102-181 | For a limit of at most 2^31 that is: the total is below the limit, no fragment is empty, and they are masked when they come from a client; otherwise the stream is closed. |
| `WebSocket.BelowLimitIsNotEnough` | Sylar/HttpServer/ws_session.cc:157-159 | On an empty fragment, and on one of 2^31 bytes or more that is below the limit, the stream is closed. |
| `WebSocketSession.Stream.ReadFixSize` | Sylar/stream.cc:5-17 | All bytes asked for, whatever the short reads, or a failure if the stream ends; the result is the length as an int, and nothing is read for a length that is negative as a signed number. |
| `WebSocketSession.Stream.WriteFixSize` | Sylar/stream.cc:31-44 | All bytes go out in order, whatever the short writes, and the result is their number as an int; or a write fails, and those went out for which there was room. |
| `WebSocketSession.MaskInPlace` | Sylar/HttpServer/ws_session.cc:214-221 | Masks the given part of a buffer in place and nothing else. |
| `WebSocketSession.SendMessage` | Sylar/HttpServer/ws_session.cc:183-234 | Writes exactly the bytes of the frame, its opcode cut to four bits, as far as there is room; the stream is closed if and only if a write fails or the length is no positive int, as for an empty message; a client leaves its message masked once the head has gone out. |
| `WebSocketSession.ReceiveMessage` | Sylar/HttpServer/ws_session.cc:102-181 | The message, the pongs and what is left of the stream are those of the specification, whatever the short reads; a failure closes the stream, and so does the first ping that cannot be answered; nothing is promised where the specification says undefined. |
| `Url.UrlEncode` | Sylar/util.cc:430-459 | The encoding of the string, with the buffer made lazily. |
| `Url.EncodedByte` | Sylar/util.cc:384-459 | Letters, digits and - . _ ~ = stay, a space becomes a plus sign if so asked, and all else becomes a percent sign and two upper-case hexadecimal digits, the higher first. |
| `Url.EncodeConcat` | Sylar/util.cc:434-451 | The characters are encoded one by one. |
| `Url.EncodedIsSafe` | Sylar/util.cc:384-459 | An encoding holds letters, digits, - . _ ~ = and percent signs only, and plus signs if so asked. |
| `Url.UrlDecode` | Sylar/util.cc:461-490 | The decoding of the string, with the buffer made lazily. |
| `Url.EscapesAreRead` | Sylar/util.cc:471-478 | A percent sign and two hexadecimal digits, in upper or lower case, are the byte that they spell. |
| `Url.OthersAreKept` | Sylar/util.cc:465-481 | All else stays, a percent sign without two digits too, except that a plus sign becomes a space if so asked. |
| `Url.UrlRoundTripExactly` | Sylar/util.cc:430-490 | Decoding inverts encoding for every byte string, if and only if it is not the case that spaces are sent as plus signs and not read as such. |
| `Query.ParseParams` | Sylar/HttpServer/http.cc:217-233 | The loop over positions inserts what the specification does. |
| `Query.ParseNext` | Sylar/HttpServer/http.cc:219-232 | What stands up to the next equals sign is a key, ampersands and all, and what stands from there to the next ampersand is its value, decoded; a key that is there already keeps its value. |
| `Query.ParseNothing` | Sylar/HttpServer/http.cc:221-224 | Without another equals sign nothing more is taken. |
| `Query.FoldAlikeExactly` | Sylar/HttpServer/http.cc:53-56 | Two keys are one if and only if, up to their first zero bytes, they have the same length and differ in nothing but the case of letters. |
| `Query.QueryRoundTrip` | Sylar/HttpServer/http.cc:212-237 | A query made of plain keys and encoded values is parsed into the first value of every key, compared without case, and no other keys. |

## Left out

- The idle fiber, the idle counter, tickle and timers: they decide when a thread looks, not what it may do; that a thread which can go on does so is not modelled.
- `Scheduler::start`, `stop` and `switchTo`: thread creation and joining; the root thread's `call` and `back`.
- A callback of a worker group that throws: its permit is never given back, so waitAll never returns.
- Context switching, epoll, sockets, hooks and locks themselves: the runtime model starts from their effects.
- `IOManager::stopping`, which also asks for pending events and timers.
- A context that one thread has looked up and another one has cut off the table before the event is added to it: runs have the table cover the descriptor.
- Memory order: unlocked accesses to a fiber's state are single steps.
- Bitmaps.Bitmap.Flip: the 64-bit loop of plain `~` is one loop over words here.
- Bitmap `any`, `resize`, `getCount`, `getCompressRate`, `operator==` and serialization.
- Runs of more than three words in a hand-made compressed bitmap: shifts by more than 31 bits are undefined in the source and count as zero here.
- Iterators on bitmaps so large that a position does not fit 31 bits, and `cross` with a shorter bitmap, or with a compressed one of another size: undefined in the source, excluded by preconditions.
- ByteArray file input and output, hexadecimal printing, positional reads elsewhere, and floating-point values beyond their bit patterns; freeing of blocks; `ceil` in floating point is exact below 2^53.
- ByteArrays.ByteArray.ToString: the copy loop is the walk of getReadBuffers.
- Messages.ReadMessage: the bodies that rock messages have after their fields are not read here; neither are compression and the network framing around messages modelled.
- Cache status counters and prune callbacks; locks of the containers and the name server; `HashMap::clear` and `wforeach`, whose code does not keep the map usable.
- HashMaps.HashMap.Set: the floating-point load test is a parameter that reports no load of 16 or less; initial sizes and totals of a crowded map that are multiples of 2^31 are excluded, because `basket` takes the logarithm of an `int`.
- WebSocket: what the receiver does after it has lost count of its bytes, which takes a limit above 2^31 and is undefined in the source; control frames with a payload, CLOSE, the handshake.
- HTTP beyond queries: cookies and bodies use the same loop with other separators and are not modelled.
- Name server notifications, which the source has commented out, and node addresses beyond the id made of them.
- Time wheel, timed cache, multimap, dictionary, database and configuration code.
