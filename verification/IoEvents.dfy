/**
 The table of continuations parked on file descriptors (Sylar/iomanager.h,
 Sylar/iomanager.cc). Each region below runs under the descriptor's own lock.
 */
module IoEvents {
  import opened Prelude
  import opened Fibers

  datatype Event = READ | WRITE

  /** `EventContext`. `serial` numbers the registrations; it means something only while the
      slot is taken. */
  datatype EventContext = EventContext(
    scheduler: Option<SchedulerId>,
    fiber: Option<FiberId>,
    cb: Option<nat>,
    serial: nat)

  const EMPTY_SLOT := EventContext(None, None, None, 0)

  /** `FdContext`; the event mask is the set of its bits. */
  datatype FdContext = FdContext(events: set<Event>, read: EventContext, write: EventContext)

  const EMPTY_CONTEXT := FdContext({}, EMPTY_SLOT, EMPTY_SLOT)

  /** `getContext`. */
  function Slot(c: FdContext, e: Event): EventContext {
    if e == READ then c.read else c.write
  }

  function WithSlot(c: FdContext, e: Event, slot: EventContext): FdContext {
    if e == READ then c.(read := slot) else c.(write := slot)
  }

  predicate IsEmpty(slot: EventContext) {
    slot.scheduler.None? && slot.fiber.None? && slot.cb.None?
  }

  datatype EpollOp = ADD | MOD | DEL

  /** The manager's fields, the kernel's interest list, and the history of registrations:
      what was registered, what was handed to a scheduler, what was dropped. */
  datatype IoState = IoState(
    contexts: seq<FdContext>,
    kernel: map<nat, set<Event>>,
    pending: int,
    registered: seq<Parked>,
    handed: seq<(nat, Parked)>,
    dropped: seq<nat>)

  // ---------------------------------------------------------------- operations on values

  /** The kernel refuses to add a descriptor twice, and to modify or remove one it does not
      know; it may also refuse for reasons of its own. */
  predicate EpollAccepts(kernel: map<nat, set<Event>>, op: EpollOp, fd: nat, refuses: bool) {
    !refuses && (op == ADD <==> fd !in kernel)
  }

  function EpollEffect(kernel: map<nat, set<Event>>, op: EpollOp, fd: nat, mask: set<Event>): map<nat, set<Event>> {
    if op == DEL then kernel - {fd} else kernel[fd := mask]
  }

  /** `contextResize`: also shrinks, if asked to. */
  function Resized(cs: seq<FdContext>, size: nat): (r: seq<FdContext>)
    ensures |r| == size
    ensures forall i :: 0 <= i < size ==> r[i] == if i < |cs| then cs[i] else EMPTY_CONTEXT
  {
    seq(size, i requires 0 <= i < size => if i < |cs| then cs[i] else EMPTY_CONTEXT)
  }

  /** What `addEvent` makes of the table for a descriptor that it did not find there. */
  function Grown(s: IoState, fd: nat): IoState {
    s.(contexts := Resized(s.contexts, fd * 3 / 2))
  }

  function RemovalOp(left: set<Event>): EpollOp {
    if left == {} then DEL else MOD
  }

  function Parkable(scheduler: SchedulerId, fiber: FiberId, cb: Option<nat>): Parked {
    Parked(scheduler, if cb.Some? then Call(cb.value) else Resume(fiber))
  }

  function Added(s: IoState, fd: nat, e: Event, scheduler: SchedulerId, fiber: FiberId, cb: Option<nat>): IoState
    requires fd < |s.contexts|
  {
    var c := s.contexts[fd];
    var slot := EventContext(Some(scheduler), if cb.Some? then None else Some(fiber), cb, |s.registered|);
    s.(contexts := s.contexts[fd := WithSlot(c, e, slot).(events := c.events + {e})],
       kernel := s.kernel[fd := c.events + {e}],
       pending := s.pending + 1,
       registered := s.registered + [Parkable(scheduler, fiber, cb)])
  }

  predicate Triggerable(s: IoState, fd: nat, e: Event) {
    && fd < |s.contexts| && e in s.contexts[fd].events
    && var slot := Slot(s.contexts[fd], e);
    slot.scheduler.Some? && (slot.fiber.Some? || slot.cb.Some?)
  }

  function ParkedIn(slot: EventContext): Parked
    requires slot.scheduler.Some? && (slot.fiber.Some? || slot.cb.Some?)
  {
    Parked(slot.scheduler.value, if slot.cb.Some? then Call(slot.cb.value) else Resume(slot.fiber.value))
  }

  /** `triggerEvent`, with the counter update that each of its callers makes. */
  function Triggered(s: IoState, fd: nat, e: Event): IoState
    requires Triggerable(s, fd, e)
  {
    var c := s.contexts[fd];
    var slot := Slot(c, e);
    var left := if slot.cb.Some? then slot.(cb := None) else slot.(fiber := None);
    s.(contexts := s.contexts[fd := WithSlot(c, e, left.(scheduler := None)).(events := c.events - {e})],
       pending := s.pending - 1,
       handed := s.handed + [(slot.serial, ParkedIn(slot))])
  }

  function TriggeredAll(s: IoState, fd: nat, which: set<Event>): IoState
    requires READ in which ==> Triggerable(s, fd, READ)
    requires WRITE in which ==> Triggerable(s, fd, WRITE)
  {
    if READ !in which then
      if WRITE in which then Triggered(s, fd, WRITE) else s
    else
      var s1 := Triggered(s, fd, READ);
      if WRITE in which then Triggered(s1, fd, WRITE) else s1
  }

  function Unregistered(s: IoState, fd: nat, which: set<Event>): IoState
    requires fd < |s.contexts|
  {
    var left := s.contexts[fd].events - which;
    s.(kernel := EpollEffect(s.kernel, RemovalOp(left), fd, left))
  }

  /** `delEvent`: the continuation is dropped, not triggered. */
  function Deleted(s: IoState, fd: nat, e: Event): IoState
    requires fd < |s.contexts|
  {
    var c := s.contexts[fd];
    Unregistered(s, fd, {e}).(
      contexts := s.contexts[fd := WithSlot(c, e, EMPTY_SLOT).(events := c.events - {e})],
      pending := s.pending - 1,
      dropped := s.dropped + [Slot(c, e).serial])
  }

  // ---------------------------------------------------------------- the invariant

  predicate SlotMatches(registered: seq<Parked>, c: FdContext, e: Event) {
    var slot := Slot(c, e);
    if e in c.events then
      && slot.scheduler.Some? && (slot.fiber.Some? != slot.cb.Some?)
      && slot.serial < |registered| && registered[slot.serial] == ParkedIn(slot)
    else
      IsEmpty(slot)
  }

  ghost predicate SlotsMatch(s: IoState) {
    forall fd, e :: 0 <= fd < |s.contexts| ==> SlotMatches(s.registered, s.contexts[fd], e)
  }

  /** The kernel watches exactly what the table holds. */
  ghost predicate KernelAgrees(s: IoState) {
    && (forall fd :: fd in s.kernel <==> 0 <= fd < |s.contexts| && s.contexts[fd].events != {})
    && (forall fd :: fd in s.kernel ==> 0 <= fd < |s.contexts| && s.kernel[fd] == s.contexts[fd].events)
  }

  function BitCount(cs: seq<FdContext>): nat {
    if cs == [] then 0 else |cs[0].events| + BitCount(cs[1..])
  }

  /** Where a registration can be. */
  datatype Where = AtSlot(fd: nat, e: Event) | AtHanded(i: nat) | AtDropped(j: nat)

  predicate IsAt(s: IoState, w: Where, serial: nat) {
    match w
    case AtSlot(fd, e) =>
      fd < |s.contexts| && e in s.contexts[fd].events && Slot(s.contexts[fd], e).serial == serial
    case AtHanded(i) => i < |s.handed| && s.handed[i].0 == serial
    case AtDropped(j) => j < |s.dropped| && s.dropped[j] == serial
  }

  ghost predicate IsPlaced(s: IoState, serial: nat) {
    exists w :: IsAt(s, w, serial)
  }

  /** Each registration is parked, or was handed over once, or was dropped once. */
  ghost predicate RegistrationsConserved(s: IoState) {
    && (forall k: nat, v, w :: IsAt(s, v, k) && IsAt(s, w, k) ==> v == w)
    && (forall k: nat, w :: IsAt(s, w, k) ==> k < |s.registered|)
    && (forall k: nat :: k < |s.registered| ==> IsPlaced(s, k))
    && (forall i :: 0 <= i < |s.handed| ==>
          s.handed[i].0 < |s.registered| && s.handed[i].1 == s.registered[s.handed[i].0])
  }

  ghost predicate Consistent(s: IoState) {
    && SlotsMatch(s)
    && KernelAgrees(s)
    && s.pending == BitCount(s.contexts)
    && RegistrationsConserved(s)
  }

  // ---------------------------------------------------------------- the bit count

  lemma {:induction false} BitCountUpdate(cs: seq<FdContext>, fd: nat, c: FdContext)
    requires fd < |cs|
    ensures BitCount(cs[fd := c]) == BitCount(cs) - |cs[fd].events| + |c.events|
  {
    if fd == 0 {
      assert cs[0 := c][1..] == cs[1..];
    } else {
      BitCountUpdate(cs[1..], fd - 1, c);
      assert cs[fd := c][1..] == cs[1..][fd - 1 := c];
    }
  }

  lemma {:induction false} BitCountGrows(cs: seq<FdContext>, size: nat)
    requires |cs| <= size
    ensures BitCount(Resized(cs, size)) == BitCount(cs)
    decreases size
  {
    var r := Resized(cs, size);
    if size > 0 {
      if cs == [] {
        BitCountGrows([], size - 1);
        assert r[1..] == Resized([], size - 1);
      } else {
        BitCountGrows(cs[1..], size - 1);
        assert r[1..] == Resized(cs[1..], size - 1);
      }
    }
  }

  lemma {:induction false} BitCountZero(cs: seq<FdContext>, fd: nat)
    requires fd < |cs| && BitCount(cs) == 0
    ensures cs[fd].events == {}
  {
    if fd > 0 {
      BitCountZero(cs[1..], fd - 1);
    }
  }

  // ---------------------------------------------------------------- registrations change place

  /** Registrations stay put, except that those at `from` go to `to`. */
  ghost predicate Relocates(s: IoState, s': IoState, from: Where, to: Where) {
    && s'.registered == s.registered
    && (forall k, w :: IsAt(s', w, k) ==> if w == to then IsAt(s, from, k) else w != from && IsAt(s, w, k))
    && (forall k, w :: IsAt(s, w, k) ==> IsAt(s', if w == from then to else w, k))
  }

  lemma RelocatingKeepsPlaces(s: IoState, s': IoState, from: Where, to: Where)
    requires RegistrationsConserved(s) && Relocates(s, s', from, to)
    requires forall i :: 0 <= i < |s'.handed| ==>
      s'.handed[i].0 < |s.registered| && s'.handed[i].1 == s.registered[s'.handed[i].0]
    ensures RegistrationsConserved(s')
  {
    forall k: nat | k < |s'.registered|
      ensures IsPlaced(s', k)
    {
      assert IsPlaced(s, k);
      var w :| IsAt(s, w, k);
      assert IsAt(s', if w == from then to else w, k);
    }
  }

  // ---------------------------------------------------------------- every operation keeps it

  lemma GrowingKeepsConsistent(s: IoState, size: nat)
    requires Consistent(s) && |s.contexts| <= size
    ensures Consistent(s.(contexts := Resized(s.contexts, size)))
  {
    BitCountGrows(s.contexts, size);
    var s' := s.(contexts := Resized(s.contexts, size));
    assert forall k, w :: IsAt(s', w, k) <==> IsAt(s, w, k);
    assert forall k :: IsPlaced(s, k) ==> IsPlaced(s', k);
    forall i, e | 0 <= i < size
      ensures SlotMatches(s'.registered, s'.contexts[i], e)
    {
      assert i < |s.contexts| ==> SlotMatches(s.registered, s.contexts[i], e);
    }
  }

  /** One context changes; registrations may be appended. */
  lemma UpdateKeepsSlots(s: IoState, s': IoState, fd: nat)
    requires SlotsMatch(s) && fd < |s.contexts| && |s'.contexts| == |s.contexts|
    requires s.registered <= s'.registered
    requires forall i :: 0 <= i < |s.contexts| && i != fd ==> s'.contexts[i] == s.contexts[i]
    requires SlotMatches(s'.registered, s'.contexts[fd], READ) && SlotMatches(s'.registered, s'.contexts[fd], WRITE)
    ensures SlotsMatch(s')
  {
    forall i, e | 0 <= i < |s'.contexts|
      ensures SlotMatches(s'.registered, s'.contexts[i], e)
    {
      if i != fd {
        assert SlotMatches(s.registered, s.contexts[i], e);
      } else if e == READ {
      }
    }
  }

  lemma AddKeepsPlaces(s: IoState, fd: nat, e: Event, scheduler: SchedulerId, fiber: FiberId, cb: Option<nat>)
    requires RegistrationsConserved(s) && fd < |s.contexts| && e !in s.contexts[fd].events
    ensures RegistrationsConserved(Added(s, fd, e, scheduler, fiber, cb))
  {
    var s', n := Added(s, fd, e, scheduler, fiber, cb), |s.registered|;
    assert forall k, w :: IsAt(s', w, k) ==> IsAt(s, w, k) || (w == AtSlot(fd, e) && k == n);
    assert forall k, w :: IsAt(s, w, k) ==> IsAt(s', w, k);
    forall k: nat | k < |s'.registered|
      ensures IsPlaced(s', k)
    {
      if k == n {
        assert IsAt(s', AtSlot(fd, e), k);
      } else {
        assert IsPlaced(s, k);
      }
    }
  }

  lemma AddKeepsConsistent(s: IoState, fd: nat, e: Event, scheduler: SchedulerId, fiber: FiberId, cb: Option<nat>)
    requires Consistent(s) && fd < |s.contexts| && e !in s.contexts[fd].events
    ensures Consistent(Added(s, fd, e, scheduler, fiber, cb))
  {
    var s' := Added(s, fd, e, scheduler, fiber, cb);
    BitCountUpdate(s.contexts, fd, s'.contexts[fd]);
    AddKeepsPlaces(s, fd, e, scheduler, fiber, cb);
    assert SlotMatches(s.registered, s.contexts[fd], READ) && SlotMatches(s.registered, s.contexts[fd], WRITE);
    UpdateKeepsSlots(s, s', fd);
  }

  /** The descriptor is unregistered if and only if it has no events, and the slot is empty. */
  lemma AddFindsRoom(s: IoState, fd: nat, e: Event)
    requires Consistent(s) && fd < |s.contexts| && e !in s.contexts[fd].events
    ensures s.contexts[fd].events == {} <==> fd !in s.kernel
    ensures IsEmpty(Slot(s.contexts[fd], e))
  {
    assert SlotMatches(s.registered, s.contexts[fd], e);
  }

  lemma TriggerKeepsPlaces(s: IoState, fd: nat, e: Event)
    requires RegistrationsConserved(s) && Triggerable(s, fd, e) && SlotMatches(s.registered, s.contexts[fd], e)
    ensures RegistrationsConserved(Triggered(s, fd, e))
  {
    RelocatingKeepsPlaces(s, Triggered(s, fd, e), AtSlot(fd, e), AtHanded(|s.handed|));
  }

  /** All but agreement with the kernel, which the caller has already told. */
  ghost predicate TableConsistent(s: IoState) {
    SlotsMatch(s) && s.pending == BitCount(s.contexts) && RegistrationsConserved(s)
  }

  lemma TriggerKeepsTable(s: IoState, fd: nat, e: Event)
    requires TableConsistent(s) && fd < |s.contexts| && e in s.contexts[fd].events
    ensures Triggerable(s, fd, e) && TableConsistent(Triggered(s, fd, e))
  {
    assert SlotMatches(s.registered, s.contexts[fd], READ) && SlotMatches(s.registered, s.contexts[fd], WRITE);
    var s' := Triggered(s, fd, e);
    TriggerKeepsPlaces(s, fd, e);
    BitCountUpdate(s.contexts, fd, s'.contexts[fd]);
    UpdateKeepsSlots(s, s', fd);
  }

  lemma DeleteKeepsPlaces(s: IoState, fd: nat, e: Event)
    requires RegistrationsConserved(s) && fd < |s.contexts| && e in s.contexts[fd].events
    ensures RegistrationsConserved(Deleted(s, fd, e))
  {
    RelocatingKeepsPlaces(s, Deleted(s, fd, e), AtSlot(fd, e), AtDropped(|s.dropped|));
  }

  lemma DeleteKeepsTable(s: IoState, fd: nat, e: Event)
    requires TableConsistent(s) && fd < |s.contexts| && e in s.contexts[fd].events
    ensures TableConsistent(Deleted(s, fd, e))
  {
    assert SlotMatches(s.registered, s.contexts[fd], READ) && SlotMatches(s.registered, s.contexts[fd], WRITE);
    var s' := Deleted(s, fd, e);
    DeleteKeepsPlaces(s, fd, e);
    BitCountUpdate(s.contexts, fd, s'.contexts[fd]);
    UpdateKeepsSlots(s, s', fd);
  }

  /** Telling the kernel of `left` and then reducing the context to `left` keeps them equal. */
  lemma RemovalKeepsKernel(s: IoState, s': IoState, fd: nat, which: set<Event>)
    requires KernelAgrees(s) && fd < |s.contexts| && |s'.contexts| == |s.contexts|
    requires forall i :: 0 <= i < |s.contexts| && i != fd ==> s'.contexts[i].events == s.contexts[i].events
    requires s'.contexts[fd].events == s.contexts[fd].events - which
    requires s'.kernel == Unregistered(s, fd, which).kernel
    ensures KernelAgrees(s')
  {
  }

  /** The event part of `cancelEvent`, `cancelAll` and `idle`: tell the kernel, then hand
      over each of the events. */
  function Fired(s: IoState, fd: nat, which: set<Event>): IoState
    requires READ in which ==> Triggerable(s, fd, READ)
    requires WRITE in which ==> Triggerable(s, fd, WRITE)
    requires fd < |s.contexts|
  {
    TriggeredAll(Unregistered(s, fd, which), fd, which)
  }

  lemma SameEvents(a: set<Event>, b: set<Event>)
    requires READ in a <==> READ in b
    requires WRITE in a <==> WRITE in b
    ensures a == b
  {
    forall e: Event
      ensures e in a <==> e in b
    {
      match e
      case READ =>
      case WRITE =>
    }
  }

  lemma UnregisterKeepsTable(s: IoState, fd: nat, which: set<Event>)
    requires TableConsistent(s) && fd < |s.contexts|
    ensures TableConsistent(Unregistered(s, fd, which))
  {
    var s' := Unregistered(s, fd, which);
    assert forall k, w :: IsAt(s', w, k) <==> IsAt(s, w, k);
    assert forall k :: IsPlaced(s, k) ==> IsPlaced(s', k);
  }

  lemma FireKeepsTable(s: IoState, fd: nat, which: set<Event>)
    requires TableConsistent(s) && fd < |s.contexts| && which <= s.contexts[fd].events
    ensures READ in which ==> Triggerable(s, fd, READ)
    ensures WRITE in which ==> Triggerable(s, fd, WRITE)
    ensures TableConsistent(TriggeredAll(s, fd, which))
  {
    assert SlotMatches(s.registered, s.contexts[fd], READ) && SlotMatches(s.registered, s.contexts[fd], WRITE);
    if READ in which {
      TriggerKeepsTable(s, fd, READ);
      if WRITE in which {
        TriggerKeepsTable(Triggered(s, fd, READ), fd, WRITE);
      }
    } else if WRITE in which {
      TriggerKeepsTable(s, fd, WRITE);
    }
  }

  lemma FireKeepsConsistent(s: IoState, fd: nat, which: set<Event>)
    requires Consistent(s) && fd < |s.contexts| && which <= s.contexts[fd].events
    ensures READ in which ==> Triggerable(s, fd, READ)
    ensures WRITE in which ==> Triggerable(s, fd, WRITE)
    ensures Consistent(Fired(s, fd, which))
  {
    FireKeepsTable(s, fd, which);
    UnregisterKeepsTable(s, fd, which);
    FireKeepsTable(Unregistered(s, fd, which), fd, which);
    FireKeepsKernel(s, fd, which);
  }

  lemma FireKeepsKernel(s: IoState, fd: nat, which: set<Event>)
    requires KernelAgrees(s) && fd < |s.contexts| && which <= s.contexts[fd].events
    requires READ in which ==> Triggerable(s, fd, READ)
    requires WRITE in which ==> Triggerable(s, fd, WRITE)
    ensures KernelAgrees(Fired(s, fd, which))
  {
    var s' := Fired(s, fd, which);
    SameEvents(s'.contexts[fd].events, s.contexts[fd].events - which);
    RemovalKeepsKernel(s, s', fd, which);
  }

  /** What a caller of these operations can rely on, field by field: the continuations that
      were parked for the events in `gone` are handed over as they were registered, that of
      READ first; they are no longer in the table, and everything else is as it was. */
  predicate HandsOver(s: IoState, fd: nat, gone: set<Event>, s': IoState) {
    && |s'.contexts| == |s.contexts| && fd < |s.contexts|
    && (forall i :: 0 <= i < |s.contexts| && i != fd ==> s'.contexts[i] == s.contexts[i])
    && var was, now := s.contexts[fd], s'.contexts[fd];
    && gone <= was.events && now.events == was.events - gone
    && (READ !in gone ==> now.read == was.read)
    && (WRITE !in gone ==> now.write == was.write)
    && s'.registered == s.registered && s'.dropped == s.dropped
    && s'.pending == s.pending - |gone|
    && (READ in gone ==> was.read.serial < |s.registered|)
    && (WRITE in gone ==> was.write.serial < |s.registered|)
    && s'.handed == s.handed
        + (if READ in gone then [(was.read.serial, s.registered[was.read.serial])] else [])
        + (if WRITE in gone then [(was.write.serial, s.registered[was.write.serial])] else [])
  }

  lemma FiringHandsOver(s: IoState, fd: nat, which: set<Event>, s': IoState)
    requires SlotsMatch(s) && FiresAll(s, fd, which, s') && which <= s.contexts[fd].events
    ensures HandsOver(s, fd, which, s')
  {
    assert SlotMatches(s.registered, s.contexts[fd], READ) && SlotMatches(s.registered, s.contexts[fd], WRITE);
    SameEvents(s'.contexts[fd].events, s.contexts[fd].events - which);
    SameEvents(which, (if READ in which then {READ} else {}) + (if WRITE in which then {WRITE} else {}));
    assert s'.pending == s.pending - |which|;
  }

  // ---------------------------------------------------------------- whole runs

  /** One locked region of a call, or one event delivered to `idle`. `addEvent` has two: it
      grows the table if it did not find the descriptor, and adds the event under the lock of
      the descriptor. Others may come between. `refuses` lets the kernel fail a call that it
      could have accepted. */
  datatype Op =
    | Grow(fd: nat)
    | Add(fd: nat, e: Event, scheduler: SchedulerId, fiber: FiberId, cb: Option<nat>, refuses: bool)
    | Del(fd: nat, e: Event, refuses: bool)
    | Cancel(fd: nat, e: Event, refuses: bool)
    | CancelAll(fd: nat, refuses: bool)
    | Deliver(fd: nat, reported: set<Event>, hangup: bool, refuses: bool)

  /** What `idle` acts on: an error or hang-up stands for everything registered. */
  function Real(events: set<Event>, reported: set<Event>, hangup: bool): set<Event> {
    reported + if hangup then events else {}
  }

  lemma RealEvents(events: set<Event>, reported: set<Event>, hangup: bool)
    ensures var live, gone := Real(events, reported, hangup), if hangup then events else events * reported;
      && events * live == gone
      && (live <= events ==> live == gone)
      && (live <= events <==> reported <= events)
  {
  }

  /** Callers of `addEvent` may not add an event twice, and the table covers the descriptor. */
  predicate MayAdd(s: IoState, fd: nat, e: Event) {
    fd < |s.contexts| && e !in s.contexts[fd].events
  }

  /** Nothing is parked on descriptors from `size` on. */
  ghost predicate NothingFrom(s: IoState, size: nat) {
    forall fd :: size <= fd < |s.contexts| ==> s.contexts[fd].events == {}
  }

  /** The events that the kernel reported are all still registered, or none of them is. */
  predicate MayDeliver(s: IoState, fd: nat, live: set<Event>) {
    fd < |s.contexts| && (s.contexts[fd].events * live == {} || live <= s.contexts[fd].events)
  }

  ghost predicate MayRun(s: IoState, op: Op) {
    match op
    case Grow(fd) => NothingFrom(s, fd * 3 / 2)
    case Add(fd, e, _, _, _, _) => MayAdd(s, fd, e)
    case Deliver(fd, reported, hangup, _) =>
      fd < |s.contexts| && MayDeliver(s, fd, Real(s.contexts[fd].events, reported, hangup))
    case _ => true
  }

  ghost predicate IsStep(s: IoState, op: Op, s': IoState) {
    match op
    case Grow(fd) => s' == Grown(s, fd)
    case Add(fd, e, scheduler, fiber, cb, refuses) =>
      MayAdd(s, fd, e) && s' == if refuses then s else Added(s, fd, e, scheduler, fiber, cb)
    case Del(fd, e, refuses) =>
      s' == if refuses || fd >= |s.contexts| || e !in s.contexts[fd].events then s else Deleted(s, fd, e)
    case Cancel(fd, e, refuses) =>
      if refuses || fd >= |s.contexts| || e !in s.contexts[fd].events then s' == s
      else Triggerable(s, fd, e) && s' == Fired(s, fd, {e})
    case CancelAll(fd, refuses) =>
      if refuses || fd >= |s.contexts| || s.contexts[fd].events == {} then s' == s
      else FiresAll(s, fd, s.contexts[fd].events, s')
    case Deliver(fd, reported, hangup, refuses) =>
      fd < |s.contexts| &&
      var live := Real(s.contexts[fd].events, reported, hangup);
      if refuses || s.contexts[fd].events * live == {} then s' == s
      else FiresAll(s, fd, live, s')
  }

  ghost predicate FiresAll(s: IoState, fd: nat, which: set<Event>, s': IoState) {
    && fd < |s.contexts|
    && (READ in which ==> Triggerable(s, fd, READ))
    && (WRITE in which ==> Triggerable(s, fd, WRITE))
    && s' == Fired(s, fd, which)
  }

  /** Every permitted operation keeps the table consistent. */
  lemma StepKeepsConsistent(s: IoState, op: Op, s': IoState)
    requires Consistent(s) && MayRun(s, op) && IsStep(s, op, s')
    ensures Consistent(s')
  {
    match op
    case Grow(fd) =>
      if |s.contexts| <= fd * 3 / 2 {
        GrowingKeepsConsistent(s, fd * 3 / 2);
      } else {
        StaleResizeExactly(s, fd * 3 / 2);
      }
    case Add(fd, e, scheduler, fiber, cb, refuses) =>
      if !refuses {
        AddKeepsConsistent(s, fd, e, scheduler, fiber, cb);
      }
    case Del(fd, e, refuses) =>
      if s' != s {
        DeleteKeepsTable(s, fd, e);
        RemovalKeepsKernel(s, s', fd, {e});
      }
    case Cancel(fd, e, refuses) =>
      if s' != s {
        FireKeepsConsistent(s, fd, {e});
      }
    case CancelAll(fd, refuses) =>
      if s' != s {
        FireKeepsConsistent(s, fd, s.contexts[fd].events);
      }
    case Deliver(fd, reported, hangup, refuses) =>
      if s' != s {
        FireKeepsConsistent(s, fd, Real(s.contexts[fd].events, reported, hangup));
      }
  }

  ghost predicate IsRun(run: seq<IoState>, ops: seq<Op>) {
    && |run| == |ops| + 1
    && run[0] == Fresh()
    && forall i :: 0 <= i < |ops| ==> MayRun(run[i], ops[i]) && IsStep(run[i], ops[i], run[i + 1])
  }

  function Fresh(): IoState {
    IoState(Resized([], 32), map[], 0, [], [], [])
  }

  lemma FreshIsConsistent()
    ensures Consistent(Fresh())
  {
    EmptyIsConsistent(32);
  }

  lemma EmptyIsConsistent(n: nat)
    ensures Consistent(IoState(Resized([], n), map[], 0, [], [], []))
  {
    BitCountGrows([], n);
  }

  lemma {:induction false} RunsAreConsistent(run: seq<IoState>, ops: seq<Op>, i: nat)
    requires IsRun(run, ops) && i < |run|
    ensures Consistent(run[i])
  {
    if i == 0 {
      FreshIsConsistent();
    } else {
      RunsAreConsistent(run, ops, i - 1);
      StepKeepsConsistent(run[i - 1], ops[i - 1], run[i]);
    }
  }

  /** Over every run each registered continuation is parked in one slot, or was handed to
      the scheduler it was registered with exactly once, or was dropped exactly once; and
      the counter that `stopping` reads is zero only if none is parked. */
  lemma EachContinuationOnce(run: seq<IoState>, ops: seq<Op>, i: nat, serial: nat)
    requires IsRun(run, ops) && i < |run| && serial < |run[i].registered|
    ensures exists w :: IsAt(run[i], w, serial) && forall v :: IsAt(run[i], v, serial) ==> v == w
    ensures forall j :: 0 <= j < |run[i].handed| && run[i].handed[j].0 == serial ==>
      run[i].handed[j].1 == run[i].registered[serial]
    ensures run[i].pending == 0 ==> forall fd: nat, e :: !IsAt(run[i], AtSlot(fd, e), serial)
  {
    RunsAreConsistent(run, ops, i);
    assert IsPlaced(run[i], serial);
    var w :| IsAt(run[i], w, serial);
    assert forall v :: IsAt(run[i], v, serial) ==> v == w;
    if run[i].pending == 0 {
      forall fd: nat, e
        ensures !IsAt(run[i], AtSlot(fd, e), serial)
      {
        if fd < |run[i].contexts| {
          BitCountZero(run[i].contexts, fd);
        }
      }
    }
  }

  // ---------------------------------------------------------------- what can go wrong

  /** The assertion in `triggerEvent` fails during a delivery exactly if some of the reported
      events are registered and some are not. */
  predicate DeliveryAborts(s: IoState, fd: nat, live: set<Event>) {
    fd < |s.contexts| && s.contexts[fd].events * live != {} && !(live <= s.contexts[fd].events)
  }

  /** It can happen: both events are reported, and before the report is handled another
      thread cancels one of them. */
  lemma DeliveryCanAbort(s: IoState, fd: nat, s': IoState)
    requires Consistent(s) && fd < |s.contexts| && s.contexts[fd].events == {READ, WRITE}
    requires IsStep(s, Cancel(fd, READ, false), s')
    ensures Consistent(s') && DeliveryAborts(s', fd, Real(s'.contexts[fd].events, {READ, WRITE}, false))
  {
    StepKeepsConsistent(s, Cancel(fd, READ, false), s');
    assert READ !in s'.contexts[fd].events && WRITE in s'.contexts[fd].events;
    assert WRITE in s'.contexts[fd].events * {READ, WRITE};
  }

  /** Looking a descriptor up and growing the table are two locked regions. A thread that
      grows the table for a small descriptor after another thread has grown it further cuts
      it back; that is harmless exactly if nothing is parked on what is cut off. */
  lemma StaleResizeExactly(s: IoState, size: nat)
    requires Consistent(s) && size < |s.contexts|
    ensures Consistent(s.(contexts := Resized(s.contexts, size))) <==> NothingFrom(s, size)
  {
    var s' := s.(contexts := Resized(s.contexts, size));
    if NothingFrom(s, size) {
      BitCountShrinks(s.contexts, size);
      assert forall k, w :: IsAt(s', w, k) <==> IsAt(s, w, k);
      assert forall k :: IsPlaced(s, k) ==> IsPlaced(s', k);
      forall i, e | 0 <= i < size
        ensures SlotMatches(s'.registered, s'.contexts[i], e)
      {
        assert SlotMatches(s.registered, s.contexts[i], e);
      }
    } else {
      var fd :| size <= fd < |s.contexts| && s.contexts[fd].events != {};
      assert fd in s.kernel;
    }
  }

  /** It can do harm: two threads look up descriptors `low` and `high` and find neither; the
      one grows the table for `high` and parks on it, and then the other one cuts the table.
      In a new table 32 and 100 will do: it grows to 150, and is cut to 48. */
  lemma StaleResizeCanCut(s: IoState, low: nat, high: nat, e: Event, p: Parked)
    requires Consistent(s) && |s.contexts| <= low && low * 3 / 2 <= high && 2 <= high && p.cont.Resume?
    ensures var s1 := Grown(s, high);
      && MayRun(s, Grow(high)) && MayAdd(s1, high, e)
      && var s2 := Added(s1, high, e, p.scheduler, p.cont.fiber, None);
      Consistent(s2) && !MayRun(s2, Grow(low)) && !Consistent(Grown(s2, low))
  {
    var s1 := Grown(s, high);
    GrowingKeepsConsistent(s, high * 3 / 2);
    AddKeepsConsistent(s1, high, e, p.scheduler, p.cont.fiber, None);
    var s2 := Added(s1, high, e, p.scheduler, p.cont.fiber, None);
    assert e in s2.contexts[high].events;
    StaleResizeExactly(s2, low * 3 / 2);
  }

  lemma {:induction false} BitCountShrinks(cs: seq<FdContext>, size: nat)
    requires size <= |cs| && forall fd :: size <= fd < |cs| ==> cs[fd].events == {}
    ensures BitCount(Resized(cs, size)) == BitCount(cs)
  {
    if cs != [] {
      if size == 0 {
        BitCountShrinks(cs[1..], 0);
        assert Resized(cs, 0) == Resized(cs[1..], 0);
      } else {
        BitCountShrinks(cs[1..], size - 1);
        assert Resized(cs, size)[1..] == Resized(cs[1..], size - 1);
      }
    }
  }

  // ---------------------------------------------------------------- the manager itself

  class IOManager {
    var contexts: seq<FdContext>
    var kernel: map<nat, set<Event>>
    var pending: int
    var registered: seq<Parked>
    var handed: seq<(nat, Parked)>
    var dropped: seq<nat>

    function State(): IoState
      reads this
    {
      IoState(contexts, kernel, pending, registered, handed, dropped)
    }

    constructor ()
      ensures State() == Fresh()
    {
      contexts := Resized([], 32);
      kernel, pending, registered, handed, dropped := map[], 0, [], [], [];
    }

    /** `epoll_ctl`. */
    method EpollCtl(op: EpollOp, fd: nat, mask: set<Event>, refuses: bool) returns (rt: int)
      modifies this`kernel
      ensures rt == if EpollAccepts(old(kernel), op, fd, refuses) then 0 else -1
      ensures kernel == if rt == 0 then EpollEffect(old(kernel), op, fd, mask) else old(kernel)
    {
      if refuses || ((op == ADD) != (fd !in kernel)) {
        return -1;
      }
      kernel := if op == DEL then kernel - {fd} else kernel[fd := mask];
      return 0;
    }

    /** `addEvent` once the descriptor's context is at hand, under its lock. */
    method AddLocked(fd: nat, e: Event, scheduler: SchedulerId, fiber: FiberId, cb: Option<nat>, refuses: bool)
      returns (rt: int)
      requires Consistent(State()) && fd < |contexts| && e !in contexts[fd].events
      modifies this
      ensures State() == if refuses then old(State()) else Added(old(State()), fd, e, scheduler, fiber, cb)
      ensures Consistent(State())
      // An operation that the kernel would refuse by its own rules is never asked for.
      ensures rt == if refuses then -1 else 0
      ensures !refuses ==>
        && registered == old(registered) + [Parked(scheduler, if cb.Some? then Call(cb.value) else Resume(fiber))]
        && pending == old(pending) + 1 && handed == old(handed) && dropped == old(dropped)
        && |contexts| == |old(contexts)|
        && (forall i :: 0 <= i < |contexts| && i != fd ==> contexts[i] == old(contexts)[i])
        && var was, now := old(contexts)[fd], contexts[fd];
        && now.events == was.events + {e}
        && (if e == READ then now.read else now.write).serial == |old(registered)|
        && (if e == READ then now.write == was.write else now.read == was.read)
    {
      ghost var s := State();
      var c := contexts[fd];
      var op := if c.events != {} then MOD else ADD;
      AddFindsRoom(s, fd, e);
      rt := EpollCtl(op, fd, c.events + {e}, refuses);
      if rt != 0 {
        return;
      }
      assert IsEmpty(Slot(c, e));  // the source's own assertion
      Store(fd, e, scheduler, fiber, cb, s);
      AddKeepsConsistent(s, fd, e, scheduler, fiber, cb);
    }

    /** Counts the event and fills its slot; the kernel knows already. */
    method Store(fd: nat, e: Event, scheduler: SchedulerId, fiber: FiberId, cb: Option<nat>, ghost s: IoState)
      requires fd < |s.contexts| && State() == s.(kernel := s.kernel[fd := s.contexts[fd].events + {e}])
      modifies this`pending, this`registered, this`contexts
      ensures State() == Added(s, fd, e, scheduler, fiber, cb)
    {
      pending := pending + 1;
      var c := contexts[fd];
      var slot := EventContext(Some(scheduler), if cb.Some? then None else Some(fiber), cb, |registered|);
      registered := registered + [Parkable(scheduler, fiber, cb)];
      contexts := contexts[fd := WithSlot(c, e, slot).(events := c.events + {e})];
    }

    /** `contextResize`, as `addEvent` calls it for a descriptor that it did not find. */
    method ContextResize(fd: nat)
      modifies this`contexts
      ensures State() == Grown(old(State()), fd)
      ensures |contexts| == fd * 3 / 2
      ensures forall i :: 0 <= i < |contexts| ==>
        contexts[i] == if i < |old(contexts)| then old(contexts)[i] else EMPTY_CONTEXT
      ensures old(Consistent(State())) ==>
        (Consistent(State()) <==> NothingFrom(old(State()), fd * 3 / 2))
    {
      if |contexts| <= fd * 3 / 2 {
        if Consistent(State()) {
          GrowingKeepsConsistent(State(), fd * 3 / 2);
        }
      } else if Consistent(State()) {
        StaleResizeExactly(State(), fd * 3 / 2);
      }
      contexts := Resized(contexts, fd * 3 / 2);
    }

    /** `addEvent` from end to end, when nobody comes between its two regions. */
    method AddEvent(fd: nat, e: Event, scheduler: SchedulerId, fiber: FiberId, cb: Option<nat>, refuses: bool)
      returns (rt: int)
      requires Consistent(State()) && if fd < |contexts| then e !in contexts[fd].events else 2 <= fd
      modifies this
      ensures var s1 := if fd < |old(contexts)| then old(State()) else Grown(old(State()), fd);
        IsStep(s1, Add(fd, e, scheduler, fiber, cb, refuses), State())
      ensures Consistent(State())
      ensures rt == if refuses then -1 else 0
    {
      if fd >= |contexts| {
        ContextResize(fd);
      }
      rt := AddLocked(fd, e, scheduler, fiber, cb, refuses);
    }

    method DelEvent(fd: nat, e: Event, refuses: bool) returns (ok: bool)
      requires Consistent(State())
      modifies this
      ensures IsStep(old(State()), Del(fd, e, refuses), State())
      ensures Consistent(State())
      ensures ok <==> !refuses && fd < |old(contexts)| && e in old(contexts)[fd].events
      ensures !ok ==> State() == old(State())
      ensures ok ==>
        && registered == old(registered) && handed == old(handed) && pending == old(pending) - 1
        && |contexts| == |old(contexts)|
        && (forall i :: 0 <= i < |contexts| && i != fd ==> contexts[i] == old(contexts)[i])
        && var was, now := old(contexts)[fd], contexts[fd];
        && now.events == was.events - {e}
        && dropped == old(dropped) + [(if e == READ then was.read else was.write).serial]
        && (if e == READ then now.write == was.write else now.read == was.read)
    {
      ghost var s0 := State();
      if fd >= |contexts| || e !in contexts[fd].events {
        return false;
      }
      var c := contexts[fd];
      var rt := EpollCtl(RemovalOp(c.events - {e}), fd, c.events - {e}, refuses);
      if rt != 0 {
        return false;
      }
      pending := pending - 1;
      dropped := dropped + [Slot(c, e).serial];
      contexts := contexts[fd := WithSlot(c, e, EMPTY_SLOT).(events := c.events - {e})];
      StepKeepsConsistent(s0, Del(fd, e, refuses), State());
      return true;
    }

    /** `triggerEvent`; false if its assertion fails. */
    method TriggerEvent(fd: nat, e: Event) returns (asserted: bool)
      requires TableConsistent(State()) && fd < |contexts|
      modifies this`contexts, this`pending, this`handed
      ensures asserted <==> e in old(contexts)[fd].events
      ensures asserted ==>
        && Triggerable(old(State()), fd, e) && State() == Triggered(old(State()), fd, e)
        && TableConsistent(State())
      ensures !asserted ==> State() == old(State())
    {
      var c := contexts[fd];
      if e !in c.events {
        return false;
      }
      TriggerKeepsTable(State(), fd, e);
      var slot := Slot(c, e);
      pending := pending - 1;
      handed := handed + [(slot.serial, ParkedIn(slot))];
      var left := if slot.cb.Some? then slot.(cb := None) else slot.(fiber := None);
      contexts := contexts[fd := WithSlot(c, e, left.(scheduler := None)).(events := c.events - {e})];
      return true;
    }

    /** The part that `cancelEvent`, `cancelAll` and `idle` share: tell the kernel what is
        left, then trigger. `held` is false if an assertion failed on the way. */
    method FireEvents(fd: nat, which: set<Event>, refuses: bool) returns (told: bool, held: bool)
      requires Consistent(State()) && fd < |contexts| && contexts[fd].events != {}
      modifies this
      ensures told <==> !refuses
      ensures held <==> (told ==> which <= old(contexts)[fd].events)
      ensures !told ==> State() == old(State())
      ensures told && held ==>
        && FiresAll(old(State()), fd, which, State()) && Consistent(State())
        && HandsOver(old(State()), fd, which, State())
    {
      ghost var s0 := State();
      var left := contexts[fd].events - which;
      var rt := EpollCtl(RemovalOp(left), fd, left, refuses);
      if rt != 0 {
        return false, true;
      }
      UnregisterKeepsTable(s0, fd, which);
      told, held := true, true;
      if READ in which {
        held := TriggerEvent(fd, READ);
        if !held {
          return;
        }
      }
      if WRITE in which {
        held := TriggerEvent(fd, WRITE);
        if !held {
          return;
        }
      }
      SameEvents(which, which * s0.contexts[fd].events);
      FireKeepsConsistent(s0, fd, which);
      FiringHandsOver(s0, fd, which, State());
    }

    method CancelEvent(fd: nat, e: Event, refuses: bool) returns (ok: bool)
      requires Consistent(State())
      modifies this
      ensures IsStep(old(State()), Cancel(fd, e, refuses), State())
      ensures Consistent(State())
      ensures ok <==> !refuses && fd < |old(contexts)| && e in old(contexts)[fd].events
      ensures if ok then HandsOver(old(State()), fd, {e}, State()) else State() == old(State())
    {
      if fd >= |contexts| || e !in contexts[fd].events {
        return false;
      }
      var held;
      ok, held := FireEvents(fd, {e}, refuses);
    }

    method CancelAllEvents(fd: nat, refuses: bool) returns (ok: bool)
      requires Consistent(State())
      modifies this
      ensures IsStep(old(State()), CancelAll(fd, refuses), State())
      ensures Consistent(State())
      ensures ok <==> !refuses && fd < |old(contexts)| && old(contexts)[fd].events != {}
      ensures if ok then HandsOver(old(State()), fd, old(contexts)[fd].events, State()) else State() == old(State())
    {
      if fd >= |contexts| || contexts[fd].events == {} {
        return false;
      }
      var held;
      ok, held := FireEvents(fd, contexts[fd].events, refuses);
    }

    /** One entry of the list that `epoll_wait` returned; false if an assertion failed. */
    method DeliverEvent(fd: nat, reported: set<Event>, hangup: bool, refuses: bool) returns (held: bool)
      requires Consistent(State()) && fd < |contexts|
      modifies this
      ensures held <==>
        (!refuses ==> !DeliveryAborts(old(State()), fd, Real(old(contexts)[fd].events, reported, hangup)))
      ensures held ==>
        IsStep(old(State()), Deliver(fd, reported, hangup, refuses), State()) && Consistent(State())
      // A hang-up or an error takes everything that is registered, and otherwise exactly what
      // was reported goes.
      ensures held && !refuses ==>
        HandsOver(old(State()), fd,
          if hangup then old(contexts)[fd].events else old(contexts)[fd].events * reported, State())
      ensures refuses ==> State() == old(State())
      ensures held <==>
        || refuses || reported <= old(contexts)[fd].events
        || (if hangup then old(contexts)[fd].events == {} else old(contexts)[fd].events * reported == {})
    {
      var actual := reported;
      if hangup {
        actual := actual + contexts[fd].events;
      }
      assert actual == Real(contexts[fd].events, reported, hangup);
      RealEvents(contexts[fd].events, reported, hangup);
      if contexts[fd].events * actual == {} {
        return true;
      }
      var told;
      told, held := FireEvents(fd, actual, refuses);
    }
  }
}
