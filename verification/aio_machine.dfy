/**
 * The asynchronous writer of src/base/aio.cpp as a step machine: any number of client calls and
 * the drain thread interleave at every lock, unlock, semaphore and io operation.
 *
 * A step that touches the ASYNCIO after it was freed sets `fault`. The ghost histories `accepted`
 * (bytes given to aio_write_unlocked, in lock order) and `written` (bytes given to io_write) are
 * part of the state. io_write is taken to accept all its bytes.
 */
module AioMachine {
  import opened Base
  import opened AioRing

  datatype Finish = Running | Close | Exit

  // What a client call does between taking and releasing the lock.
  datatype Op = Write | Error | CloseOp | Wait | Free

  datatype Owner = Nobody | Drain | Client(id: nat)

  datatype DrainPc =
    | Acquire                    // about to take the lock at the loop top
    | Top                        // holds the lock
    | Sleeping                   // released the lock, in sphore_wait
    | Writing(local: seq<byte>)  // released the lock, local_buffer not yet handed to io_write
    | Leaving(last: bool)        // gave up its reference and the lock; frees if it was the last
    | Exited

  datatype ClientPc =
    | WantLock(op: Op)
    | Holding(op: Op)            // holds the lock
    | OwesSignal(op: Op)         // released the lock, sphore_signal still to come
    | Joining                    // aio_wait inside thread_wait
    | Freeing(last: bool)        // aio_free gave up its reference; frees if it was the last

  datatype State = State(
    ring: Ring, sem: nat, finish: Finish, refcount: int, owner: Owner,
    threadHandle: bool,          // aio->thread != nullptr
    drain: DrainPc,
    clients: map<nat, ClientPc>, // the calls in progress
    waitCalled: bool, freeCalled: bool, freeCount: nat, fault: bool, ioClosed: bool,
    accepted: seq<byte>, written: seq<byte>)

  ghost predicate Init(s: State) {
    s == State(Ring(0x2000, 0, []), 0, Running, 2, Nobody, true, Acquire, map[],
               false, false, 0, false, false, [], [])
  }

  datatype Event =
    | DrainLock | DrainTop | DrainWake | DrainWrite | DrainLeave
    | Call(id: nat, op: Op) | Lock(id: nat) | Put(id: nat, data: seq<byte>) | Unlock(id: nat)
    | Signal(id: nat) | Joined(id: nat) | Freed(id: nat)

  predicate At(s: State, id: nat, pc: ClientPc) {
    id in s.clients && s.clients[id] == pc
  }

  /**
   * When a step can happen. Callers keep the rules of the interface: aio_wait at most once;
   * aio_free once, after every other call has returned, and nothing after it.
   */
  ghost predicate Enabled(s: State, e: Event) {
    match e
    case DrainLock => s.drain.Acquire? && s.owner.Nobody?
    case DrainTop => s.drain.Top?
    case DrainWake => s.drain.Sleeping? && s.sem > 0
    case DrainWrite => s.drain.Writing?
    case DrainLeave => s.drain.Leaving?
    case Call(id, op) =>
      && id !in s.clients && !s.freeCalled
      && (op.Wait? ==> !s.waitCalled)
      && (op.Free? ==> s.clients == map[])
    case Lock(id) => id in s.clients && s.clients[id].WantLock? && s.owner.Nobody?
    case Put(id, data) => At(s, id, Holding(Write)) && s.ring.CanWrite(data)
    case Unlock(id) => id in s.clients && s.clients[id].Holding?
    case Signal(id) => id in s.clients && s.clients[id].OwesSignal?
    case Joined(id) => At(s, id, Joining) && s.drain.Exited?
    case Freed(id) => id in s.clients && s.clients[id].Freeing?
  }

  // Whether a step reads or writes the ASYNCIO (its lock and semaphore included).
  predicate Touches(s: State, e: Event) {
    match e
    case DrainWrite => true
    case DrainLeave => s.drain.Leaving? && s.drain.last
    case Call(_, _) => false
    case Joined(_) => false
    case Freed(id) => id in s.clients && s.clients[id].Freeing? && s.clients[id].last
    case _ => true
  }

  // The body of the drain loop under the lock.
  ghost function DrainBody(s: State): State
    requires s.ring.Valid()
  {
    if s.ring.contents == [] then
      if s.finish != Running then
        s.(ioClosed := s.ioClosed || s.finish == Close,
           refcount := s.refcount - 1,
           owner := Nobody,
           drain := Leaving(s.refcount - 1 == 0))
      else
        s.(owner := Nobody, drain := Sleeping)
    else
      s.(ring := s.ring.Drop(), owner := Nobody, drain := Writing(s.ring.contents[..s.ring.Chunk()]))
  }

  // The critical section of a client call, up to and including the unlock.
  function UnlockBody(s: State, id: nat, op: Op): State {
    var s := s.(owner := Nobody);
    match op
    case Write => s.(clients := s.clients[id := OwesSignal(op)])
    case Error => s.(clients := s.clients - {id})
    case CloseOp => s.(finish := Close, clients := s.clients[id := OwesSignal(op)])
    case Wait =>
      s.(threadHandle := false,
         finish := if s.finish == Running then Exit else s.finish,
         clients := s.clients[id := OwesSignal(op)])
    case Free =>
      s.(threadHandle := false,
         refcount := s.refcount - 1,
         clients := s.clients[id := Freeing(s.refcount - 1 == 0)])
  }

  ghost function Apply(s: State, e: Event): State
    requires s.ring.Valid() && Enabled(s, e)
  {
    var s := s.(fault := s.fault || (s.freeCount > 0 && Touches(s, e)));
    match e
    case DrainLock => s.(owner := Drain, drain := Top)
    case DrainTop => DrainBody(s)
    case DrainWake => s.(sem := s.sem - 1, drain := Acquire)
    case DrainWrite => s.(written := s.written + s.drain.local, drain := Acquire)
    case DrainLeave => s.(freeCount := if s.drain.last then s.freeCount + 1 else s.freeCount, drain := Exited)
    case Call(id, op) =>
      s.(clients := s.clients[id := WantLock(op)],
         waitCalled := s.waitCalled || op.Wait?, freeCalled := s.freeCalled || op.Free?)
    case Lock(id) => s.(owner := Client(id), clients := s.clients[id := Holding(s.clients[id].op)])
    case Put(id, data) => s.(ring := s.ring.Write(data), accepted := s.accepted + data)
    case Unlock(id) => UnlockBody(s, id, s.clients[id].op)
    case Signal(id) =>
      s.(sem := s.sem + 1,
         clients := if s.clients[id].op == Wait then s.clients[id := Joining] else s.clients - {id})
    case Joined(id) => s.(clients := s.clients - {id})
    case Freed(id) =>
      s.(freeCount := if s.clients[id].last then s.freeCount + 1 else s.freeCount,
         clients := s.clients - {id})
  }

  // ---------------------------------------------------------------- what every step keeps

  function InFlight(s: State): seq<byte> {
    if s.drain.Writing? then s.drain.local else []
  }

  // Every accepted byte is written, in local_buffer or in the ring, in order.
  ghost predicate InvData(s: State) {
    && s.ring.Valid()
    && s.written + InFlight(s) + s.ring.contents == s.accepted
    && (s.drain.Writing? ==> 0 < |s.drain.local| <= 0x1_0000)
  }

  predicate InvLock(s: State) {
    && (s.drain.Top? <==> s.owner.Drain?)
    && (s.owner.Client? ==> s.owner.id in s.clients)
    && (forall id :: id in s.clients ==> (s.clients[id].Holding? <==> s.owner == Client(id)))
  }

  function DrainRef(s: State): int {
    if s.drain.Leaving? || s.drain.Exited? then 0 else 1
  }

  predicate IsFree(pc: ClientPc) {
    pc.Freeing? || ((pc.WantLock? || pc.Holding?) && pc.op.Free?)
  }

  // aio_free has been called and has given up the caller's reference.
  predicate Released(s: State) {
    s.freeCalled && forall id :: id in s.clients ==> s.clients[id].Freeing?
  }

  predicate DrainOwesFree(s: State) {
    s.drain.Leaving? && s.drain.last
  }

  predicate ClientOwesFree(s: State) {
    exists id :: id in s.clients && s.clients[id].Freeing? && s.clients[id].last
  }

  predicate InvCalls(s: State) {
    && (forall id :: id in s.clients ==> (IsFree(s.clients[id]) <==> s.freeCalled))
    && (forall id, id' :: id in s.clients && id' in s.clients && s.freeCalled ==> id == id')
    && (forall id :: id in s.clients && s.clients[id].OwesSignal? ==>
          s.clients[id].op.Write? || s.clients[id].op.CloseOp? || s.clients[id].op.Wait?)
  }

  predicate InvLife(s: State) {
    && s.refcount == DrainRef(s) + (if Released(s) then 0 else 1)
    && s.freeCount + (if DrainOwesFree(s) then 1 else 0) + (if ClientOwesFree(s) then 1 else 0)
       == (if s.refcount == 0 then 1 else 0)
    && !s.fault
  }

  predicate HasWork(s: State) {
    s.ring.contents != [] || s.finish != Running
  }

  // The call still has its sphore_signal to make.
  predicate WillSignal(pc: ClientPc) {
    pc.OwesSignal? || (pc.Holding? && !pc.op.Error? && !pc.op.Free?)
  }

  predicate SomeoneWillSignal(s: State) {
    exists id :: id in s.clients && WillSignal(s.clients[id])
  }

  predicate InvWake(s: State) {
    && (s.drain.Sleeping? && HasWork(s) ==> s.sem > 0 || SomeoneWillSignal(s))
    && (s.drain.Leaving? || s.drain.Exited? ==> s.finish != Running)
  }

  ghost predicate Inv(s: State) {
    InvData(s) && InvLock(s) && InvCalls(s) && InvLife(s) && InvWake(s)
  }

  lemma InitHolds(s: State)
    requires Init(s)
    ensures Inv(s)
  {
    PowerOfTwo18();
  }

  lemma DrainLockKeeps(s: State)
    requires Inv(s) && Enabled(s, DrainLock)
    ensures Inv(Apply(s, DrainLock))
  {
  }

  lemma DrainTopLeavesKeeps(s: State)
    requires Inv(s) && s.drain.Top? && s.ring.contents == [] && s.finish != Running
    ensures Inv(Apply(s, DrainTop))
  {
  }

  lemma DrainTopSleepsKeeps(s: State)
    requires Inv(s) && s.drain.Top? && s.ring.contents == [] && s.finish == Running
    ensures Inv(Apply(s, DrainTop))
  {
  }

  lemma DrainTopTakesKeeps(s: State)
    requires Inv(s) && s.drain.Top? && s.ring.contents != []
    ensures Inv(Apply(s, DrainTop))
  {
    var t := Apply(s, DrainTop);
    assert s.ring.contents == InFlight(t) + t.ring.contents;
    assert t.written + InFlight(t) + t.ring.contents == s.accepted;
  }

  lemma DrainWakeKeeps(s: State)
    requires Inv(s) && Enabled(s, DrainWake)
    ensures Inv(Apply(s, DrainWake))
  {
  }

  lemma DrainWriteKeeps(s: State)
    requires Inv(s) && Enabled(s, DrainWrite)
    ensures Inv(Apply(s, DrainWrite))
  {
  }

  lemma DrainLeaveKeeps(s: State)
    requires Inv(s) && Enabled(s, DrainLeave)
    ensures Inv(Apply(s, DrainLeave))
  {
  }

  lemma CallKeeps(s: State, id: nat, op: Op)
    requires Inv(s) && Enabled(s, Call(id, op))
    ensures Inv(Apply(s, Call(id, op)))
  {
  }

  lemma LockKeeps(s: State, id: nat)
    requires Inv(s) && Enabled(s, Lock(id))
    ensures Inv(Apply(s, Lock(id)))
  {
  }

  lemma PutKeeps(s: State, id: nat, data: seq<byte>)
    requires Inv(s) && Enabled(s, Put(id, data))
    ensures Inv(Apply(s, Put(id, data)))
  {
  }

  lemma UnlockFreeKeeps(s: State, id: nat)
    requires Inv(s) && At(s, id, Holding(Free))
    ensures Inv(Apply(s, Unlock(id)))
  {
  }

  lemma UnlockErrorKeeps(s: State, id: nat)
    requires Inv(s) && At(s, id, Holding(Error))
    ensures Inv(Apply(s, Unlock(id)))
  {
  }

  // An unlock that leaves a signal to be made: aio_unlock, aio_close, aio_wait.
  predicate SignalsNext(s: State, id: nat) {
    id in s.clients && s.clients[id].Holding? && !s.clients[id].op.Free? && !s.clients[id].op.Error?
  }

  // What such an unlock changes.
  predicate SignalOwed(s: State, t: State, id: nat)
    requires SignalsNext(s, id)
  {
    && t.owner == Nobody && t.clients == s.clients[id := OwesSignal(s.clients[id].op)]
    && t.ring == s.ring && t.sem == s.sem && t.refcount == s.refcount && t.drain == s.drain
    && (t.finish == s.finish || t.finish != Running)
    && t.waitCalled == s.waitCalled && t.freeCalled == s.freeCalled && t.freeCount == s.freeCount
    && t.fault == (s.fault || s.freeCount > 0) && t.accepted == s.accepted && t.written == s.written
  }

  lemma UnlockOwesSignal(s: State, id: nat)
    requires s.ring.Valid() && SignalsNext(s, id)
    ensures SignalOwed(s, Apply(s, Unlock(id)), id)
  {
    match s.clients[id].op
    case Write =>
    case CloseOp =>
    case Wait =>
    case _ =>
  }

  lemma SignalOwedLock(s: State, t: State, id: nat)
    requires InvData(s) && InvLock(s) && SignalsNext(s, id) && SignalOwed(s, t, id)
    ensures InvData(t) && InvLock(t)
  {
  }

  lemma SignalOwedCalls(s: State, t: State, id: nat)
    requires InvCalls(s) && SignalsNext(s, id) && SignalOwed(s, t, id)
    ensures InvCalls(t)
  {
  }

  lemma SignalOwedLife(s: State, t: State, id: nat)
    requires InvCalls(s) && InvLife(s) && SignalsNext(s, id) && SignalOwed(s, t, id)
    ensures InvLife(t)
  {
    assert !IsFree(s.clients[id]);
    assert !s.freeCalled;
  }

  lemma SignalOwedWake(s: State, t: State, id: nat)
    requires InvWake(s) && SignalsNext(s, id) && SignalOwed(s, t, id)
    ensures InvWake(t)
  {
    assert id in t.clients && WillSignal(t.clients[id]);
  }

  lemma UnlockOtherKeeps(s: State, id: nat)
    requires Inv(s) && SignalsNext(s, id)
    ensures Inv(Apply(s, Unlock(id)))
  {
    hide SignalOwed, InvLock, InvCalls, InvLife, InvWake, Apply;
    var t := Apply(s, Unlock(id));
    UnlockOwesSignal(s, id);
    SignalOwedLock(s, t, id);
    SignalOwedCalls(s, t, id);
    SignalOwedLife(s, t, id);
    SignalOwedWake(s, t, id);
  }

  lemma SignalKeeps(s: State, id: nat)
    requires Inv(s) && Enabled(s, Signal(id))
    ensures Inv(Apply(s, Signal(id)))
  {
  }

  lemma JoinedKeeps(s: State, id: nat)
    requires Inv(s) && Enabled(s, Joined(id))
    ensures Inv(Apply(s, Joined(id)))
  {
  }

  lemma FreedKeeps(s: State, id: nat)
    requires Inv(s) && Enabled(s, Freed(id))
    ensures Inv(Apply(s, Freed(id)))
  {
  }

  lemma StepKeepsInv(s: State, e: Event)
    requires Inv(s) && Enabled(s, e)
    ensures Inv(Apply(s, e))
  {
    match e
    case DrainLock => DrainLockKeeps(s);
    case DrainTop =>
      if s.ring.contents != [] {
        DrainTopTakesKeeps(s);
      } else if s.finish == Running {
        DrainTopSleepsKeeps(s);
      } else {
        DrainTopLeavesKeeps(s);
      }
    case DrainWake => DrainWakeKeeps(s);
    case DrainWrite => DrainWriteKeeps(s);
    case DrainLeave => DrainLeaveKeeps(s);
    case Call(id, op) => CallKeeps(s, id, op);
    case Lock(id) => LockKeeps(s, id);
    case Put(id, data) => PutKeeps(s, id, data);
    case Unlock(id) =>
      if s.clients[id].op.Free? {
        UnlockFreeKeeps(s, id);
      } else if s.clients[id].op.Error? {
        UnlockErrorKeeps(s, id);
      } else {
        UnlockOtherKeeps(s, id);
      }
    case Signal(id) => SignalKeeps(s, id);
    case Joined(id) => JoinedKeeps(s, id);
    case Freed(id) => FreedKeeps(s, id);
  }

  // ---------------------------------------------------------------- what every run satisfies

  ghost predicate Step(s: State, e: Event, t: State) {
    s.ring.Valid() && Enabled(s, e) && t == Apply(s, e)
  }

  ghost predicate Steps(ss: seq<State>, es: seq<Event>) {
    |ss| == |es| + 1 && forall i {:trigger es[i]} :: 0 <= i < |es| ==> Step(ss[i], es[i], ss[i + 1])
  }

  ghost predicate Run(ss: seq<State>, es: seq<Event>) {
    Steps(ss, es) && Init(ss[0])
  }

  lemma {:induction false} RunKeepsInv(ss: seq<State>, es: seq<Event>, i: nat)
    requires Run(ss, es) && i < |ss|
    ensures Inv(ss[i])
  {
    if i == 0 {
      InitHolds(ss[0]);
    } else {
      RunKeepsInv(ss, es, i - 1);
      assert Step(ss[i - 1], es[i - 1], ss[i]);
      StepKeepsInv(ss[i - 1], es[i - 1]);
    }
  }
}
