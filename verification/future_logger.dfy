/**
 * CFutureLogger of src/base/log.cpp: messages are kept until a logger is set and then handed to it.
 * The machine interleaves the atomic steps of any number of Log calls and one Set; the class below
 * is the same code for one caller.
 */
module FutureLogger {
  import opened Base

  // Where a Log call stands. Call number k logs message number k.
  datatype Pc =
    | Start    // before the first load of m_pLogger
    | Fast     // it saw a logger: about to pass the message on without the lock
    | Slow     // it saw none: about to take the lock
    | Holding  // it has the lock: about to load again
    | Late     // with the lock, it saw a logger
    | Queue    // with the lock, it saw none
    | Leaving  // about to release the lock
    | Done

  datatype SetPc = Unset | SetLocked | Replaying(k: nat) | Cleared | SetDone

  datatype Lock = Free | SetHolds | CallHolds(id: nat)

  // `queued` is the history of m_vPending: every message ever put there.
  datatype State = State(
    logger: bool,
    lock: Lock,
    pending: seq<nat>,
    queued: seq<nat>,
    delivered: seq<nat>,
    calls: seq<Pc>,
    setting: SetPc
  )

  datatype Event =
    | Begin
    | Load(id: nat)
    | DeliverFast(id: nat)
    | Acquire(id: nat)
    | Reload(id: nat)
    | DeliverLate(id: nat)
    | Push(id: nat)
    | Release(id: nat)
    | SetAcquire
    | SetPublish
    | SetReplay
    | SetClear
    | SetRelease

  function Initial(): State {
    State(false, Free, [], [], [], [], Unset)
  }

  predicate CallAt(s: State, id: nat, pc: Pc) {
    id < |s.calls| && s.calls[id] == pc
  }

  predicate Enabled(s: State, e: Event) {
    match e
    case Begin => true
    case Load(id) => CallAt(s, id, Start)
    case DeliverFast(id) => CallAt(s, id, Fast)
    case Acquire(id) => CallAt(s, id, Slow) && s.lock == Free
    case Reload(id) => CallAt(s, id, Holding)
    case DeliverLate(id) => CallAt(s, id, Late)
    case Push(id) => CallAt(s, id, Queue)
    case Release(id) => CallAt(s, id, Leaving)
    case SetAcquire => s.setting == Unset && s.lock == Free
    case SetPublish => s.setting == SetLocked
    case SetReplay => s.setting.Replaying? && s.setting.k < |s.pending|
    case SetClear => s.setting.Replaying? && s.setting.k >= |s.pending|
    case SetRelease => s.setting == Cleared
  }

  function To(s: State, id: nat, pc: Pc): State
    requires id < |s.calls|
  {
    s.(calls := s.calls[id := pc])
  }

  function Apply(s: State, e: Event): State
    requires Enabled(s, e)
  {
    match e
    case Begin => s.(calls := s.calls + [Start])
    case Load(id) => To(s, id, if s.logger then Fast else Slow)
    case DeliverFast(id) => To(s, id, Done).(delivered := s.delivered + [id])
    case Acquire(id) => To(s, id, Holding).(lock := CallHolds(id))
    case Reload(id) => To(s, id, if s.logger then Late else Queue)
    case DeliverLate(id) => To(s, id, Leaving).(delivered := s.delivered + [id])
    case Push(id) => To(s, id, Leaving).(pending := s.pending + [id], queued := s.queued + [id])
    case Release(id) => To(s, id, Done).(lock := Free)
    case SetAcquire => s.(setting := SetLocked, lock := SetHolds)
    case SetPublish => s.(setting := Replaying(0), logger := true)
    case SetReplay => s.(setting := Replaying(s.setting.k + 1), delivered := s.delivered + [s.pending[s.setting.k]])
    case SetClear => s.(setting := Cleared, pending := [])
    case SetRelease => s.(setting := SetDone, lock := Free)
  }

  // ---------------------------------------------------------------- invariants

  predicate HoldsLock(pc: Pc) {
    pc in {Holding, Late, Queue, Leaving}
  }

  /** Whoever is between taking and releasing the lock has it. */
  predicate InvLock(s: State) {
    && (forall id :: 0 <= id < |s.calls| && HoldsLock(s.calls[id]) ==> s.lock == CallHolds(id))
    && (s.lock == SetHolds <==> s.setting.SetLocked? || s.setting.Replaying? || s.setting.Cleared?)
    && (s.lock.CallHolds? ==> s.lock.id < |s.calls| && HoldsLock(s.calls[s.lock.id]))
  }

  /** The logger is there once Set published it, and whoever is to queue knows that it is not. */
  predicate InvLogger(s: State) {
    && (s.logger <==> !s.setting.Unset? && !s.setting.SetLocked?)
    && (forall id :: 0 <= id < |s.calls| && s.calls[id] == Queue ==> !s.logger)
    && (forall id :: 0 <= id < |s.calls| && s.calls[id] in {Fast, Late} ==> s.logger)
  }

  // How many of the queued messages Set has passed on.
  function Replayed(s: State): nat {
    match s.setting
    case Unset => 0
    case SetLocked => 0
    case Replaying(k) => k
    case Cleared => |s.queued|
    case SetDone => |s.queued|
  }

  predicate InvQueue(s: State) {
    && Replayed(s) <= |s.queued|
    && s.pending == (if s.setting.Cleared? || s.setting.SetDone? then [] else s.queued)
  }

  // The call has handed over its message, to the logger or to the queue.
  predicate Settled(s: State, id: nat) {
    id < |s.calls| && s.calls[id] in {Leaving, Done}
  }

  /** Each message of a settled call is delivered or waits, once; no other message is anywhere. */
  ghost predicate InvOnce(s: State)
    requires Replayed(s) <= |s.queued|
  {
    forall id: nat :: Copies(s, id) == if Settled(s, id) then 1 else 0
  }

  ghost function Copies(s: State, id: nat): nat
    requires Replayed(s) <= |s.queued|
  {
    multiset(s.delivered)[id] + multiset(s.queued[Replayed(s)..])[id]
  }

  // The messages of t that are in q, in the order of t.
  function Only(t: seq<nat>, q: seq<nat>): seq<nat> {
    if t == [] then []
    else Only(t[..|t| - 1], q) + if t[|t| - 1] in q then [t[|t| - 1]] else []
  }

  /** The queued messages that were delivered came in the order in which they were queued. */
  predicate InvOrder(s: State) {
    && Replayed(s) <= |s.queued|
    && Only(s.delivered, s.queued) == s.queued[..Replayed(s)]
    && forall i :: 0 <= i < |s.queued| ==> Settled(s, s.queued[i])
  }

  ghost predicate Inv(s: State) {
    InvLock(s) && InvLogger(s) && InvQueue(s) && InvOnce(s) && InvOrder(s)
  }

  // ---------------------------------------------------------------- every step keeps them

  lemma LockKeeps(s: State, e: Event)
    requires InvLock(s) && Enabled(s, e)
    ensures InvLock(Apply(s, e))
  {
  }

  lemma LoggerKeeps(s: State, e: Event)
    requires InvLock(s) && InvLogger(s) && Enabled(s, e)
    ensures InvLogger(Apply(s, e))
  {
  }

  lemma QueueKeeps(s: State, e: Event)
    requires InvLock(s) && InvLogger(s) && InvQueue(s) && Enabled(s, e)
    ensures InvQueue(Apply(s, e))
  {
  }

  lemma CountSnoc(t: seq<nat>, x: nat, id: nat)
    ensures multiset(t + [x])[id] == multiset(t)[id] + if x == id then 1 else 0
  {
    assert multiset(t + [x]) == multiset(t) + multiset([x]);
  }

  lemma CountTail(t: seq<nat>, k: nat, id: nat)
    requires k < |t|
    ensures multiset(t[k..])[id] == multiset(t[k + 1..])[id] + if t[k] == id then 1 else 0
  {
    assert t[k..] == [t[k]] + t[k + 1..];
    assert multiset(t[k..]) == multiset([t[k]]) + multiset(t[k + 1..]);
  }

  // The message that a step hands over, to the logger or to the queue.
  predicate HandsOver(e: Event, id: nat) {
    e == DeliverFast(id) || e == DeliverLate(id) || e == Push(id)
  }

  lemma CopiesDeliver(s: State, t: State, x: nat, id: nat)
    requires Replayed(s) <= |s.queued| && t.queued == s.queued && t.setting == s.setting
    requires t.delivered == s.delivered + [x]
    ensures Copies(t, id) == Copies(s, id) + if x == id then 1 else 0
  {
    CountSnoc(s.delivered, x, id);
  }

  lemma CopiesPush(s: State, t: State, x: nat, id: nat)
    requires Replayed(s) == Replayed(t) == 0 && t.queued == s.queued + [x] && t.delivered == s.delivered
    ensures Copies(t, id) == Copies(s, id) + if x == id then 1 else 0
  {
    assert s.queued[0..] == s.queued && (s.queued + [x])[0..] == s.queued + [x];
    CountSnoc(s.queued, x, id);
  }

  lemma CopiesReplay(s: State, t: State, id: nat)
    requires Replayed(s) < |s.queued| && Replayed(t) == Replayed(s) + 1 && t.queued == s.queued
    requires t.delivered == s.delivered + [s.queued[Replayed(s)]]
    ensures Copies(t, id) == Copies(s, id)
  {
    CountSnoc(s.delivered, s.queued[Replayed(s)], id);
    CountTail(s.queued, Replayed(s), id);
  }

  lemma CopiesStep(s: State, e: Event, id: nat)
    requires InvLock(s) && InvLogger(s) && InvQueue(s) && Enabled(s, e)
    requires Replayed(Apply(s, e)) <= |Apply(s, e).queued|
    ensures Copies(Apply(s, e), id) == Copies(s, id) + if HandsOver(e, id) then 1 else 0
  {
    hide Copies, InvLock;
    var t := Apply(s, e);
    match e
    case DeliverFast(x) => CopiesDeliver(s, t, x, id);
    case DeliverLate(x) => CopiesDeliver(s, t, x, id);
    case Push(x) => CopiesPush(s, t, x, id);
    case SetReplay => CopiesReplay(s, t, id);
    case _ => CopiesSame(s, t, id);
  }

  lemma CopiesSame(s: State, t: State, id: nat)
    requires Replayed(s) <= |s.queued| && Replayed(t) == Replayed(s)
    requires t.queued == s.queued && t.delivered == s.delivered
    ensures Copies(t, id) == Copies(s, id)
  {
  }

  lemma SettledStep(s: State, e: Event, id: nat)
    requires Enabled(s, e)
    ensures Settled(Apply(s, e), id) <==> Settled(s, id) || HandsOver(e, id)
    ensures HandsOver(e, id) ==> !Settled(s, id)
  {
  }

  lemma OnceKeeps(s: State, e: Event)
    requires InvLock(s) && InvLogger(s) && InvQueue(s) && InvOnce(s) && Enabled(s, e)
    ensures InvQueue(Apply(s, e)) && InvOnce(Apply(s, e))
  {
    QueueKeeps(s, e);
    forall id: nat ensures Copies(Apply(s, e), id) == if Settled(Apply(s, e), id) then 1 else 0 {
      CopiesStep(s, e, id);
      SettledStep(s, e, id);
    }
  }

  lemma {:induction false} OnlyMore(t: seq<nat>, q: seq<nat>, x: nat)
    requires x !in t
    ensures Only(t, q + [x]) == Only(t, q)
  {
    if t != [] {
      OnlyMore(t[..|t| - 1], q, x);
      assert t[|t| - 1] in t;
    }
  }

  lemma OnlySnoc(t: seq<nat>, q: seq<nat>, x: nat)
    ensures Only(t + [x], q) == Only(t, q) + if x in q then [x] else []
  {
    assert (t + [x])[..|t|] == t;
  }

  lemma NotDelivered(s: State, id: nat)
    requires Replayed(s) <= |s.queued| && InvOnce(s) && !Settled(s, id)
    ensures id !in s.delivered
  {
    assert Copies(s, id) == 0;
  }

  lemma QueuedSettled(s: State, e: Event)
    requires InvOrder(s) && Enabled(s, e)
    ensures forall i :: 0 <= i < |Apply(s, e).queued| ==> Settled(Apply(s, e), Apply(s, e).queued[i])
  {
    var t := Apply(s, e);
    forall i | 0 <= i < |t.queued| ensures Settled(t, t.queued[i]) {
      SettledStep(s, e, t.queued[i]);
    }
  }

  lemma OrderDeliver(s: State, x: nat)
    requires InvOrder(s) && !Settled(s, x)
    ensures Only(s.delivered + [x], s.queued) == s.queued[..Replayed(s)]
  {
    OnlySnoc(s.delivered, s.queued, x);
  }

  lemma OrderPush(s: State, x: nat)
    requires InvOrder(s) && InvOnce(s) && !Settled(s, x) && Replayed(s) == 0
    ensures Only(s.delivered, s.queued + [x]) == []
  {
    NotDelivered(s, x);
    OnlyMore(s.delivered, s.queued, x);
  }

  lemma OrderReplay(s: State)
    requires InvOrder(s) && Replayed(s) < |s.queued|
    ensures Only(s.delivered + [s.queued[Replayed(s)]], s.queued) == s.queued[..Replayed(s) + 1]
  {
    OnlySnoc(s.delivered, s.queued, s.queued[Replayed(s)]);
  }

  lemma OrderStep(s: State, e: Event)
    requires Inv(s) && Enabled(s, e) && Replayed(Apply(s, e)) <= |Apply(s, e).queued|
    ensures var t := Apply(s, e); Only(t.delivered, t.queued) == t.queued[..Replayed(t)]
  {
    hide Only, InvOnce, InvLock;
    match e
    case DeliverFast(x) => OrderDeliver(s, x);
    case DeliverLate(x) => OrderDeliver(s, x);
    case Push(x) => OrderPush(s, x);
    case SetReplay => OrderReplay(s);
    case _ =>
  }

  lemma StepKeepsInv(s: State, e: Event)
    requires Inv(s) && Enabled(s, e)
    ensures Inv(Apply(s, e))
  {
    LockKeeps(s, e);
    LoggerKeeps(s, e);
    OnceKeeps(s, e);
    OrderStep(s, e);
    QueuedSettled(s, e);
    hide InvLock, InvLogger, InvOnce, Only, Apply;
  }

  // ---------------------------------------------------------------- runs

  ghost predicate Run(states: seq<State>, events: seq<Event>) {
    && |states| == |events| + 1 && states[0] == Initial()
    && forall k :: 0 <= k < |events| ==> Enabled(states[k], events[k]) && states[k + 1] == Apply(states[k], events[k])
  }

  lemma InitialInv()
    ensures Inv(Initial())
  {
    var s := Initial();
    assert s.queued[Replayed(s)..] == [];
    forall id: nat ensures Copies(s, id) == 0 {
    }
  }

  lemma {:induction false} RunKeepsInv(states: seq<State>, events: seq<Event>, k: nat)
    requires Run(states, events) && k < |states|
    ensures Inv(states[k])
  {
    if k == 0 {
      InitialInv();
    } else {
      RunKeepsInv(states, events, k - 1);
      StepKeepsInv(states[k - 1], events[k - 1]);
      hide Inv, Apply, Enabled;
      assert states[k - 1 + 1] == Apply(states[k - 1], events[k - 1]);
    }
  }

  /** No message reaches the logger twice, at any moment of any run. */
  lemma NeverTwice(states: seq<State>, events: seq<Event>, k: nat, id: nat)
    requires Run(states, events) && k < |states|
    ensures multiset(states[k].delivered)[id] <= 1
  {
    RunKeepsInv(states, events, k);
    assert Copies(states[k], id) <= 1;
  }

  /** When Set and every call have returned, each message reached the logger exactly once. */
  lemma ExactlyOnce(states: seq<State>, events: seq<Event>, k: nat, id: nat)
    requires Run(states, events) && k < |states| && states[k].setting == SetDone
    requires id < |states[k].calls| && states[k].calls[id] == Done
    ensures multiset(states[k].delivered)[id] == 1
  {
    RunKeepsInv(states, events, k);
    assert Copies(states[k], id) == 1;
    assert states[k].queued[Replayed(states[k])..] == [];
  }

  /** The queued messages reach the logger in the order in which they were queued, all of them once Set cleared. */
  lemma QueuedInOrder(states: seq<State>, events: seq<Event>, k: nat)
    requires Run(states, events) && k < |states|
    ensures var s := states[k];
      && Only(s.delivered, s.queued) <= s.queued
      && (s.setting == SetDone ==> Only(s.delivered, s.queued) == s.queued)
  {
    RunKeepsInv(states, events, k);
    hide InvOnce, InvLock, InvLogger, Only;
  }

  /** Once Set returned, nothing is ever pending again. */
  lemma {:induction false} PendingStaysEmpty(states: seq<State>, events: seq<Event>, j: nat, k: nat)
    requires Run(states, events) && j <= k < |states| && states[j].setting == SetDone
    ensures states[k].setting == SetDone && states[k].pending == [] && states[k].queued == states[j].queued
  {
    hide Inv, Apply, Enabled;
    RunKeepsInv(states, events, k);
    if j < k {
      PendingStaysEmpty(states, events, j, k - 1);
      RunKeepsInv(states, events, k - 1);
      AfterSetDone(states[k - 1], events[k - 1]);
      assert states[k - 1 + 1] == Apply(states[k - 1], events[k - 1]);
    } else {
      NothingPending(states[k]);
    }
  }

  lemma NothingPending(s: State)
    requires Inv(s) && s.setting == SetDone
    ensures s.pending == []
  {
    hide InvOnce, InvOrder, InvLock, InvLogger;
  }

  lemma AfterSetDone(s: State, e: Event)
    requires Inv(s) && Enabled(s, e) && s.setting == SetDone
    ensures Apply(s, e).setting == SetDone && Apply(s, e).queued == s.queued && Apply(s, e).pending == []
  {
    hide InvOnce, InvOrder;
  }

  // ---------------------------------------------------------------- every call returns

  function Steps(pc: Pc): nat {
    match pc
    case Start => 6
    case Slow => 5
    case Holding => 4
    case Late => 3
    case Queue => 3
    case Leaving => 2
    case Fast => 1
    case Done => 0
  }

  function CallSteps(calls: seq<Pc>): nat {
    if calls == [] then 0 else CallSteps(calls[..|calls| - 1]) + Steps(calls[|calls| - 1])
  }

  // Set, with what it may still have to replay; every call yet to be settled may queue one more.
  function SetSteps(s: State): nat {
    match s.setting
    case Unset => 5 + |s.pending|
    case SetLocked => 4 + |s.pending|
    case Replaying(k) => 2 + if k <= |s.pending| then |s.pending| - k else 0
    case Cleared => 1
    case SetDone => 0
  }

  function Left(s: State): nat {
    CallSteps(s.calls) * 2 + SetSteps(s)
  }

  lemma {:induction false} CallStepsTo(calls: seq<Pc>, id: nat, pc: Pc)
    requires id < |calls|
    ensures CallSteps(calls[id := pc]) == CallSteps(calls) - Steps(calls[id]) + Steps(pc)
  {
    var n := |calls| - 1;
    if id == n {
      assert calls[id := pc][..n] == calls[..n];
    } else {
      assert calls[id := pc][..n] == calls[..n][id := pc];
      CallStepsTo(calls[..n], id, pc);
    }
  }

  // The call that a step belongs to.
  function CallOf(e: Event): int {
    match e
    case Load(id) => id
    case DeliverFast(id) => id
    case Acquire(id) => id
    case Reload(id) => id
    case DeliverLate(id) => id
    case Push(id) => id
    case Release(id) => id
    case _ => -1
  }

  /** Every step but the start of a new call brings the end nearer. */
  lemma StepCounts(s: State, e: Event)
    requires Inv(s) && Enabled(s, e) && e != Begin
    ensures Left(Apply(s, e)) < Left(s)
  {
    hide CallSteps, InvOnce, InvOrder, InvLock;
    var id := CallOf(e);
    if id >= 0 {
      CallStepsTo(s.calls, id, Apply(s, e).calls[id]);
      assert Apply(s, e).calls == s.calls[id := Apply(s, e).calls[id]];
    }
  }

  /** While Set is to be done or a call is on its way, some step can be taken. */
  lemma NeverStuck(s: State, id: nat) returns (e: Event)
    requires Inv(s) && (s.setting != SetDone || (id < |s.calls| && s.calls[id] != Done))
    ensures e != Begin && Enabled(s, e)
  {
    hide InvOnce, InvOrder, InvLogger;
    match s.lock
    case CallHolds(x) => e := NextOf(s.calls[x], x);
    case SetHolds =>
      e := match s.setting
        case SetLocked => SetPublish
        case Replaying(k) => if k < |s.pending| then SetReplay else SetClear
        case _ => SetRelease;
    case Free =>
      if s.setting != SetDone {
        e := SetAcquire;
      } else {
        e := NextOf(s.calls[id], id);
      }
  }

  // The next step of a call that is on its way.
  function NextOf(pc: Pc, id: nat): Event {
    match pc
    case Start => Load(id)
    case Fast => DeliverFast(id)
    case Slow => Acquire(id)
    case Holding => Reload(id)
    case Late => DeliverLate(id)
    case Queue => Push(id)
    case _ => Release(id)
  }

  // ---------------------------------------------------------------- given sequences of steps

  // The state after some steps, if each can be taken.
  function After(s: State, events: seq<Event>): Option<State> {
    if events == [] then Some(s)
    else match After(s, events[..|events| - 1])
      case None => None
      case Some(t) =>
        if Enabled(t, events[|events| - 1]) then Some(Apply(t, events[|events| - 1])) else None
  }

  lemma AfterSnoc(s: State, events: seq<Event>, t: State, e: Event)
    requires After(s, events) == Some(t) && Enabled(t, e)
    ensures After(s, events + [e]) == Some(Apply(t, e))
  {
    assert (events + [e])[..|events|] == events;
  }

  /** What one call of Log comes to when nobody else moves. */
  function Logged(s: State): State {
    var id := |s.calls|;
    var t := s.(calls := s.calls + [Done]);
    if s.logger then t.(delivered := s.delivered + [id])
    else t.(pending := s.pending + [id], queued := s.queued + [id])
  }

  lemma LogAlone(s: State) returns (events: seq<Event>)
    requires s.lock == Free
    ensures After(s, events) == Some(Logged(s))
  {
    hide After;
    var id := |s.calls|;
    var a := Apply(s, Begin);
    assert After(s, []) == Some(s) by { AfterNone(s); }
    AfterSnoc(s, [], s, Begin);
    AfterSnoc(s, [] + [Begin], a, Load(id));
    var b := Apply(a, Load(id));
    events := [] + [Begin] + [Load(id)];
    if s.logger {
      AfterSnoc(s, events, b, DeliverFast(id));
      events := events + [DeliverFast(id)];
      assert Apply(b, DeliverFast(id)) == Logged(s);
    } else {
      events := QueueAlone(s, events, b);
    }
  }

  lemma AfterNone(s: State)
    ensures After(s, []) == Some(s)
  {
  }

  // The slow path, from a call that saw no logger.
  lemma QueueAlone(s: State, before: seq<Event>, b: State) returns (events: seq<Event>)
    requires s.lock == Free && !s.logger
    requires After(s, before) == Some(b) && b == s.(calls := s.calls + [Slow])
    ensures After(s, events) == Some(Logged(s))
  {
    hide After;
    var id := |s.calls|;
    AfterSnoc(s, before, b, Acquire(id));
    var c := Apply(b, Acquire(id));
    events := before + [Acquire(id)];
    AfterSnoc(s, events, c, Reload(id));
    var d := Apply(c, Reload(id));
    events := events + [Reload(id)];
    AfterSnoc(s, events, d, Push(id));
    var e := Apply(d, Push(id));
    events := events + [Push(id)];
    AfterSnoc(s, events, e, Release(id));
    events := events + [Release(id)];
    assert Apply(e, Release(id)) == Logged(s);
  }

  /** What Set comes to when nobody else moves. */
  function WholeSet(s: State): State {
    s.(logger := true, delivered := s.delivered + s.pending, pending := [], setting := SetDone)
  }

  lemma SetAlone(s: State) returns (events: seq<Event>)
    requires s.lock == Free && s.setting == Unset
    ensures After(s, events) == Some(WholeSet(s))
  {
    hide After;
    AfterNone(s);
    AfterSnoc(s, [], s, SetAcquire);
    var a := Apply(s, SetAcquire);
    AfterSnoc(s, [] + [SetAcquire], a, SetPublish);
    var b := Apply(a, SetPublish);
    assert s.pending[..0] == [] && s.delivered + s.pending[..0] == s.delivered;
    events := ReplayAlone(s, [] + [SetAcquire] + [SetPublish], b, |s.pending|);
    var c := b.(setting := Replaying(|s.pending|), delivered := s.delivered + s.pending);
    assert s.pending[..|s.pending|] == s.pending;
    AfterSnoc(s, events, c, SetClear);
    events := events + [SetClear];
    AfterSnoc(s, events, Apply(c, SetClear), SetRelease);
    events := events + [SetRelease];
    assert Apply(Apply(c, SetClear), SetRelease) == WholeSet(s);
  }

  lemma {:induction false} ReplayAlone(s: State, before: seq<Event>, b: State, n: nat) returns (events: seq<Event>)
    requires After(s, before) == Some(b) && b.setting == Replaying(0) && n <= |b.pending|
    ensures After(s, events) == Some(b.(setting := Replaying(n), delivered := b.delivered + b.pending[..n]))
  {
    hide After;
    if n == 0 {
      events := before;
      assert b.delivered + b.pending[..0] == b.delivered;
      assert b.(setting := Replaying(0), delivered := b.delivered) == b;
    } else {
      events := ReplayAlone(s, before, b, n - 1);
      var c := b.(setting := Replaying(n - 1), delivered := b.delivered + b.pending[..n - 1]);
      AfterSnoc(s, events, c, SetReplay);
      events := events + [SetReplay];
      assert b.delivered + b.pending[..n] == b.delivered + b.pending[..n - 1] + [b.pending[n - 1]];
    }
  }

  // Some queued message has not reached the logger yet.
  ghost predicate Outstanding(s: State) {
    exists q :: q in s.queued && q !in s.delivered
  }

  lemma {:induction false} OnlyFrom(t: seq<nat>, q: seq<nat>, x: nat)
    requires x in Only(t, q)
    ensures x in t
  {
    if x != t[|t| - 1] {
      OnlyFrom(t[..|t| - 1], q, x);
    }
  }

  lemma OutstandingIff(s: State)
    requires Inv(s)
    ensures Outstanding(s) <==> Replayed(s) < |s.queued|
  {
    if Replayed(s) < |s.queued| {
      NextOutstanding(s);
    } else {
      AllDelivered(s);
    }
  }

  lemma AllDelivered(s: State)
    requires InvOrder(s) && Replayed(s) == |s.queued|
    ensures !Outstanding(s)
  {
    assert s.queued[..Replayed(s)] == s.queued;
    forall q | q in s.queued ensures q in s.delivered {
      OnlyFrom(s.delivered, s.queued, q);
    }
  }

  lemma NextOutstanding(s: State)
    requires InvQueue(s) && InvOnce(s) && Replayed(s) < |s.queued|
    ensures Outstanding(s)
  {
    var q := s.queued[Replayed(s)];
    CountTail(s.queued, Replayed(s), q);
    assert Copies(s, q) <= 1;
    assert multiset(s.delivered)[q] == 0;
    assert q in s.queued && q !in s.delivered;
  }

  /**
   * When a message is passed on, it overtakes a queued one exactly in the race with the replay: on
   * the fast path, after Set published the logger and before it has replayed the queue.
   */
  lemma OvertakesIff(states: seq<State>, events: seq<Event>, k: nat, id: nat)
    requires Run(states, events) && k < |events|
    requires events[k] == DeliverFast(id) || events[k] == DeliverLate(id)
    ensures Outstanding(states[k]) <==>
      events[k] == DeliverFast(id) && states[k].setting.Replaying? && states[k].setting.k < |states[k].pending|
  {
    RunKeepsInv(states, events, k);
    OutstandingIff(states[k]);
    hide InvOnce, InvOrder, Outstanding;
  }

  /** A call of Log that begins after Set has returned overtakes nothing. */
  lemma AfterSetNoOvertaking(states: seq<State>, events: seq<Event>, j: nat, k: nat, id: nat)
    requires Run(states, events) && j <= k < |events| && states[j].setting == SetDone
    requires events[j] == Begin && id == |states[j].calls|
    requires events[k] == DeliverFast(id) || events[k] == DeliverLate(id)
    ensures !Outstanding(states[k])
  {
    hide Outstanding;
    PendingStaysEmpty(states, events, j, k);
    OvertakesIff(states, events, k, id);
  }

  /** The race can be lost: message 1, logged after message 0 was queued, comes first. */
  lemma FastPathOvertakes() returns (states: seq<State>, events: seq<Event>)
    ensures Run(states, events) && 2 <= |events| && events[|events| - 2] == DeliverFast(1)
    ensures states[|events|].queued == [0] && states[|events|].delivered == [1, 0]
  {
    hide After, Run;
    events := LogAlone(Initial());
    var t := Logged(Initial());
    events, t := Onward(events, t, SetAcquire);
    events, t := Onward(events, t, SetPublish);
    events, t := Onward(events, t, Begin);
    events, t := Onward(events, t, Load(1));
    events, t := Onward(events, t, DeliverFast(1));
    events, t := Onward(events, t, SetReplay);
    states := RunOf(events, t);
  }

  lemma {:induction false} RunOf(events: seq<Event>, t: State) returns (states: seq<State>)
    requires After(Initial(), events) == Some(t)
    ensures Run(states, events) && |states| == |events| + 1 && states[|events|] == t
  {
    hide Enabled, Apply;
    if events == [] {
      states := [t];
    } else {
      var n := |events| - 1;
      var before := RunOf(events[..n], After(Initial(), events[..n]).value);
      states := before + [t];
      forall k | 0 <= k < |events|
        ensures Enabled(states[k], events[k]) && states[k + 1] == Apply(states[k], events[k])
      {
        if k < n {
          assert events[..n][k] == events[k];
        }
      }
    }
  }

  lemma Onward(events: seq<Event>, t: State, e: Event) returns (events': seq<Event>, t': State)
    requires After(Initial(), events) == Some(t) && Enabled(t, e)
    ensures After(Initial(), events') == Some(t') && t' == Apply(t, e) && events' == events + [e]
  {
    AfterSnoc(Initial(), events, t, e);
    events', t' := events + [e], Apply(t, e);
  }

  // ---------------------------------------------------------------- the object

  class Logger {
    var received: seq<nat>

    constructor ()
      ensures received == []
    {
      received := [];
    }

    method Log(message: nat)
      modifies this
      ensures received == old(received) + [message]
    {
      received := received + [message];
    }
  }

  class PendingLogger {
    var logger: Logger?
    var pending: seq<nat>

    constructor ()
      ensures logger == null && pending == []
    {
      logger, pending := null, [];
    }

    /** The fields as a state of the machine, between calls. */
    ghost predicate Shows(s: State)
      reads this, logger
    {
      && s.lock == Free && pending == s.pending
      && (logger != null <==> s.logger)
      && (s.setting == if logger != null then SetDone else Unset)
      && (logger != null ==> logger.received == s.delivered)
    }

    method Set(target: Logger)
      requires logger == null
      modifies this, target
      ensures logger == target && pending == []
      ensures target.received == old(target.received) + old(pending)
      ensures forall s :: old(Shows(s)) && s.delivered == old(target.received) ==> Shows(WholeSet(s))
    {
      logger := target;
      for i := 0 to |pending|
        invariant logger == target && pending == old(pending)
        invariant target.received == old(target.received) + pending[..i]
      {
        logger.Log(pending[i]);
      }
      pending := [];
    }

    method Log(message: nat)
      modifies this, logger
      ensures logger == old(logger)
      ensures logger != null ==> logger.received == old(logger.received) + [message] && pending == old(pending)
      ensures logger == null ==> pending == old(pending) + [message]
      ensures forall s :: old(Shows(s)) && |s.calls| == message ==> Shows(Logged(s))
    {
      if logger != null {
        logger.Log(message);
      } else {
        pending := pending + [message];
      }
    }
  }
}
