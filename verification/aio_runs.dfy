/**
 * What every run of the asynchronous writer satisfies: nothing is lost, the ASYNCIO is freed once,
 * no wakeup is lost, and the drain thread gets everything written.
 */
module AioRuns {
  import opened Base
  import opened AioRing
  import opened AioMachine

  /** Nothing is lost, duplicated or reordered, in any interleaving. */
  lemma NothingLost(ss: seq<State>, es: seq<Event>, i: nat)
    requires Run(ss, es) && i < |ss|
    ensures ss[i].written + InFlight(ss[i]) + ss[i].ring.contents == ss[i].accepted
    ensures |InFlight(ss[i])| <= ASYNC_LOCAL_BUFSIZE as int
    ensures ss[i].ring.Valid()
  {
    RunKeepsInv(ss, es, i);
  }

  /**
   * The ASYNCIO is freed once: never twice, never touched afterwards, and gone as soon as the
   * drain thread has exited and aio_free has returned.
   */
  lemma FreedOnceAndLast(ss: seq<State>, es: seq<Event>, i: nat)
    requires Run(ss, es) && i < |ss|
    ensures ss[i].freeCount <= 1 && !ss[i].fault
    ensures ss[i].drain.Exited? && ss[i].freeCalled && ss[i].clients == map[] ==> ss[i].freeCount == 1
    ensures ss[i].freeCount == 1 ==> (ss[i].drain.Exited? || ss[i].drain == Leaving(false)) && Released(ss[i])
  {
    RunKeepsInv(ss, es, i);
  }

  /** The drain thread leaves only with every accepted byte written, closing the file iff asked to. */
  lemma DrainLeavesClean(ss: seq<State>, es: seq<Event>, i: nat)
    requires Run(ss, es) && i < |es| && es[i] == DrainTop && ss[i + 1].drain.Leaving?
    ensures ss[i].written == ss[i].accepted == ss[i + 1].written
    ensures ss[i + 1].ioClosed <==> ss[i].ioClosed || ss[i].finish == Close
  {
    RunKeepsInv(ss, es, i);
    assert Step(ss[i], es[i], ss[i + 1]);
    assert ss[i].written + [] + [] == ss[i].written;
  }

  predicate Gone(s: State) {
    s.drain.Leaving? || s.drain.Exited?
  }

  // How a state relates to a later one.
  predicate Grew(s: State, t: State) {
    && s.accepted <= t.accepted && s.written <= t.written
    && (Gone(s) ==> Gone(t) && t.written == s.written)
    && (!Gone(s) && Gone(t) ==> s.accepted <= t.written)
  }

  lemma DrainTopGrows(s: State)
    requires InvData(s) && s.drain.Top?
    ensures Grew(s, Apply(s, DrainTop))
  {
    if s.ring.contents == [] {
      assert s.written + [] + [] == s.written;
    } else {
      hide InvData;
    }
  }

  lemma DrainGrows(s: State, e: Event)
    requires InvData(s) && Enabled(s, e)
    requires e.DrainLock? || e.DrainWake? || e.DrainWrite? || e.DrainLeave?
    ensures Grew(s, Apply(s, e))
  {
  }

  // A step of a client leaves what the drain thread did.
  predicate DrainUntouched(s: State, t: State, e: Event) {
    t.drain == s.drain && t.written == s.written
    && t.accepted == if e.Put? then s.accepted + e.data else s.accepted
  }

  lemma UnlockBodyKeeps(s: State, id: nat, op: Op)
    ensures var t := UnlockBody(s, id, op); t.drain == s.drain && t.written == s.written && t.accepted == s.accepted
  {
    match op
    case Write =>
    case Error =>
    case CloseOp =>
    case Wait =>
    case Free =>
  }

  lemma LockedStep(s: State, e: Event)
    requires s.ring.Valid() && Enabled(s, e) && (e.Lock? || e.Put? || e.Unlock?)
    ensures DrainUntouched(s, Apply(s, e), e)
  {
    hide Touches, UnlockBody;
    match e
    case Lock(_) =>
    case Put(_, _) =>
    case Unlock(id) =>
      UnlockBodyKeeps(s.(fault := s.fault || (s.freeCount > 0 && Touches(s, e))), id, s.clients[id].op);
  }

  lemma UnlockedStep(s: State, e: Event)
    requires s.ring.Valid() && Enabled(s, e) && (e.Call? || e.Signal? || e.Joined? || e.Freed?)
    ensures DrainUntouched(s, Apply(s, e), e)
  {
    hide Enabled, Touches;
    match e
    case Call(_, _) =>
    case Signal(_) =>
    case Joined(_) =>
    case _ =>
  }

  lemma ClientGrows(s: State, e: Event)
    requires InvData(s) && Enabled(s, e)
    requires e.Call? || e.Lock? || e.Put? || e.Unlock? || e.Signal? || e.Joined? || e.Freed?
    ensures Grew(s, Apply(s, e))
  {
    if e.Lock? || e.Put? || e.Unlock? {
      LockedStep(s, e);
    } else {
      UnlockedStep(s, e);
    }
    hide Apply, Enabled;
  }

  lemma StepGrows(s: State, e: Event)
    requires InvData(s) && Enabled(s, e)
    ensures Grew(s, Apply(s, e))
  {
    match e
    case DrainTop => DrainTopGrows(s);
    case DrainLock => DrainGrows(s, e);
    case DrainWake => DrainGrows(s, e);
    case DrainWrite => DrainGrows(s, e);
    case DrainLeave => DrainGrows(s, e);
    case _ => ClientGrows(s, e);
  }

  lemma RunStepGrows(ss: seq<State>, es: seq<Event>, i: nat)
    requires Run(ss, es) && i < |es|
    ensures Grew(ss[i], ss[i + 1])
  {
    RunKeepsInv(ss, es, i);
    assert Step(ss[i], es[i], ss[i + 1]);
    StepGrows(ss[i], es[i]);
  }

  lemma GrewTransitive(s: State, t: State, u: State)
    requires Grew(s, t) && Grew(t, u)
    ensures Grew(s, u)
  {
  }

  lemma {:induction false} RunGrows(ss: seq<State>, es: seq<Event>, i: nat, j: nat)
    requires Run(ss, es) && i <= j < |ss|
    ensures Grew(ss[i], ss[j])
    decreases j
  {
    if i < j {
      RunGrows(ss, es, i, j - 1);
      RunStepGrows(ss, es, j - 1);
      GrewTransitive(ss[i], ss[j - 1], ss[j]);
    }
  }

  /**
   * What aio_wait gives its caller. Once it has joined the drain thread, all that had been
   * accepted at an earlier moment is written exactly if the thread was still there at that
   * moment or the ring was empty; it was still there if nobody had called aio_close or aio_wait
   * by then. Bytes accepted after the thread left are never written.
   */
  lemma WaitFlushesIff(ss: seq<State>, es: seq<Event>, i: nat, j: nat, id: nat)
    requires Run(ss, es) && i <= j < |es| && es[j] == Joined(id)
    ensures ss[i].accepted <= ss[j].written <==> !Gone(ss[i]) || ss[i].ring.contents == []
    ensures ss[i].finish == Running ==> !Gone(ss[i])
  {
    RunGrows(ss, es, i, j);
    RunKeepsInv(ss, es, i);
    assert Step(ss[j], es[j], ss[j + 1]);
    if Gone(ss[i]) {
      assert ss[i].written + [] + ss[i].ring.contents == ss[i].accepted;
      assert |ss[i].accepted| == |ss[i].written| + |ss[i].ring.contents|;
    }
  }

  /** A sleeping drain thread with work can be woken: the signal was made or some call owes it. */
  lemma NoLostWakeup(ss: seq<State>, es: seq<Event>, i: nat)
    requires Run(ss, es) && i < |ss|
    requires ss[i].drain.Sleeping? && HasWork(ss[i])
    ensures Enabled(ss[i], DrainWake) || exists id :: id in ss[i].clients && WillSignal(ss[i].clients[id])
  {
    RunKeepsInv(ss, es, i);
  }

  // ---------------------------------------------------------------- a byte that comes too late

  // One more step at the end of a run.
  lemma RunGoesOn(ss: seq<State>, es: seq<Event>, e: Event) returns (ss': seq<State>, es': seq<Event>)
    requires Run(ss, es) && Enabled(ss[|es|], e)
    ensures Run(ss', es') && es' == es + [e] && ss <= ss' && |ss'| == |es'| + 1
    ensures ss[|es|].ring.Valid() && ss'[|es'|] == Apply(ss[|es|], e)
  {
    RunKeepsInv(ss, es, |es|);
    ss', es' := ss + [Apply(ss[|es|], e)], es + [e];
    forall i {:trigger es'[i]} | 0 <= i < |es'| ensures Step(ss'[i], es'[i], ss'[i + 1]) {
      if i < |es| {
        assert Step(ss[i], es[i], ss[i + 1]);
      }
    }
  }

  // aio_wait has told the drain thread to exit, and it did, finding the ring empty.
  lemma ThreadLeaves() returns (ss: seq<State>, es: seq<Event>)
    ensures Run(ss, es) && |ss| == |es| + 1
    ensures ss[|es|] == State(Ring(0x2000, 0, []), 0, Exit, 1, Nobody, false, Leaving(false),
      map[0 := OwesSignal(Wait)], true, false, 0, false, false, [], [])
  {
    ss, es := [State(Ring(0x2000, 0, []), 0, Running, 2, Nobody, true, Acquire, map[],
                     false, false, 0, false, false, [], [])], [];
    hide Run;
    ss, es := RunGoesOn(ss, es, Call(0, Wait));
    ss, es := RunGoesOn(ss, es, Lock(0));
    ss, es := RunGoesOn(ss, es, Unlock(0));
    ss, es := RunGoesOn(ss, es, DrainLock);
    ss, es := RunGoesOn(ss, es, DrainTop);
  }

  /** A run in which aio_wait joins the drain thread after a byte was accepted too late for it. */
  lemma LateBytesLost() returns (ss: seq<State>, es: seq<Event>, i: nat)
    ensures Run(ss, es) && i < |es| - 1 && |ss| == |es| + 1 && es[|es| - 1] == Joined(0)
    ensures Gone(ss[i]) && ss[i].ring.contents == [7]
    ensures !(ss[i].accepted <= ss[|es| - 1].written)
  {
    hide Run;
    ss, es := ThreadLeaves();
    ss, es := RunGoesOn(ss, es, Call(1, Write));
    ss, es := RunGoesOn(ss, es, Lock(1));
    ss, es := RunGoesOn(ss, es, Put(1, [7]));
    i := |es|;
    ghost var late := ss[i];
    ss, es := RunGoesOn(ss, es, Signal(0));
    assert ss[i] == late;
    ss, es := RunGoesOn(ss, es, DrainLeave);
    assert ss[i] == late;
    ss, es := RunGoesOn(ss, es, Joined(0));
  }

  // ---------------------------------------------------------------- progress

  predicate Quiet(s: State) {
    s.drain.Exited? || (s.drain.Sleeping? && s.sem == 0)
  }

  function DrainEvent(s: State): Event {
    match s.drain
    case Acquire => DrainLock
    case Top => DrainTop
    case Sleeping => DrainWake
    case Writing(_) => DrainWrite
    case _ => DrainLeave
  }

  function Rank(pc: DrainPc): nat {
    match pc
    case Writing(_) => 4
    case Acquire => 3
    case Top => 2
    case Sleeping => 1
    case Leaving(_) => 1
    case Exited => 0
  }

  // The drain thread got further, and did nothing else.
  predicate Nearer(s: State, t: State) {
    && t.clients == s.clients && t.accepted == s.accepted
    && t.finish == s.finish && t.freeCalled == s.freeCalled
    && (|t.ring.contents| < |s.ring.contents|
        || (t.ring.contents == s.ring.contents && t.sem < s.sem)
        || (t.ring.contents == s.ring.contents && t.sem == s.sem && Rank(t.drain) < Rank(s.drain)))
  }

  lemma DrainEventEnabled(s: State)
    requires InvLock(s) && s.clients == map[] && !Quiet(s)
    ensures Enabled(s, DrainEvent(s))
  {
  }

  lemma DrainEventProgresses(s: State)
    requires s.ring.Valid() && Enabled(s, DrainEvent(s))
    ensures Nearer(s, Apply(s, DrainEvent(s)))
  {
    hide Touches;
    match s.drain
    case Acquire =>
    case Top => TopProgresses(s);
    case Sleeping =>
    case _ =>
  }

  lemma TopProgresses(s: State)
    requires s.ring.Valid() && s.drain.Top?
    ensures Nearer(s, Apply(s, DrainTop))
  {
    if s.ring.contents != [] {
      ghost var dropped := s.ring.Drop();
      assert |dropped.contents| < |s.ring.contents|;
      hide Ring.Drop;
    }
  }

  /** The state after up to n steps of the drain thread alone. */
  ghost function DrainAlone(s: State, n: nat): State
    requires Inv(s)
    decreases n
  {
    if n == 0 || !Enabled(s, DrainEvent(s)) then s
    else
      StepKeepsInv(s, DrainEvent(s));
      DrainAlone(Apply(s, DrainEvent(s)), n - 1)
  }

  lemma {:induction false} DrainAloneReachesQuiet(s: State) returns (n: nat)
    requires Inv(s) && s.clients == map[]
    ensures var u := DrainAlone(s, n);
      && Quiet(u) && Inv(u) && Grew(s, u)
      && u.clients == map[] && u.accepted == s.accepted
      && u.finish == s.finish && u.freeCalled == s.freeCalled
    decreases |s.ring.contents|, s.sem, Rank(s.drain)
  {
    if Quiet(s) {
      n := 0;
    } else {
      DrainEventEnabled(s);
      DrainEventProgresses(s);
      StepKeepsInv(s, DrainEvent(s));
      StepGrows(s, DrainEvent(s));
      var t := Apply(s, DrainEvent(s));
      var m := DrainAloneReachesQuiet(t);
      n := m + 1;
      assert DrainAlone(s, n) == DrainAlone(t, m);
      GrewTransitive(s, t, DrainAlone(t, m));
    }
  }

  /**
   * Whenever no call is in progress, the drain thread alone runs on until it has exited or
   * sleeps, and (unless it had left before) everything accepted is then written. It exits
   * exactly if it was told to finish, and then the ASYNCIO is freed if aio_free was called.
   */
  lemma DrainSettles(ss: seq<State>, es: seq<Event>, i: nat) returns (n: nat)
    requires Run(ss, es) && i < |ss| && ss[i].clients == map[]
    ensures Inv(ss[i])
    ensures var u := DrainAlone(ss[i], n);
      && Quiet(u)
      && (!Gone(ss[i]) ==> u.written == ss[i].accepted)
      && (u.drain.Exited? <==> ss[i].finish != Running)
      && (ss[i].freeCalled && ss[i].finish != Running ==> u.freeCount == 1)
  {
    RunKeepsInv(ss, es, i);
    n := DrainAloneReachesQuiet(ss[i]);
    var u := DrainAlone(ss[i], n);
    if u.drain.Sleeping? {
      assert u.written + [] + [] == u.written;
    }
  }
}
