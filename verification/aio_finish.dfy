/**
 * How the asynchronous writer of src/base/aio.cpp is told to finish, over the calls of a run: what
 * aio_close and aio_wait leave behind, and whether the file gets closed.
 */
module AioFinish {
  import opened Base
  import opened AioRing
  import opened AioMachine
  import opened AioRuns

  // The critical section of aio_close, and that of aio_wait.
  predicate Closes(s: State, e: Event) {
    e.Unlock? && At(s, e.id, Holding(CloseOp))
  }

  predicate Waits(s: State, e: Event) {
    e.Unlock? && At(s, e.id, Holding(Wait))
  }

  // The drain thread leaves its loop.
  predicate Leaves(s: State, e: Event) {
    e.DrainTop? && s.drain.Top? && s.ring.contents == [] && s.finish != Running
  }

  lemma UnlockFinish(s: State, id: nat, op: Op)
    ensures var t := UnlockBody(s, id, op);
      && t.drain == s.drain && t.ioClosed == s.ioClosed
      && t.finish == match op
        case CloseOp => Close
        case Wait => if s.finish == Running then Exit else s.finish
        case _ => s.finish
  {
    match op
    case Write =>
    case Error =>
    case CloseOp =>
    case Wait =>
    case Free =>
  }

  lemma FinishStep(s: State, e: Event)
    requires s.ring.Valid() && Enabled(s, e)
    ensures Apply(s, e).finish ==
      if Closes(s, e) then Close else if Waits(s, e) && s.finish == Running then Exit else s.finish
  {
    hide Touches, UnlockBody;
    match e
    case DrainLock =>
    case DrainTop =>
    case DrainWake =>
    case DrainWrite =>
    case DrainLeave =>
    case Call(_, _) =>
    case Lock(_) =>
    case Put(_, _) =>
    case Unlock(id) =>
      UnlockFinish(s.(fault := s.fault || (s.freeCount > 0 && Touches(s, e))), id, s.clients[id].op);
    case Signal(_) =>
    case Joined(_) =>
    case Freed(_) =>
  }

  lemma LeavesStep(s: State, e: Event)
    requires s.ring.Valid() && Enabled(s, e)
    ensures Gone(Apply(s, e)) <==> Gone(s) || Leaves(s, e)
    ensures Apply(s, e).ioClosed <==> s.ioClosed || (Leaves(s, e) && s.finish == Close)
  {
    hide Touches, UnlockBody;
    match e
    case DrainLock =>
    case DrainTop =>
    case DrainWake =>
    case DrainWrite =>
    case DrainLeave =>
    case Call(_, _) =>
    case Lock(_) =>
    case Put(_, _) =>
    case Unlock(id) =>
      UnlockFinish(s.(fault := s.fault || (s.freeCount > 0 && Touches(s, e))), id, s.clients[id].op);
    case Signal(_) =>
    case Joined(_) =>
    case Freed(_) =>
  }

  lemma LeavesOnce(s: State, e: Event)
    requires Gone(s)
    ensures !Leaves(s, e)
  {
  }

  // Some call of aio_close, or of aio_wait, got through its critical section before step i.
  ghost predicate ClosedBefore(ss: seq<State>, es: seq<Event>, i: nat)
    requires i <= |es| && |ss| > |es|
  {
    exists k :: 0 <= k < i && Closes(ss[k], es[k])
  }

  ghost predicate WaitedBefore(ss: seq<State>, es: seq<Event>, i: nat)
    requires i <= |es| && |ss| > |es|
  {
    exists k :: 0 <= k < i && Waits(ss[k], es[k])
  }

  lemma ClosedByNext(ss: seq<State>, es: seq<Event>, i: nat)
    requires i < |es| && |ss| > |es|
    ensures ClosedBefore(ss, es, i + 1) <==> ClosedBefore(ss, es, i) || Closes(ss[i], es[i])
    ensures WaitedBefore(ss, es, i + 1) <==> WaitedBefore(ss, es, i) || Waits(ss[i], es[i])
  {
    hide Closes, Waits;
  }

  lemma NothingBefore(ss: seq<State>, es: seq<Event>)
    requires |ss| > |es|
    ensures !ClosedBefore(ss, es, 0) && !WaitedBefore(ss, es, 0)
  {
  }

  /**
   * The writer is told to close exactly by a call of aio_close, which nothing takes back, and to
   * exit without closing exactly by aio_wait with no aio_close yet.
   */
  lemma {:induction false} FinishIff(ss: seq<State>, es: seq<Event>, i: nat)
    requires Run(ss, es) && i < |ss|
    ensures ss[i].finish == Close <==> ClosedBefore(ss, es, i)
    ensures ss[i].finish == Exit <==> !ClosedBefore(ss, es, i) && WaitedBefore(ss, es, i)
  {
    hide Apply, Enabled, Closes, Waits, ClosedBefore, WaitedBefore;
    if i > 0 {
      FinishIff(ss, es, i - 1);
      assert Step(ss[i - 1], es[i - 1], ss[i]);
      FinishStep(ss[i - 1], es[i - 1]);
      ClosedByNext(ss, es, i - 1);
    } else {
      NothingBefore(ss, es);
    }
  }

  lemma {:induction false} NotClosedBefore(ss: seq<State>, es: seq<Event>, i: nat)
    requires Run(ss, es) && i < |ss| && !Gone(ss[i])
    ensures !ss[i].ioClosed
  {
    if i > 0 {
      hide Apply, Enabled, Leaves;
      assert Step(ss[i - 1], es[i - 1], ss[i]);
      LeavesStep(ss[i - 1], es[i - 1]);
      NotClosedBefore(ss, es, i - 1);
    }
  }

  /**
   * Once the drain thread has left, the file is closed exactly if aio_close was called before it
   * left; it is not closed any earlier, and not later either.
   */
  lemma {:induction false} FileClosedIff(ss: seq<State>, es: seq<Event>, leave: nat, i: nat)
    requires Run(ss, es) && leave < i < |ss| && Leaves(ss[leave], es[leave])
    ensures !Gone(ss[leave]) && !ss[leave].ioClosed && Gone(ss[i])
    ensures ss[i].ioClosed <==> ClosedBefore(ss, es, leave)
    decreases i
  {
    hide Apply, Enabled, ClosedBefore, Closes;
    StillThere(ss, es, leave);
    assert Step(ss[i - 1], es[i - 1], ss[i]);
    LeavesStep(ss[i - 1], es[i - 1]);
    if leave < i - 1 {
      FileClosedIff(ss, es, leave, i - 1);
      LeavesOnce(ss[i - 1], es[i - 1]);
    }
    hide Leaves, Gone;
  }

  lemma StillThere(ss: seq<State>, es: seq<Event>, leave: nat)
    requires Run(ss, es) && leave < |es| && Leaves(ss[leave], es[leave])
    ensures !Gone(ss[leave]) && !ss[leave].ioClosed
    ensures ss[leave].finish == Close <==> ClosedBefore(ss, es, leave)
  {
    hide ClosedBefore;
    NotClosedBefore(ss, es, leave);
    FinishIff(ss, es, leave);
  }
}
