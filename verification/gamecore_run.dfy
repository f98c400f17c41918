/**
 * Runs of one core: any sequence of Tick, TickDeferred and Move calls, each with whatever the map
 * and the other players are at that moment.
 */
module GameCoreRun {
  import opened GameCore

  datatype Step = TickStep(inp: TickInput, env: Env) | DeferStep(world: bool) | MoveStep(grounded: bool)

  function Stepped(s: CoreState, step: Step): CoreState {
    match step
    case TickStep(inp, env) => Ticked(s, inp, env)
    case DeferStep(world) => Deferred(s, world)
    case MoveStep(grounded) => Moved(s, grounded)
  }

  /** The state before step k. */
  function At(s: CoreState, steps: seq<Step>, k: nat): CoreState
    requires k <= |steps|
  {
    if k == 0 then s else Stepped(At(s, steps, k - 1), steps[k - 1])
  }

  // ---------------------------------------------------------------- what every step keeps

  predicate Inv(s: CoreState) {
    HookedGrabs(s) && TwoBits(s)
  }

  lemma StepKeeps(s: CoreState, step: Step)
    requires Inv(s)
    ensures Inv(Stepped(s, step))
  {
    if step.TickStep? {
      TickedGrabs(s, step.inp, step.env);
      TickedBits(s, step.inp, step.env);
      hide Ticked;
    }
  }

  lemma {:induction false} RunKeeps(s: CoreState, steps: seq<Step>, k: nat)
    requires Inv(s) && k <= |steps|
    ensures Inv(At(s, steps, k))
  {
    if k > 0 {
      RunKeeps(s, steps, k - 1);
      StepKeeps(At(s, steps, k - 1), steps[k - 1]);
    }
  }

  /**
   * In every run from Reset a hooked player means a grabbing hook, m_Jumped stays in 0..3, and
   * after a tick in a world the hooked player exists.
   */
  lemma RunFromReset(steps: seq<Step>, k: nat)
    requires k <= |steps|
    ensures var t := At(ResetState(), steps, k);
      && (t.hookedPlayer != -1 ==> t.hookState == HOOK_GRABBED)
      && t.jumped <= 3
      && (k > 0 && steps[k - 1].TickStep? && steps[k - 1].env.world && t.hookedPlayer != -1 ==>
        t.hookedPlayer in steps[k - 1].env.present)
  {
    RunKeeps(ResetState(), steps, k);
    if k > 0 && steps[k - 1].TickStep? {
      RunKeeps(ResetState(), steps, k - 1);
      TickedTarget(At(ResetState(), steps, k - 1), steps[k - 1].inp, steps[k - 1].env);
    }
    hide Ticked;
  }

  // ---------------------------------------------------------------- launches

  predicate LaunchesAt(s: CoreState, steps: seq<Step>, k: nat)
    requires k < |steps|
  {
    steps[k].TickStep? && Launches(At(s, steps, k), steps[k].inp)
  }

  // The key is read and it is up.
  predicate LetsGo(step: Step) {
    step.TickStep? && step.inp.useInput && !step.inp.hook
  }

  lemma {:induction false} StaysOut(s: CoreState, steps: seq<Step>, i: nat, j: nat)
    requires i < j <= |steps| && LaunchesAt(s, steps, i)
    requires forall k :: i < k < j ==> !LetsGo(steps[k])
    ensures At(s, steps, j).hookState != HOOK_IDLE
  {
    var before, step := At(s, steps, j - 1), steps[j - 1];
    if step.TickStep? {
      TickedIdle(before, step.inp, step.env);
    }
    hide Ticked;
    if j - 1 > i {
      StaysOut(s, steps, i, j - 1);
    }
  }

  /** Between two launches the hook key was let go. */
  lemma LaunchesSeparated(s: CoreState, steps: seq<Step>, i: nat, j: nat)
    requires i < j < |steps|
    ensures LaunchesAt(s, steps, i) && LaunchesAt(s, steps, j) ==> exists k :: i < k < j && LetsGo(steps[k])
  {
    if LaunchesAt(s, steps, i) && LaunchesAt(s, steps, j) && forall k :: i < k < j ==> !LetsGo(steps[k]) {
      StaysOut(s, steps, i, j);
    }
  }

  // ---------------------------------------------------------------- how long a player is held

  // The ticks among steps a..b after which a player is hooked.
  function HeldTicks(s: CoreState, steps: seq<Step>, a: nat, b: nat): nat
    requires a <= b <= |steps|
    decreases b
  {
    if a == b then 0
    else HeldTicks(s, steps, a, b - 1) + HeldAfter(steps[b - 1], At(s, steps, b))
  }

  function HeldAfter(step: Step, t: CoreState): nat {
    if step.TickStep? && t.hookedPlayer != -1 then 1 else 0
  }

  // Where a hook launched with clock h stands after n ticks of holding.
  predicate Holding(t: CoreState, h: int, n: nat) {
    && HookedGrabs(t)
    && (t.hookState == HOOK_FLYING ==> t.hookTick == h && n == 0)
    && (t.hookedPlayer != -1 ==> t.hookTick == h + n && n > 0)
    && (n > 0 ==> n <= 60 - h)
  }

  lemma HoldingLaunch(s: CoreState, step: Step)
    requires HookedGrabs(s) && step.TickStep? && Launches(s, step.inp)
    ensures Holding(Stepped(s, step), step.inp.launchTick, HeldAfter(step, Stepped(s, step)))
  {
    var inp, env := step.inp, step.env;
    TickedGrabs(s, inp, env);
    AfterInputFlying(s, inp);
    TickedClock(s, inp, env);
    TickedTarget(s, inp, env);
    hide Ticked, AfterInput;
  }

  lemma HoldingStep(s: CoreState, step: Step, h: int, n: nat)
    requires Holding(s, h, n) && (step.TickStep? ==> !Launches(s, step.inp))
    ensures Holding(Stepped(s, step), h, n + HeldAfter(step, Stepped(s, step)))
  {
    if step.TickStep? {
      var inp, env := step.inp, step.env;
      TickedGrabs(s, inp, env);
      if AfterInput(s, inp).hookState == HOOK_FLYING {
        AfterInputFlying(s, inp);
      }
      TickedClock(s, inp, env);
      TickedTarget(s, inp, env);
    }
    hide Ticked, AfterInput;
  }

  lemma {:induction false} HoldingRun(s: CoreState, steps: seq<Step>, i: nat, j: nat)
    requires Inv(s) && i < j <= |steps| && LaunchesAt(s, steps, i)
    requires forall k :: i < k < j ==> !LaunchesAt(s, steps, k)
    ensures Holding(At(s, steps, j), steps[i].inp.launchTick, HeldTicks(s, steps, i, j))
    decreases j
  {
    hide Stepped, Launches, HeldAfter, Holding;
    var before, step := At(s, steps, j - 1), steps[j - 1];
    RunKeeps(s, steps, j - 1);
    if j - 1 == i {
      assert HeldTicks(s, steps, i, i) == 0;
      HoldingLaunch(before, step);
    } else {
      HoldingRun(s, steps, i, j - 1);
      assert !LaunchesAt(s, steps, j - 1);
      HoldingStep(before, step, steps[i].inp.launchTick, HeldTicks(s, steps, i, j - 1));
    }
  }

  /** A hook launched with clock h holds players for at most max(0, 60 - h) ticks until the next launch. */
  lemma HeldAtMost(s: CoreState, steps: seq<Step>, i: nat, j: nat)
    requires Inv(s) && i < j <= |steps| && LaunchesAt(s, steps, i)
    requires forall k :: i < k < j ==> !LaunchesAt(s, steps, k)
    ensures var left := 60 - steps[i].inp.launchTick;
      HeldTicks(s, steps, i, j) <= if left > 0 then left else 0
  {
    HoldingRun(s, steps, i, j);
  }

  // ---------------------------------------------------------------- jumps

  predicate JumpsAt(s: CoreState, steps: seq<Step>, k: nat)
    requires k < |steps|
  {
    steps[k].TickStep? && Jumps(At(s, steps, k), steps[k].inp)
  }

  predicate AirJumpsAt(s: CoreState, steps: seq<Step>, k: nat)
    requires k < |steps|
  {
    steps[k].TickStep? && AirJumps(At(s, steps, k), steps[k].inp)
  }

  // The key is read and it is up.
  predicate LetsUp(step: Step) {
    step.TickStep? && step.inp.useInput && !step.inp.jump
  }

  predicate Grounds(step: Step) {
    match step
    case TickStep(inp, _) => inp.grounded
    case DeferStep(_) => false
    case MoveStep(grounded) => grounded
  }

  lemma MovedHeld(s: CoreState, grounded: bool)
    ensures Held(s) <==> Held(Moved(s, grounded))
    ensures Spent(s) && !grounded ==> Spent(Moved(s, grounded))
  {
  }

  lemma StepHeld(s: CoreState, step: Step)
    requires !LetsUp(step) && (Held(s) || (step.TickStep? && Jumps(s, step.inp)))
    ensures Held(Stepped(s, step))
  {
    if step.TickStep? {
      TickedHeld(s, step.inp, step.env);
    } else if step.MoveStep? {
      MovedHeld(s, step.grounded);
    }
    hide Ticked, Held, Jumps, Moved;
  }

  lemma StepSpent(s: CoreState, step: Step)
    requires (Spent(s) && !Grounds(step)) || (step.TickStep? && AirJumps(s, step.inp))
    ensures Spent(Stepped(s, step))
  {
    if step.TickStep? {
      TickedSpent(s, step.inp, step.env);
    } else if step.MoveStep? {
      MovedHeld(s, step.grounded);
    }
    hide Ticked, Spent, AirJumps, Moved;
  }

  // A jump is made with the key down.
  lemma JumpKeyDown(s: CoreState, inp: TickInput)
    requires Jumps(s, inp)
    ensures inp.useInput && inp.jump
  {
  }

  lemma {:induction false} StaysHeld(s: CoreState, steps: seq<Step>, i: nat, j: nat)
    requires i < j <= |steps| && JumpsAt(s, steps, i)
    requires forall k :: i < k < j ==> !LetsUp(steps[k])
    ensures Held(At(s, steps, j))
  {
    hide Stepped, Held, Jumps;
    if j - 1 > i {
      StaysHeld(s, steps, i, j - 1);
    } else {
      JumpKeyDown(At(s, steps, i), steps[i].inp);
    }
    StepHeld(At(s, steps, j - 1), steps[j - 1]);
  }

  /** Between two jumps the jump key was let up. */
  lemma JumpsSeparated(s: CoreState, steps: seq<Step>, i: nat, j: nat)
    requires i < j < |steps|
    ensures JumpsAt(s, steps, i) && JumpsAt(s, steps, j) ==> exists k :: i < k < j && LetsUp(steps[k])
  {
    if JumpsAt(s, steps, i) && JumpsAt(s, steps, j) && forall k :: i < k < j ==> !LetsUp(steps[k]) {
      StaysHeld(s, steps, i, j);
      TickedHeld(At(s, steps, j), steps[j].inp, steps[j].env);
      hide Ticked, Held, Jumps;
    }
  }

  lemma {:induction false} StaysSpent(s: CoreState, steps: seq<Step>, i: nat, j: nat)
    requires i < j <= |steps| && AirJumpsAt(s, steps, i)
    requires forall k :: i < k < j ==> !Grounds(steps[k])
    ensures Spent(At(s, steps, j))
  {
    hide Stepped, Spent, AirJumps;
    if j - 1 > i {
      StaysSpent(s, steps, i, j - 1);
    }
    StepSpent(At(s, steps, j - 1), steps[j - 1]);
  }

  /** Between two air jumps the tee touched the ground, in Tick or in Move. */
  lemma AirJumpsSeparated(s: CoreState, steps: seq<Step>, i: nat, j: nat)
    requires i < j < |steps|
    ensures AirJumpsAt(s, steps, i) && AirJumpsAt(s, steps, j) ==> exists k :: i < k < j && Grounds(steps[k])
  {
    if AirJumpsAt(s, steps, i) && AirJumpsAt(s, steps, j) && forall k :: i < k < j ==> !Grounds(steps[k]) {
      StaysSpent(s, steps, i, j);
      TickedSpent(At(s, steps, j), steps[j].inp, steps[j].env);
      hide Ticked, Spent, AirJumps;
    }
  }
}
