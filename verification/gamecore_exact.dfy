/**
 * What one tick of src/game/gamecore.cpp does to the hook and to the jumps, case by case, in terms
 * of the state before it, the keys and what the hook meets; and what follows for runs.
 */
module GameCoreExact {
  import opened GameCore
  import opened GameCoreRun

  // ---------------------------------------------------------------- the hook in flight

  // The hook flies once the keys are read: it flew already, or it is launched.
  predicate Flying(s: CoreState, inp: TickInput) {
    if inp.useInput then inp.hook && (s.hookState == HOOK_IDLE || s.hookState == HOOK_FLYING)
    else s.hookState == HOOK_FLYING
  }

  // The hook clock of this flight.
  function Clock(s: CoreState, inp: TickInput): int {
    if inp.useInput && s.hookState == HOOK_IDLE then inp.launchTick else s.hookTick
  }

  // Some player can be caught, and players are looked at.
  predicate CanCatch(s: CoreState, inp: TickInput, env: Env) {
    && inp.playerHooking && env.world && (!inp.tooFar || !s.newHook)
    && exists i: nat :: i < |inp.slots| && i in env.present && i != env.id && inp.slots[i].near
  }

  lemma FlyingKeys(s: CoreState, inp: TickInput)
    requires HookedGrabs(s) && Flying(s, inp)
    ensures var k := AfterGround(AfterInput(s, inp), inp.grounded);
      && k.hookState == HOOK_FLYING && k.hookedPlayer == -1 && k.hookTick == Clock(s, inp) && k.newHook == s.newHook
      && k.events == AfterInput(s, inp).events
  {
  }

  // Whether the tick holds a player that the hook has at the given clock.
  predicate Holds(player: int, clock: int, inp: TickInput, env: Env) {
    clock < 60 && (env.world ==> player in env.present && env.id != -1 && player in inp.keep)
  }

  lemma HoldExactly(s: CoreState, inp: TickInput, env: Env)
    requires s.hookState == HOOK_GRABBED && s.hookedPlayer != -1
    ensures var t := AfterGrab(s, inp, env);
      && t.events == s.events && t.newHook == s.newHook
      && if Holds(s.hookedPlayer, s.hookTick, inp, env)
        then t.hookState == HOOK_GRABBED && t.hookedPlayer == s.hookedPlayer && t.hookTick == s.hookTick + 1
        else t.hookState == HOOK_RETRACTED && t.hookedPlayer == -1
  {
  }

  lemma GroundHoldExactly(s: CoreState, inp: TickInput, env: Env)
    requires s.hookState == HOOK_GRABBED && s.hookedPlayer == -1
    ensures AfterGrab(s, inp, env) == s.(hookTick := s.hookTick + 1)
  {
  }

  lemma FlightCatches(k: CoreState, inp: TickInput, env: Env)
    requires k.hookState == HOOK_FLYING && k.hookedPlayer == -1
    ensures CanCatch(k, inp, env) ==>
      var t := AfterHook(k, inp, env);
      && IsNearest(t.hookedPlayer, inp, env)
      && t == k.(hookState := HOOK_GRABBED, hookedPlayer := t.hookedPlayer, events := k.events + {HookAttachPlayer})
    ensures !CanCatch(k, inp, env) ==> AfterPlayers(AfterFar(k, inp), inp, env) == AfterFar(k, inp)
  {
    hide CatchUpTo;
    CatchesNearest(inp, env, |inp.slots|);
    if CanCatch(k, inp, env) {
      var i: nat :| i < |inp.slots| && i in env.present && i != env.id && inp.slots[i].near;
      assert Hookable(inp, env, i);
    }
  }

  /** A hook in flight that can catch players catches the nearest, and holds it or lets it go. */
  lemma TickedCatches(s: CoreState, inp: TickInput, env: Env)
    requires HookedGrabs(s) && Flying(s, inp) && CanCatch(s, inp, env)
    ensures var t := Ticked(s, inp, env);
      exists p :: IsNearest(p, inp, env)
        && t.events == AfterInput(s, inp).events + {HookAttachPlayer}
        && t.newHook == (s.newHook && !inp.deferred)
        && if Holds(p, Clock(s, inp), inp, env)
          then t.hookState == HOOK_GRABBED && t.hookedPlayer == p
          else t.hookState == HOOK_RETRACTED && t.hookedPlayer == -1
  {
    hide AfterInput, AfterHook, AfterGrab, IsNearest, Hookable;
    var k := AfterGround(AfterInput(s, inp), inp.grounded);
    FlyingKeys(s, inp);
    FlightCatches(k, inp, env);
    var h := AfterHook(k, inp, env);
    NearestIsSomeone(h.hookedPlayer, inp, env);
    HoldExactly(h, inp, env);
  }

  lemma NearestIsSomeone(p: int, inp: TickInput, env: Env)
    requires IsNearest(p, inp, env)
    ensures p != -1 && env.world
  {
  }

  /**
   * What a hook in flight does that catches nobody: beyond its length it retracts whatever it met;
   * else a teleporter sends it on, a solid tile holds it, a tile that refuses it sends it back, and
   * in the open it flies on.
   */
  lemma TickedFlight(s: CoreState, inp: TickInput, env: Env)
    requires HookedGrabs(s) && Flying(s, inp) && !CanCatch(s, inp, env)
    ensures var t, keys := Ticked(s, inp, env), AfterInput(s, inp).events;
      && t.hookedPlayer == -1
      && if inp.tooFar then
          && t.hookState == HOOK_RETRACT_START && t.events == keys
          && t.newHook == (s.newHook && !(inp.deferred && env.world))
        else match inp.hit
          case HitSolid =>
            && t.hookState == HOOK_GRABBED && t.hookTick == Clock(s, inp) + 1
            && t.events == keys + {HookAttachGround}
            && t.newHook == (s.newHook && !(inp.deferred && env.world))
          case HitNoHook =>
            && t.hookState == HOOK_RETRACT_START && t.events == keys + {HookHitNoHook}
            && t.newHook == (s.newHook && !(inp.deferred && env.world))
          case HitTeleIn =>
            && t.hookState == HOOK_FLYING && t.hookTick == Clock(s, inp)
            && (if env.world && inp.teleHasOuts then t.newHook && t.events == {}
                else t.newHook == s.newHook && t.events == keys)
          case HitNothing =>
            && t.hookState == HOOK_FLYING && t.hookTick == Clock(s, inp)
            && t.newHook == s.newHook && t.events == keys
  {
    hide AfterInput, AfterPlayers;
    var k := AfterGround(AfterInput(s, inp), inp.grounded);
    FlyingKeys(s, inp);
    FlightCatches(k, inp, env);
  }

  // ---------------------------------------------------------------- the hook at rest, grabbing or retracting

  // The key is read and it is up.
  predicate KeyUp(inp: TickInput) {
    inp.useInput && !inp.hook
  }

  lemma RestingKeys(s: CoreState, inp: TickInput)
    requires !KeyUp(inp) && !Flying(s, inp)
    ensures var k := AfterGround(AfterInput(s, inp), inp.grounded);
      && k.hookState == s.hookState && k.hookedPlayer == s.hookedPlayer && k.hookTick == s.hookTick
      && k.events == AfterInput(s, inp).events
  {
  }

  // A retracting hook moves on by one state, with an event when it is back.
  function RetractNext(hookState: int): int {
    if HOOK_RETRACT_START <= hookState < HOOK_RETRACT_END then hookState + 1 else HOOK_RETRACTED
  }

  /**
   * What a hook that does not fly does while the key stays down: a player is held as long as it may
   * be and for 60 on the clock, the ground is held for good, and retracting goes on to its end.
   */
  lemma TickedResting(s: CoreState, inp: TickInput, env: Env)
    requires HookedGrabs(s) && !KeyUp(inp) && !Flying(s, inp)
    ensures var t, keys := Ticked(s, inp, env), AfterInput(s, inp).events;
      if s.hookState == HOOK_GRABBED then
        if s.hookedPlayer == -1 then
          t.hookState == HOOK_GRABBED && t.hookedPlayer == -1 && t.hookTick == s.hookTick + 1 && t.events == keys
        else if Holds(s.hookedPlayer, s.hookTick, inp, env) then
          t.hookState == HOOK_GRABBED && t.hookedPlayer == s.hookedPlayer && t.hookTick == s.hookTick + 1
        else t.hookState == HOOK_RETRACTED && t.hookedPlayer == -1
      else if HOOK_RETRACT_START <= s.hookState <= HOOK_RETRACT_END then
        && t.hookState == RetractNext(s.hookState)
        && t.events == if s.hookState == HOOK_RETRACT_END then keys + {HookRetract} else keys
      else t.hookState == s.hookState && t.events == keys
  {
    hide AfterInput, AfterFlight, AfterGrab;
    var k := AfterGround(AfterInput(s, inp), inp.grounded);
    RestingKeys(s, inp);
    if s.hookState == HOOK_GRABBED {
      if s.hookedPlayer == -1 {
        GroundHoldExactly(k, inp, env);
      } else {
        HoldExactly(k, inp, env);
      }
    } else {
      NotGrabbing(AfterHook(k, inp, env), inp, env);
    }
  }

  lemma NotGrabbing(s: CoreState, inp: TickInput, env: Env)
    requires s.hookState != HOOK_GRABBED
    ensures AfterGrab(s, inp, env) == s
  {
  }

  /** Letting the key go ends everything. */
  lemma TickedKeyUp(s: CoreState, inp: TickInput, env: Env)
    requires KeyUp(inp)
    ensures Ticked(s, inp, env).hookState == HOOK_IDLE && Ticked(s, inp, env).hookedPlayer == -1
  {
    hide AfterFlight;
  }

  // ---------------------------------------------------------------- the hook over runs

  // Step k is a tick in which the hook flies and a solid tile stops it.
  predicate StoppedAt(s: CoreState, steps: seq<Step>, k: nat)
    requires k < |steps|
  {
    && steps[k].TickStep? && Flying(At(s, steps, k), steps[k].inp)
    && !steps[k].inp.tooFar && steps[k].inp.hit == HitSolid
  }

  predicate GrabsGround(s: CoreState) {
    s.hookState == HOOK_GRABBED && s.hookedPlayer == -1
  }

  lemma GroundGrabbed(s: CoreState, step: Step)
    requires HookedGrabs(s) && GrabsGround(Stepped(s, step)) && !GrabsGround(s)
    ensures step.TickStep? && Flying(s, step.inp) && !step.inp.tooFar && step.inp.hit == HitSolid
  {
    if step.TickStep? {
      var inp, env := step.inp, step.env;
      if KeyUp(inp) {
        TickedKeyUp(s, inp, env);
      } else if !Flying(s, inp) {
        TickedResting(s, inp, env);
      } else if CanCatch(s, inp, env) {
        TickedCatches(s, inp, env);
        hide Holds;
        NearestsAreSomeone(inp, env);
      } else {
        TickedFlight(s, inp, env);
      }
      hide Ticked, CanCatch;
    }
  }

  lemma NearestsAreSomeone(inp: TickInput, env: Env)
    ensures forall p :: IsNearest(p, inp, env) ==> p != -1
  {
  }

  /**
   * In every run from Reset, a grabbing hook without a player was stopped by a solid tile in the
   * last tick in which it flew, and has held on to it since.
   */
  lemma {:induction false} GroundWasHit(steps: seq<Step>, k: nat) returns (j: nat)
    requires k <= |steps| && GrabsGround(At(ResetState(), steps, k))
    ensures j < k && StoppedAt(ResetState(), steps, j)
    ensures forall l :: j < l <= k ==> GrabsGround(At(ResetState(), steps, l))
  {
    hide Stepped, Flying;
    var s := ResetState();
    RunKeeps(s, steps, k - 1);
    if GrabsGround(At(s, steps, k - 1)) {
      j := GroundWasHit(steps, k - 1);
    } else {
      j := k - 1;
      GroundGrabbed(At(s, steps, k - 1), steps[k - 1]);
    }
  }

  /** A hook that begins to retract is back after three more ticks with the key down, and reports it. */
  lemma RetractsInThree(s: CoreState, one: Step, two: Step, three: Step)
    requires s.hookState == HOOK_RETRACT_START && HookedGrabs(s)
    requires one.TickStep? && two.TickStep? && three.TickStep?
    requires !LetsGo(one) && !LetsGo(two) && !LetsGo(three)
    ensures var t := Stepped(Stepped(Stepped(s, one), two), three);
      t.hookState == HOOK_RETRACTED && (HookRetract in t.events)
    ensures Stepped(Stepped(s, one), two).hookState == HOOK_RETRACT_END
  {
    hide Ticked;
    TickedResting(s, one.inp, one.env);
    TickedGrabs(s, one.inp, one.env);
    var t := Stepped(s, one);
    TickedResting(t, two.inp, two.env);
    TickedGrabs(t, two.inp, two.env);
    TickedResting(Stepped(t, two), three.inp, three.env);
  }

  // ---------------------------------------------------------------- jumps

  lemma BitsExactly(j: bv8)
    ensures !Has(Without(j, JUMP_HELD), JUMP_HELD) && !Has(Without(j, JUMPS_SPENT), JUMPS_SPENT)
    ensures Has(With(j, JUMP_HELD), JUMPS_SPENT) == Has(j, JUMPS_SPENT)
  {
  }

  // A press of the jump key, and what it does.
  predicate Presses(s: CoreState, inp: TickInput) {
    inp.useInput && inp.jump && !Held(s)
  }

  predicate JumpsFromGround(s: CoreState, inp: TickInput) {
    Presses(s, inp) && inp.grounded && (!Spent(s) || s.jumps != 0)
  }

  predicate JumpsInAir(s: CoreState, inp: TickInput) {
    Presses(s, inp) && !inp.grounded && !Spent(s)
  }

  // What the jump key does, before the hook key is looked at.
  predicate JumpKeyDoes(s: CoreState, inp: TickInput, k: CoreState) {
    && (GroundJump in k.events <==> JumpsFromGround(s, inp))
    && (AirJump in k.events <==> JumpsInAir(s, inp))
    && (Held(k) <==> if inp.useInput then inp.jump && (Held(s) || JumpsFromGround(s, inp) || JumpsInAir(s, inp))
        else Held(s))
    && (!inp.grounded ==> (Spent(k) <==> Spent(s) || JumpsInAir(s, inp)))
    && k.jumps == s.jumps
    && (!inp.grounded ==> k.jumpedTotal == s.jumpedTotal + if JumpsInAir(s, inp) then 1 else 0)
  }

  lemma JumpKeyExactly(s: CoreState, inp: TickInput)
    ensures JumpKeyDoes(s, inp, AfterJump(s.(events := {}), inp))
  {
    BitLaws(s.jumped);
    BitsExactly(s.jumped);
    SpentStays(s.jumped);
    hide Has, With, Without;
  }

  lemma HookKeyKeeps(s: CoreState, inp: TickInput)
    ensures var k := AfterHookKey(s, inp);
      && k.jumped == s.jumped && k.jumpedTotal == s.jumpedTotal && k.jumps == s.jumps
      && (GroundJump in k.events <==> GroundJump in s.events) && (AirJump in k.events <==> AirJump in s.events)
  {
  }

  lemma KeysExactly(s: CoreState, inp: TickInput)
    ensures JumpKeyDoes(s, inp, AfterInput(s, inp))
  {
    JumpKeyExactly(s, inp);
    HookKeyKeeps(AfterJump(s.(events := {}), inp), inp);
    hide AfterJump, AfterHookKey, Has, JumpsInAir, JumpsFromGround;
  }

  /**
   * When a tick jumps and what it leaves: one jump a press, from the ground unless the jumps are
   * spent and there are none, from the air unless they are spent; the ground gives them back.
   */
  lemma JumpsExactly(s: CoreState, inp: TickInput)
    ensures var k := AfterGround(AfterInput(s, inp), inp.grounded);
      && (GroundJump in AfterInput(s, inp).events <==> JumpsFromGround(s, inp))
      && (AirJump in AfterInput(s, inp).events <==> JumpsInAir(s, inp))
      && (Held(k) <==> if inp.useInput then inp.jump && (Held(s) || JumpsFromGround(s, inp) || JumpsInAir(s, inp))
          else Held(s))
      && (Spent(k) <==> !inp.grounded && (Spent(s) || JumpsInAir(s, inp)))
      && k.jumpedTotal == (if inp.grounded then 0 else s.jumpedTotal + if JumpsInAir(s, inp) then 1 else 0)
      && k.jumps == s.jumps
  {
    KeysExactly(s, inp);
    BitLaws(AfterInput(s, inp).jumped);
    BitsExactly(AfterInput(s, inp).jumped);
    hide Has, Without, AfterInput, JumpsInAir, JumpsFromGround;
  }

  /** The ground gives the air jump back in Move too, and changes nothing else. */
  lemma MovedExactly(s: CoreState, grounded: bool)
    ensures var t := Moved(s, grounded);
      && (Held(t) <==> Held(s)) && (Spent(t) <==> Spent(s) && !grounded)
      && t.jumpedTotal == (if grounded then 0 else s.jumpedTotal)
      && t == s.(jumped := t.jumped, jumpedTotal := t.jumpedTotal)
  {
    BitLaws(s.jumped);
    BitsExactly(s.jumped);
    hide Has, Without;
  }

  // The air jumps since the tee last touched the ground.
  function AirJumpsSince(s: CoreState, steps: seq<Step>, k: nat): nat
    requires k <= |steps|
  {
    if k == 0 then 0
    else if Grounds(steps[k - 1]) then 0
    else AirJumpsSince(s, steps, k - 1) + if AirJumpsAt(s, steps, k - 1) then 1 else 0
  }

  lemma StepTotal(s: CoreState, step: Step)
    ensures Stepped(s, step).jumpedTotal ==
      if Grounds(step) then 0 else s.jumpedTotal + if step.TickStep? && AirJumps(s, step.inp) then 1 else 0
  {
    match step
    case TickStep(inp, env) =>
      TickedTotal(s, inp, env);
      JumpsExactly(s, inp);
      hide Ticked, AfterInput, Has, JumpsInAir;
    case DeferStep(_) =>
    case MoveStep(grounded) => MovedExactly(s, grounded);
  }

  lemma TickedTotal(s: CoreState, inp: TickInput, env: Env)
    ensures Ticked(s, inp, env).jumpedTotal == AfterGround(AfterInput(s, inp), inp.grounded).jumpedTotal
    ensures Ticked(s, inp, env).jumps == AfterGround(AfterInput(s, inp), inp.grounded).jumps
  {
    AfterHookTotal(AfterGround(AfterInput(s, inp), inp.grounded), inp, env);
    hide AfterInput, AfterHook;
  }

  lemma AfterHookTotal(s: CoreState, inp: TickInput, env: Env)
    ensures AfterHook(s, inp, env).jumpedTotal == s.jumpedTotal && AfterHook(s, inp, env).jumps == s.jumps
  {
    hide CatchUpTo;
  }

  /** In every run from Reset, m_JumpedTotal counts the air jumps since the ground was last touched. */
  lemma {:induction false} TotalCounts(steps: seq<Step>, k: nat)
    requires k <= |steps|
    ensures At(ResetState(), steps, k).jumpedTotal == AirJumpsSince(ResetState(), steps, k)
  {
    if k > 0 {
      hide Stepped, AirJumps;
      TotalCounts(steps, k - 1);
      StepTotal(At(ResetState(), steps, k - 1), steps[k - 1]);
    }
  }

  /**
   * After Reset the hook flies in the next tick exactly if its key is pressed, on the clock of that
   * tick, and a jump key jumps, from the ground or from the air.
   */
  lemma FreshCore(inp: TickInput)
    ensures Flying(ResetState(), inp) <==> inp.useInput && inp.hook
    ensures inp.useInput ==> Clock(ResetState(), inp) == inp.launchTick
    ensures JumpsFromGround(ResetState(), inp) <==> inp.useInput && inp.jump && inp.grounded
    ensures JumpsInAir(ResetState(), inp) <==> inp.useInput && inp.jump && !inp.grounded
    ensures var s := ResetState();
      && s.hookedPlayer == -1 && s.hookTick == 0 && !s.newHook && s.jumpedTotal == 0 && s.jumps == 2 && s.events == {}
  {
  }
}
