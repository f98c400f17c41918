/**
 * The hook and the jump of a tee, as CCharacterCore::Tick and CCharacterCore::Move of
 * src/game/gamecore.cpp drive them. Positions and velocities are not part of the state: what they
 * decide (what the hook line meets, who is near it, whether the tee stands) comes with each step.
 */
module GameCore {

  const HOOK_RETRACTED: int := -1
  const HOOK_IDLE: int := 0
  const HOOK_RETRACT_START: int := 1
  const HOOK_RETRACT_END: int := 3
  const HOOK_FLYING: int := 4
  const HOOK_GRABBED: int := 5

  // SERVER_TICK_SPEED + SERVER_TICK_SPEED / 5
  const HOOK_TICK_LIMIT: int := 60

  // The bits of m_Jumped.
  const JUMP_HELD: bv8 := 1
  const JUMPS_SPENT: bv8 := 2

  predicate Has(bits: bv8, mask: bv8) {
    bits & mask != 0
  }

  function With(bits: bv8, mask: bv8): bv8 {
    bits | mask
  }

  function Without(bits: bv8, mask: bv8): bv8 {
    bits & !mask
  }

  datatype CoreEvent =
    GroundJump | AirJump | HookLaunch | HookAttachPlayer | HookAttachGround | HookHitNoHook | HookRetract

  datatype CoreState = CoreState(
    hookState: int,
    hookedPlayer: int,
    hookTick: int,
    newHook: bool,
    jumped: bv8,
    jumpedTotal: int,
    jumps: int,
    events: set<CoreEvent>
  )

  // What the hook line meets in this tick.
  datatype LineHit = HitNothing | HitNoHook | HitTeleIn | HitSolid

  // How a player stands to the hook line: whether it can be caught, and how far it is.
  datatype Slot = Slot(near: bool, distance: real)

  datatype TickInput = TickInput(
    useInput: bool,
    hook: bool,
    jump: bool,
    deferred: bool,
    grounded: bool,
    tooFar: bool,
    hit: LineHit,
    teleHasOuts: bool,
    playerHooking: bool,
    slots: seq<Slot>,
    keep: set<int>,
    launchTick: int
  )

  // Where a core lives: whether it has a world, its number there, the numbers in use.
  datatype Env = Env(world: bool, id: int, present: set<int>)

  function ResetState(): CoreState {
    CoreState(HOOK_IDLE, -1, 0, false, 0, 0, 2, {})
  }

  // ---------------------------------------------------------------- the phases of a tick

  function AfterJump(s: CoreState, inp: TickInput): CoreState {
    if !inp.useInput then s
    else if !inp.jump then s.(jumped := Without(s.jumped, JUMP_HELD))
    else if Has(s.jumped, JUMP_HELD) then s
    else if inp.grounded && (!Has(s.jumped, JUMPS_SPENT) || s.jumps != 0) then
      s.(jumped := With(s.jumped, if s.jumps > 1 then JUMP_HELD else JUMP_HELD | JUMPS_SPENT),
         jumpedTotal := 0,
         events := s.events + {GroundJump})
    else if !Has(s.jumped, JUMPS_SPENT) then
      s.(jumped := With(s.jumped, JUMP_HELD | JUMPS_SPENT),
         jumpedTotal := s.jumpedTotal + 1,
         events := s.events + {AirJump})
    else s
  }

  function AfterHookKey(s: CoreState, inp: TickInput): CoreState {
    if !inp.useInput then s
    else if !inp.hook then s.(hookedPlayer := -1, hookState := HOOK_IDLE)
    else if s.hookState == HOOK_IDLE then
      s.(hookState := HOOK_FLYING, hookedPlayer := -1, hookTick := inp.launchTick,
         events := s.events + {HookLaunch})
    else s
  }

  // The end of the input handling: the events of this tick are those of the keys.
  function AfterInput(s: CoreState, inp: TickInput): CoreState {
    AfterHookKey(AfterJump(s.(events := {}), inp), inp)
  }

  function AfterGround(s: CoreState, grounded: bool): CoreState {
    if grounded then s.(jumped := Without(s.jumped, JUMPS_SPENT), jumpedTotal := 0) else s
  }

  // The player caught so far, and its distance.
  datatype Catch = Catch(caught: bool, player: int, distance: real)

  predicate Hookable(inp: TickInput, env: Env, i: nat)
    requires i < |inp.slots|
  {
    i in env.present && i != env.id && inp.slots[i].near
  }

  function CatchAt(c: Catch, inp: TickInput, env: Env, i: nat): Catch
    requires i < |inp.slots|
  {
    if Hookable(inp, env, i) && (c.player == -1 || inp.slots[i].distance < c.distance)
    then Catch(true, i, inp.slots[i].distance)
    else c
  }

  // The scan over the first n numbers.
  function CatchUpTo(hooked: int, inp: TickInput, env: Env, n: nat): Catch
    requires n <= |inp.slots|
  {
    if n == 0 then Catch(false, hooked, 0.0) else CatchAt(CatchUpTo(hooked, inp, env, n - 1), inp, env, n - 1)
  }

  function AfterFar(s: CoreState, inp: TickInput): CoreState {
    if inp.tooFar then s.(hookState := HOOK_RETRACT_START) else s
  }

  // Whether other players are looked at.
  predicate LooksForPlayers(s: CoreState, inp: TickInput, env: Env) {
    inp.playerHooking && env.world && (s.hookState == HOOK_FLYING || !s.newHook)
  }

  function AfterPlayers(s: CoreState, inp: TickInput, env: Env): CoreState {
    if LooksForPlayers(s, inp, env) then Caught(s, CatchUpTo(s.hookedPlayer, inp, env, |inp.slots|)) else s
  }

  function Caught(s: CoreState, c: Catch): CoreState {
    if c.caught
    then s.(hookState := HOOK_GRABBED, hookedPlayer := c.player, events := s.events + {HookAttachPlayer})
    else s
  }

  predicate Teleports(inp: TickInput, env: Env) {
    inp.hit == HitTeleIn && env.world && inp.teleHasOuts
  }

  function AfterLine(s: CoreState, inp: TickInput, env: Env): CoreState {
    if s.hookState != HOOK_FLYING then s
    else if Teleports(inp, env) then s.(events := {}, hookedPlayer := -1, newHook := true)
    else if inp.hit == HitSolid then
      s.(hookState := HOOK_GRABBED, events := s.events + {HookAttachGround})
    else if inp.hit == HitNoHook then
      s.(hookState := HOOK_RETRACT_START, events := s.events + {HookHitNoHook})
    else s
  }

  function AfterFlight(s: CoreState, inp: TickInput, env: Env): CoreState {
    AfterLine(AfterPlayers(AfterFar(s, inp), inp, env), inp, env)
  }

  function AfterHook(s: CoreState, inp: TickInput, env: Env): CoreState {
    if s.hookState == HOOK_IDLE then s.(hookedPlayer := -1)
    else if HOOK_RETRACT_START <= s.hookState < HOOK_RETRACT_END then s.(hookState := s.hookState + 1)
    else if s.hookState == HOOK_RETRACT_END then
      s.(hookState := HOOK_RETRACTED, events := s.events + {HookRetract})
    else if s.hookState == HOOK_FLYING then AfterFlight(s, inp, env)
    else s
  }

  function Released(s: CoreState): CoreState {
    s.(hookedPlayer := -1, hookState := HOOK_RETRACTED)
  }

  predicate Keeps(player: int, inp: TickInput, env: Env) {
    player in env.present && env.id != -1 && player in inp.keep
  }

  function AfterKeep(s: CoreState, inp: TickInput, env: Env): CoreState {
    if s.hookedPlayer != -1 && env.world && !Keeps(s.hookedPlayer, inp, env) then Released(s) else s
  }

  function AfterHold(s: CoreState, env: Env): CoreState {
    var t := s.(hookTick := s.hookTick + 1);
    if t.hookedPlayer != -1 && (t.hookTick > HOOK_TICK_LIMIT || (env.world && t.hookedPlayer !in env.present))
    then Released(t)
    else t
  }

  function AfterGrab(s: CoreState, inp: TickInput, env: Env): CoreState {
    if s.hookState == HOOK_GRABBED then AfterHold(AfterKeep(s, inp, env), env) else s
  }

  /** One call of TickDeferred, as far as the hook is concerned. */
  function Deferred(s: CoreState, world: bool): CoreState {
    if world && s.hookState != HOOK_FLYING then s.(newHook := false) else s
  }

  function AfterDeferred(s: CoreState, inp: TickInput, env: Env): CoreState {
    if inp.deferred then Deferred(s, env.world) else s
  }

  /** One call of Tick. */
  function Ticked(s: CoreState, inp: TickInput, env: Env): CoreState {
    var keyed := AfterGround(AfterInput(s, inp), inp.grounded);
    AfterDeferred(AfterGrab(AfterHook(keyed, inp, env), inp, env), inp, env)
  }

  /** One call of Move, which finds out by itself whether the tee stands. */
  function Moved(s: CoreState, grounded: bool): CoreState {
    AfterGround(s, grounded)
  }

  // ---------------------------------------------------------------- who gets hooked

  /**
   * With no player hooked before, the scan takes a hookable player exactly when there is one: the
   * nearest, and of equally near ones the one with the lowest number.
   */
  ghost predicate NearestUpTo(c: Catch, inp: TickInput, env: Env, n: nat)
    requires n <= |inp.slots|
  {
    && (c.caught <==> c.player != -1)
    && (c.player == -1 ==> forall i: nat :: i < n ==> !Hookable(inp, env, i))
    && (c.player != -1 ==>
      && 0 <= c.player < n && Hookable(inp, env, c.player)
      && c.distance == inp.slots[c.player].distance
      && (forall i: nat :: i < n && Hookable(inp, env, i) ==>
        if i < c.player then c.distance < inp.slots[i].distance else c.distance <= inp.slots[i].distance))
  }

  lemma {:induction false} CatchesNearest(inp: TickInput, env: Env, n: nat)
    requires n <= |inp.slots|
    ensures NearestUpTo(CatchUpTo(-1, inp, env, n), inp, env, n)
  {
    if n > 0 {
      CatchesNearest(inp, env, n - 1);
    }
  }

  // ---------------------------------------------------------------- one step

  /** Only a grabbing hook holds a player. */
  predicate HookedGrabs(s: CoreState) {
    s.hookedPlayer != -1 ==> s.hookState == HOOK_GRABBED
  }

  lemma AfterInputGrabs(s: CoreState, inp: TickInput)
    requires HookedGrabs(s)
    ensures HookedGrabs(AfterInput(s, inp))
  {
  }

  lemma AfterHookGrabs(s: CoreState, inp: TickInput, env: Env)
    requires HookedGrabs(s)
    ensures HookedGrabs(AfterHook(s, inp, env))
  {
    hide CatchUpTo;
  }

  lemma TickedGrabs(s: CoreState, inp: TickInput, env: Env)
    requires HookedGrabs(s)
    ensures HookedGrabs(Ticked(s, inp, env))
  {
    hide AfterInput, AfterHook;
    AfterInputGrabs(s, inp);
    AfterHookGrabs(AfterGround(AfterInput(s, inp), inp.grounded), inp, env);
  }

  /** After a tick in a world the hooked player is there, may be held, and is not held too long. */
  lemma TickedTarget(s: CoreState, inp: TickInput, env: Env)
    requires HookedGrabs(s)
    ensures var t := Ticked(s, inp, env);
      t.hookedPlayer != -1 ==>
        && t.hookTick <= 60
        && (env.world ==> t.hookedPlayer in env.present && env.id != -1 && t.hookedPlayer in inp.keep)
  {
    hide AfterInput, AfterHook;
    AfterInputGrabs(s, inp);
    AfterHookGrabs(AfterGround(AfterInput(s, inp), inp.grounded), inp, env);
  }

  /** The hook leaves: the transition, not the event bit. */
  predicate Launches(s: CoreState, inp: TickInput) {
    s.hookState == HOOK_IDLE && AfterInput(s, inp).hookState == HOOK_FLYING
  }

  predicate Jumps(s: CoreState, inp: TickInput) {
    GroundJump in AfterInput(s, inp).events || AirJump in AfterInput(s, inp).events
  }

  predicate AirJumps(s: CoreState, inp: TickInput) {
    AirJump in AfterInput(s, inp).events
  }

  lemma AfterInputFlying(s: CoreState, inp: TickInput)
    requires HookedGrabs(s) && AfterInput(s, inp).hookState == HOOK_FLYING
    ensures AfterInput(s, inp).hookedPlayer == -1
    ensures AfterInput(s, inp).hookTick == if Launches(s, inp) then inp.launchTick else s.hookTick
    ensures !Launches(s, inp) ==> s.hookState == HOOK_FLYING
  {
  }

  lemma AfterHookTick(s: CoreState, inp: TickInput, env: Env)
    requires HookedGrabs(s)
    ensures var t := AfterHook(s, inp, env);
      && t.hookTick == s.hookTick
      && (s.hookState != HOOK_FLYING ==> t.hookedPlayer in {-1, s.hookedPlayer} && t.hookState != HOOK_FLYING)
  {
    hide CatchUpTo;
  }

  lemma AfterHoldClock(s: CoreState, env: Env)
    requires s.hookState == HOOK_GRABBED
    ensures var t := AfterHold(s, env);
      && t.hookedPlayer in {-1, s.hookedPlayer} && t.hookTick == s.hookTick + 1 && t.hookState != HOOK_FLYING
  {
  }

  lemma AfterGrabClock(s: CoreState, inp: TickInput, env: Env)
    requires HookedGrabs(s)
    ensures var t := AfterDeferred(AfterGrab(s, inp, env), inp, env);
      && t.hookedPlayer in {-1, s.hookedPlayer}
      && (t.hookedPlayer != -1 ==> t.hookTick == s.hookTick + 1)
      && (t.hookState == HOOK_FLYING ==> s.hookState == HOOK_FLYING && t.hookTick == s.hookTick)
  {
    if s.hookState == HOOK_GRABBED {
      var kept := AfterKeep(s, inp, env);
      if kept.hookState == HOOK_GRABBED {
        AfterHoldClock(kept, env);
        hide AfterHold;
      }
    }
    hide Keeps;
  }

  lemma AfterInputNotFlying(s: CoreState, inp: TickInput)
    requires AfterInput(s, inp).hookState != HOOK_FLYING
    ensures var t := AfterInput(s, inp); t.hookTick == s.hookTick && t.hookedPlayer in {-1, s.hookedPlayer}
  {
  }

  /**
   * How a tick moves the hook clock: a hook in flight keeps it, a grab starts it, a held player
   * advances it, and no player gets held but by a hook in flight.
   */
  lemma TickedClock(s: CoreState, inp: TickInput, env: Env)
    requires HookedGrabs(s)
    ensures var t, flew := Ticked(s, inp, env), AfterInput(s, inp).hookState == HOOK_FLYING;
      && (t.hookedPlayer != -1 ==> flew || s.hookedPlayer != -1)
      && (t.hookState == HOOK_FLYING ==> flew && t.hookTick == AfterInput(s, inp).hookTick)
      && (t.hookedPlayer != -1 && flew ==> t.hookTick == AfterInput(s, inp).hookTick + 1)
      && (t.hookedPlayer != -1 && !flew ==> t.hookTick == s.hookTick + 1)
  {
    AfterInputGrabs(s, inp);
    if AfterInput(s, inp).hookState != HOOK_FLYING {
      AfterInputNotFlying(s, inp);
    }
    hide AfterInput, AfterHook;
    var keyed := AfterGround(AfterInput(s, inp), inp.grounded);
    AfterHookGrabs(keyed, inp, env);
    AfterHookTick(keyed, inp, env);
    AfterGrabClock(AfterHook(keyed, inp, env), inp, env);
    hide AfterGrab, AfterDeferred;
  }

  // Whether the flight of this tick goes through a teleporter.
  predicate FliesThroughTele(s: CoreState, inp: TickInput, env: Env) {
    var keyed := AfterGround(AfterInput(s, inp), inp.grounded);
    && keyed.hookState == HOOK_FLYING
    && AfterPlayers(AfterFar(keyed, inp), inp, env).hookState == HOOK_FLYING
    && Teleports(inp, env)
  }

  // The events that the keys cause.
  predicate FromKeys(e: CoreEvent) {
    e.HookLaunch? || e.GroundJump? || e.AirJump?
  }

  lemma CaughtEvents(s: CoreState, c: Catch, e: CoreEvent)
    requires FromKeys(e)
    ensures e in Caught(s, c).events <==> e in s.events
  {
  }

  lemma AfterPlayersEvents(s: CoreState, inp: TickInput, env: Env, e: CoreEvent)
    requires FromKeys(e)
    ensures e in AfterPlayers(AfterFar(s, inp), inp, env).events <==> e in s.events
  {
    hide CatchUpTo, Caught, LooksForPlayers, FromKeys;
    var far := AfterFar(s, inp);
    CaughtEvents(far, CatchUpTo(far.hookedPlayer, inp, env, |inp.slots|), e);
  }

  lemma AfterFlightEvents(s: CoreState, inp: TickInput, env: Env, e: CoreEvent)
    requires s.hookState == HOOK_FLYING && FromKeys(e)
    ensures var through := AfterPlayers(AfterFar(s, inp), inp, env).hookState == HOOK_FLYING && Teleports(inp, env);
      e in AfterFlight(s, inp, env).events <==> e in s.events && !through
  {
    AfterPlayersEvents(s, inp, env, e);
    hide AfterPlayers, AfterFar;
  }

  lemma AfterHookEvents(s: CoreState, inp: TickInput, env: Env, e: CoreEvent)
    requires FromKeys(e)
    ensures var through := s.hookState == HOOK_FLYING
        && AfterPlayers(AfterFar(s, inp), inp, env).hookState == HOOK_FLYING && Teleports(inp, env);
      e in AfterHook(s, inp, env).events <==> e in s.events && !through
  {
    hide AfterFlight, AfterPlayers;
    if s.hookState == HOOK_FLYING {
      AfterFlightEvents(s, inp, env, e);
    }
  }

  lemma TickedEvents(s: CoreState, inp: TickInput, env: Env)
    ensures Ticked(s, inp, env).events ==
      AfterHook(AfterGround(AfterInput(s, inp), inp.grounded), inp, env).events
  {
    hide AfterInput, AfterHook;
  }

  lemma LaunchEvent(s: CoreState, inp: TickInput)
    ensures HookLaunch in AfterInput(s, inp).events <==> Launches(s, inp)
  {
  }

  /**
   * A launch or a jump is reported after the tick exactly when it took place and the hook did not
   * fly through a teleporter in the same tick, which clears the events.
   */
  lemma EventReportedIff(s: CoreState, inp: TickInput, env: Env)
    ensures HookLaunch in Ticked(s, inp, env).events <==> Launches(s, inp) && !FliesThroughTele(s, inp, env)
    ensures AirJump in Ticked(s, inp, env).events <==> AirJumps(s, inp) && !FliesThroughTele(s, inp, env)
    ensures GroundJump in Ticked(s, inp, env).events <==>
      GroundJump in AfterInput(s, inp).events && !FliesThroughTele(s, inp, env)
  {
    hide AfterHook, AfterPlayers, AfterInput, Ticked, AfterFar, Launches;
    var keyed := AfterGround(AfterInput(s, inp), inp.grounded);
    TickedEvents(s, inp, env);
    LaunchEvent(s, inp);
    AfterHookEvents(keyed, inp, env, HookLaunch);
    AfterHookEvents(keyed, inp, env, AirJump);
    AfterHookEvents(keyed, inp, env, GroundJump);
  }

  /** A launch that no event reports. */
  lemma LaunchUnreported() returns (s: CoreState, inp: TickInput, env: Env)
    ensures s == ResetState() && Launches(s, inp) && HookLaunch !in Ticked(s, inp, env).events
  {
    s := ResetState();
    inp := TickInput(true, true, false, true, false, false, HitTeleIn, true, true, [], {}, 0);
    env := Env(true, 0, {0});
    EventReportedIff(s, inp, env);
  }

  lemma AfterPlayersNearest(s: CoreState, inp: TickInput, env: Env)
    requires s.hookedPlayer == -1 && s.hookState != HOOK_GRABBED
    ensures var t := AfterPlayers(s, inp, env);
      t.hookedPlayer != -1 ==> IsNearest(t.hookedPlayer, inp, env)
  {
    hide CatchUpTo;
    CatchesNearest(inp, env, |inp.slots|);
  }

  ghost predicate IsNearest(player: int, inp: TickInput, env: Env) {
    && env.world && inp.playerHooking
    && 0 <= player < |inp.slots| && player in env.present && player != env.id && inp.slots[player].near
    && forall i: nat :: i < |inp.slots| && i in env.present && i != env.id && inp.slots[i].near ==>
      && inp.slots[player].distance <= inp.slots[i].distance
      && (i < player ==> inp.slots[player].distance < inp.slots[i].distance)
  }

  lemma AfterHookNearest(s: CoreState, inp: TickInput, env: Env)
    requires HookedGrabs(s)
    ensures var t := AfterHook(s, inp, env);
      t.hookedPlayer in {-1, s.hookedPlayer} || IsNearest(t.hookedPlayer, inp, env)
  {
    if s.hookState == HOOK_FLYING {
      AfterPlayersNearest(AfterFar(s, inp), inp, env);
      hide AfterPlayers;
    } else {
      hide AfterFlight;
    }
  }

  /** Whoever gets hooked in a tick is the nearest player that the hook could catch. */
  lemma TickedHooksNearest(s: CoreState, inp: TickInput, env: Env)
    requires HookedGrabs(s)
    ensures var t := Ticked(s, inp, env);
      t.hookedPlayer in {-1, s.hookedPlayer} || IsNearest(t.hookedPlayer, inp, env)
  {
    hide AfterInput, AfterHook, IsNearest;
    AfterInputGrabs(s, inp);
    AfterInputHooked(s, inp);
    AfterHookNearest(AfterGround(AfterInput(s, inp), inp.grounded), inp, env);
  }

  lemma AfterInputHooked(s: CoreState, inp: TickInput)
    ensures AfterInput(s, inp).hookedPlayer in {-1, s.hookedPlayer}
  {
  }

  // ---------------------------------------------------------------- idle, held and spent over a tick

  lemma AfterHookIdle(s: CoreState, inp: TickInput, env: Env)
    ensures AfterHook(s, inp, env).hookState == HOOK_IDLE <==> s.hookState == HOOK_IDLE
  {
    hide CatchUpTo;
  }

  /** The hook is idle after a tick exactly when the key is up, or it was idle and no key was read. */
  lemma TickedIdle(s: CoreState, inp: TickInput, env: Env)
    ensures Ticked(s, inp, env).hookState == HOOK_IDLE <==>
      if inp.useInput then !inp.hook else s.hookState == HOOK_IDLE
  {
    AfterHookIdle(AfterGround(AfterInput(s, inp), inp.grounded), inp, env);
    hide AfterHook;
  }

  lemma AfterHookJumped(s: CoreState, inp: TickInput, env: Env)
    ensures AfterHook(s, inp, env).jumped == s.jumped
  {
    hide CatchUpTo;
  }

  lemma TickedJumped(s: CoreState, inp: TickInput, env: Env)
    ensures Ticked(s, inp, env).jumped == AfterGround(AfterInput(s, inp), inp.grounded).jumped
  {
    AfterHookJumped(AfterGround(AfterInput(s, inp), inp.grounded), inp, env);
    hide AfterHook, AfterInput;
  }

  predicate Held(s: CoreState) {
    Has(s.jumped, JUMP_HELD)
  }

  predicate Spent(s: CoreState) {
    Has(s.jumped, JUMPS_SPENT)
  }

  /** m_Jumped stays within its two bits. */
  predicate TwoBits(s: CoreState) {
    s.jumped <= 3
  }

  lemma TickedBits(s: CoreState, inp: TickInput, env: Env)
    requires TwoBits(s)
    ensures TwoBits(Ticked(s, inp, env))
  {
    TickedJumped(s, inp, env);
    hide Ticked;
  }

  // How setting and clearing one bit leaves the other.
  lemma BitLaws(j: bv8)
    ensures Has(With(j, JUMP_HELD), JUMP_HELD)
    ensures Has(With(j, JUMP_HELD | JUMPS_SPENT), JUMP_HELD) && Has(With(j, JUMP_HELD | JUMPS_SPENT), JUMPS_SPENT)
    ensures Has(Without(j, JUMPS_SPENT), JUMP_HELD) == Has(j, JUMP_HELD)
    ensures Has(Without(j, JUMP_HELD), JUMPS_SPENT) == Has(j, JUMPS_SPENT)
  {
  }

  lemma SpentStays(j: bv8)
    ensures Has(j, JUMPS_SPENT) ==> Has(With(j, JUMP_HELD), JUMPS_SPENT)
  {
  }

  // What the keys do to the bits.
  lemma AfterInputBits(s: CoreState, inp: TickInput)
    ensures var j := AfterInput(s, inp).jumped;
      && (Jumps(s, inp) ==> !Held(s) && Has(j, JUMP_HELD))
      && (Held(s) && !(inp.useInput && !inp.jump) ==> Has(j, JUMP_HELD))
      && (AirJumps(s, inp) ==> !Spent(s) && !inp.grounded && Has(j, JUMPS_SPENT))
      && (Spent(s) ==> Has(j, JUMPS_SPENT))
  {
    BitLaws(s.jumped);
    SpentStays(s.jumped);
    hide Has, With, Without;
  }

  lemma TickedHeld(s: CoreState, inp: TickInput, env: Env)
    ensures Jumps(s, inp) ==> !Held(s) && Held(Ticked(s, inp, env))
    ensures Held(s) && !(inp.useInput && !inp.jump) ==> Held(Ticked(s, inp, env))
  {
    TickedJumped(s, inp, env);
    AfterInputBits(s, inp);
    BitLaws(AfterInput(s, inp).jumped);
    hide Ticked, AfterInput, Has, With, Without;
  }

  lemma TickedSpent(s: CoreState, inp: TickInput, env: Env)
    ensures AirJumps(s, inp) ==> !Spent(s) && !inp.grounded && Spent(Ticked(s, inp, env))
    ensures Spent(s) && !inp.grounded ==> Spent(Ticked(s, inp, env))
  {
    TickedJumped(s, inp, env);
    AfterInputBits(s, inp);
    BitLaws(AfterInput(s, inp).jumped);
    hide Ticked, AfterInput, Has, With, Without;
  }
}
