/**
 * CCharacterCore and CWorldCore of src/game/gamecore.h and gamecore.cpp as objects: each method
 * has the effect that GameCore and HookIndex define.
 */
module CharacterCores {
  import opened GameCore
  import opened HookIndex

  const MAX_CLIENTS: nat := 128

  class WorldCore {
    // m_apCharacters
    const characters: array<CharacterCore?>

    constructor ()
      ensures Valid() && fresh(characters) && View() == World(map[], map[])
    {
      characters := new CharacterCore?[MAX_CLIENTS](_ => null);
    }

    /** Cores sit at their own numbers. */
    ghost predicate Valid()
      reads characters
    {
      && characters.Length == MAX_CLIENTS
      && forall i :: 0 <= i < MAX_CLIENTS && characters[i] != null ==>
        characters[i].id == i && characters[i].world == this
    }

    /** A new core takes its number. */
    method Register(core: CharacterCore)
      requires Valid() && core.world == this && 0 <= core.id < MAX_CLIENTS && characters[core.id] == null
      modifies characters
      ensures Valid() && characters[core.id] == core
      ensures View().cores == old(View()).cores[core.id := core.State()]
      ensures View().attached == old(View()).attached[core.id := core.attached]
    {
      characters[core.id] := core;
      Joined(core);
    }

    /** A core leaves its number. */
    method Unregister(id: int)
      requires Valid() && 0 <= id < MAX_CLIENTS
      modifies characters
      ensures Valid() && characters[id] == null
      ensures View() == Left(old(View()), id)
    {
      characters[id] := null;
      Gone(id);
    }

    twostate lemma Gone(id: int)
      requires old(Valid()) && Valid() && 0 <= id < MAX_CLIENTS && characters[id] == null
      requires forall i :: 0 <= i < MAX_CLIENTS && i != id ==> characters[i] == old(characters[i])
      requires forall c: CharacterCore :: c in old(Cores()) ==> unchanged(c)
      ensures View() == Left(old(View()), id)
    {
      var w0, w1 := old(View()), View();
      forall i | i in w1.cores
        ensures i != id && i in w0.cores && w1.cores[i] == w0.cores[i] && w1.attached[i] == w0.attached[i]
      {
        assert characters[i] in old(Cores());
      }
      assert forall i | i in w0.cores && i != id :: old(characters[i]) == characters[i];
      assert w1.cores.Keys == w0.cores.Keys - {id};
    }

    twostate lemma Joined(core: CharacterCore)
      requires old(Valid()) && Valid() && 0 <= core.id < MAX_CLIENTS
      requires old(characters[core.id]) == null && characters[core.id] == core
      requires forall i :: 0 <= i < MAX_CLIENTS && i != core.id ==> characters[i] == old(characters[i])
      requires forall c: CharacterCore :: c in old(Cores()) ==> unchanged(c)
      requires old(allocated(core)) && unchanged(core)
      ensures View().cores == old(View()).cores[core.id := core.State()]
      ensures View().attached == old(View()).attached[core.id := core.attached]
    {
      var w0, w1 := old(View()), View();
      forall i | i in w1.cores && i != core.id
        ensures i in w0.cores && w1.cores[i] == w0.cores[i] && w1.attached[i] == w0.attached[i]
      {
        assert characters[i] in old(Cores());
      }
      assert forall i | i in w0.cores :: old(characters[i]) == characters[i];
      assert w1.cores.Keys == w0.cores.Keys + {core.id};
    }

    ghost function Cores(): set<CharacterCore>
      reads characters
    {
      set i | 0 <= i < characters.Length && characters[i] != null :: characters[i]
    }

    function Present(): set<int>
      reads characters
    {
      set i | 0 <= i < characters.Length && characters[i] != null
    }

    ghost function View(): (w: World)
      reads characters, Cores()
    {
      World(
        map i | 0 <= i < characters.Length && characters[i] != null :: characters[i].State(),
        map i | 0 <= i < characters.Length && characters[i] != null :: characters[i].attached)
    }
  }

  class CharacterCore {
    const world: WorldCore?
    const id: int
    var hookState: int
    var hookedPlayer: int
    var hookTick: int
    var newHook: bool
    var jumped: bv8
    var jumpedTotal: int
    var jumps: int
    var events: set<CoreEvent>
    var attached: set<int>

    constructor (world: WorldCore?, id: int)
      ensures this.world == world && this.id == id && State() == ResetState() && attached == {}
    {
      this.world, this.id := world, id;
      hookState, hookedPlayer, hookTick, newHook := HOOK_IDLE, -1, 0, false;
      jumped, jumpedTotal, jumps, events, attached := 0, 0, 2, {}, {};
    }

    function State(): CoreState
      reads this
    {
      CoreState(hookState, hookedPlayer, hookTick, newHook, jumped, jumpedTotal, jumps, events)
    }

    // A core outside a world, or without a number, tells no other core about its hook.
    predicate Linked() {
      world != null && id != -1
    }

    /** A linked core is the one registered at its number. */
    ghost predicate Placed()
      reads this`hookedPlayer, if world == null then {} else {world.characters}
    {
      && -1 <= hookedPlayer < MAX_CLIENTS
      && (world != null ==> world.Valid())
      && (Linked() ==> 0 <= id < MAX_CLIENTS && world.characters[id] == this)
    }

    ghost function Peers(): set<CharacterCore>
      reads if world == null then {} else {world.characters}
    {
      if Linked() then world.Cores() else {}
    }

    /** Placed, in a world whose index is right. */
    ghost predicate Sound()
      reads this, if world == null then {} else {world.characters}, Peers()
    {
      Placed() && (Linked() ==> Indexed(world.View()))
    }

    function EnvHere(): Env
      reads if world == null then {} else {world.characters}
    {
      if world == null then Env(false, id, {}) else Env(true, id, world.Present())
    }

    /** The new state of this core is all that changed, and the index was told of it. */
    twostate predicate Told()
      reads this, if world == null then {} else {world.characters}, Peers()
    {
      Linked() ==> id in old(world.View()).cores && world.View() == Put(old(world.View()), id, State())
    }

    // The world is w but for the state of this core, which the index was told.
    ghost predicate From(w: World)
      reads this, if world == null then {} else {world.characters}, Peers()
    {
      Linked() ==> Indexed(w) && NoNobody(w) && id in w.cores && world.View() == Put(w, id, State())
    }

    // ---------------------------------------------------------------- the hooked player

    // The number in use at `player` forgets that this core hooks it.
    method Detach(player: int)
      requires Linked() && Placed() && 0 <= player < MAX_CLIENTS
      modifies Peers()`attached
      ensures world.View() == World(old(world.View()).cores, Dropped(old(world.View()).attached, player, id))
    {
      var other := world.characters[player];
      if other != null {
        other.attached := other.attached - {id};
      }
    }

    method Attach(player: int)
      requires Linked() && Placed() && 0 <= player < MAX_CLIENTS
      modifies Peers()`attached
      ensures world.View() == World(old(world.View()).cores, Added(old(world.View()).attached, player, id))
    {
      var other := world.characters[player];
      if other != null {
        other.attached := other.attached + {id};
      }
    }

    // Only fields of this core changed, and not its set.
    twostate predicate OwnOnly()
      reads this, if world == null then {} else {world.characters}, Peers()
    {
      && Linked() && old(Placed()) && Placed()
      && unchanged(world.characters)
      && (forall c :: c in Peers() && c != this ==> old(allocated(c)) && unchanged(c))
      && attached == old(attached)
    }

    twostate lemma SameAt(i: int)
      requires OwnOnly() && i in world.View().cores
      ensures i in old(world.View()).cores && i in old(world.View()).attached
      ensures i != id ==> world.View().cores[i] == old(world.View()).cores[i]
      ensures world.View().attached[i] == old(world.View()).attached[i]
    {
      var c := world.characters[i];
      assert c in Peers();
    }

    twostate lemma OwnChange()
      requires OwnOnly()
      ensures id in old(world.View()).cores && old(world.View()).cores[id] == old(State())
      ensures world.View() == World(old(world.View()).cores[id := State()], old(world.View()).attached)
    {
      var w0, w1 := old(world.View()), world.View();
      SameKeys();
      forall i | i in w1.cores
        ensures i in w0.cores && i in w0.attached
        ensures w1.attached[i] == w0.attached[i] && (i != id ==> w1.cores[i] == w0.cores[i])
      {
        SameAt(i);
      }
      hide OwnOnly;
      assert w1.cores == w0.cores[id := State()];
      assert w1.attached == w0.attached;
    }

    twostate lemma SameKeys()
      requires OwnOnly()
      ensures id in old(world.View()).cores && id in world.View().cores
      ensures old(world.View()).cores[id] == old(State()) && world.View().cores[id] == State()
      ensures world.View().cores.Keys == old(world.View()).cores.Keys
      ensures world.View().attached.Keys == old(world.View()).attached.Keys == world.View().cores.Keys
    {
    }

    method Rehook(player: int)
      requires Linked() && Placed() && -1 <= player < MAX_CLIENTS && player != hookedPlayer
      modifies Peers()`attached
      ensures world.View() ==
        World(old(world.View()).cores, Rehooked(old(world.View()).attached, id, hookedPlayer, player))
    {
      if hookedPlayer != -1 {
        Detach(hookedPlayer);
      }
      if player != -1 {
        Attach(player);
      }
    }

    method SetHookedPlayer(player: int)
      requires Placed() && -1 <= player < MAX_CLIENTS
      modifies this`hookedPlayer, Peers()`attached
      ensures Placed() && hookedPlayer == player && Told()
    {
      if player != hookedPlayer {
        hide Rehooked;
        if id != -1 && world != null {
          Rehook(player);
        }
        label Hooked:
        hookedPlayer := player;
        if Linked() {
          OwnChange@Hooked();
        }
      } else if Linked() {
        OwnChange();
      }
    }

    // ---------------------------------------------------------------- one change after another

    lemma FromHere(w: World)
      requires Sound() && (Linked() ==> w == world.View())
      ensures Placed() && From(w)
    {
      if Linked() {
        OwnState();
        assert w.cores[id := State()] == w.cores;
      }
    }

    lemma OwnState()
      requires Linked() && Placed()
      ensures id in world.View().cores && world.View().cores[id] == State() && NoNobody(world.View())
    {
    }

    twostate lemma FromTold(w: World)
      requires old(Placed() && From(w)) && Placed() && Told()
      ensures From(w)
    {
      if Linked() {
        PutTwice(w, id, old(State()), State());
      }
      hide Put, Indexed, NoNobody;
    }

    twostate lemma FromOwn(w: World)
      requires old(Placed() && From(w)) && (Linked() ==> OwnOnly()) && Placed()
      requires hookedPlayer == old(hookedPlayer)
      ensures From(w)
    {
      if Linked() {
        OwnChange();
        hide OwnOnly, Indexed;
        FromTold(w);
      }
    }

    twostate lemma Arrived(w: World)
      requires Placed() && From(w) && (Linked() ==> w == old(world.View()))
      ensures Sound() && Told()
    {
      if Linked() {
        PutKeepsIndexed(w, id, State());
      }
      hide Put, Indexed, NoNobody;
    }

    // ---------------------------------------------------------------- the phases of a tick

    method JumpKeys(inp: TickInput)
      modifies this`jumped, this`jumpedTotal, this`events
      ensures State() == AfterJump(old(State()), inp)
    {
      hide Has, With, Without;
      if inp.useInput {
        if inp.jump {
          if !Has(jumped, JUMP_HELD) {
            if inp.grounded && (!Has(jumped, JUMPS_SPENT) || jumps != 0) {
              events := events + {GroundJump};
              if jumps > 1 {
                jumped := With(jumped, JUMP_HELD);
              } else {
                jumped := With(jumped, JUMP_HELD | JUMPS_SPENT);
              }
              jumpedTotal := 0;
            } else if !Has(jumped, JUMPS_SPENT) {
              events := events + {AirJump};
              jumped := With(jumped, JUMP_HELD | JUMPS_SPENT);
              jumpedTotal := jumpedTotal + 1;
            }
          }
        } else {
          jumped := Without(jumped, JUMP_HELD);
        }
      }
    }

    method Land(grounded: bool)
      modifies this`jumped, this`jumpedTotal
      ensures State() == AfterGround(old(State()), grounded)
    {
      if grounded {
        jumped := Without(jumped, JUMPS_SPENT);
        jumpedTotal := 0;
      }
    }

    method HookKeys(inp: TickInput, ghost w: World)
      requires Placed() && From(w)
      modifies this`hookState, this`hookTick, this`events, this`hookedPlayer, Peers()`attached
      ensures Placed() && From(w) && State() == AfterHookKey(old(State()), inp)
    {
      hide From, Told;
      if inp.useInput {
        if inp.hook {
          if hookState == HOOK_IDLE {
            hookState := HOOK_FLYING;
            FromOwn(w);
            Unhook(-1, w);
            label Unhooked:
            hookTick := inp.launchTick;
            events := events + {HookLaunch};
            FromOwn@Unhooked(w);
          }
        } else {
          Unhook(-1, w);
          label Released:
          hookState := HOOK_IDLE;
          FromOwn@Released(w);
        }
      }
    }

    // SetHookedPlayer, one change after others.
    method Unhook(player: int, ghost w: World)
      requires Placed() && From(w) && -1 <= player < MAX_CLIENTS
      modifies this`hookedPlayer, Peers()`attached
      ensures Placed() && From(w) && hookedPlayer == player
    {
      SetHookedPlayer(player);
      FromTold(w);
    }

    // The scan for a player at the hook line.
    method CatchPlayers(inp: TickInput, ghost w: World)
      requires Placed() && From(w) && |inp.slots| == MAX_CLIENTS && world != null
      modifies this`hookState, this`events, this`hookedPlayer, Peers()`attached
      ensures Placed() && From(w)
      ensures State() == Caught(old(State()), CatchUpTo(old(hookedPlayer), inp, EnvHere(), |inp.slots|))
    {
      ghost var s, env, hooked := State(), EnvHere(), hookedPlayer;
      hide From, Told, Placed, EnvHere;
      var distance := 0.0;
      for i := 0 to |inp.slots|
        invariant Placed() && From(w)
        invariant Scanned(s, CatchUpTo(hooked, inp, env, i), distance)
      {
        var near := IsNear(inp, i);
        if near && (hookedPlayer == -1 || inp.slots[i].distance < distance) {
          CatchOne(i, w);
          distance := inp.slots[i].distance;
        }
      }
    }

    // The scan so far, as the fields show it.
    ghost predicate Scanned(s: CoreState, c: Catch, distance: real)
      reads this
    {
      State() == Caught(s, c) && hookedPlayer == c.player && distance == c.distance
    }

    method IsNear(inp: TickInput, i: nat) returns (near: bool)
      requires Placed() && world != null && i < |inp.slots| == MAX_CLIENTS
      ensures near <==> Hookable(inp, EnvHere(), i)
    {
      var other := world.characters[i];
      near := other != null && other != this && inp.slots[i].near;
    }

    method CatchOne(i: nat, ghost w: World)
      requires Placed() && From(w) && i < MAX_CLIENTS
      modifies this`hookState, this`events, this`hookedPlayer, Peers()`attached
      ensures Placed() && From(w)
      ensures State() == old(State()).(
        hookState := HOOK_GRABBED, hookedPlayer := i, events := old(events) + {HookAttachPlayer})
    {
      hide From, Told;
      events := events + {HookAttachPlayer};
      hookState := HOOK_GRABBED;
      FromOwn(w);
      Unhook(i, w);
    }

    // The hook in flight met the ground, a wall that refuses it, a teleporter or nothing.
    method MeetLine(inp: TickInput, ghost w: World)
      requires Placed() && From(w)
      modifies this`hookState, this`events, this`newHook, this`hookedPlayer, Peers()`attached
      ensures Placed() && From(w) && State() == AfterLine(old(State()), inp, EnvHere())
    {
      hide From, Told;
      if hookState == HOOK_FLYING {
        if inp.hit == HitTeleIn && world != null && inp.teleHasOuts {
          events := {};
          FromOwn(w);
          Unhook(-1, w);
          label Unhooked:
          newHook := true;
          FromOwn@Unhooked(w);
        } else {
          MeetWall(inp);
          FromOwn(w);
        }
      }
    }

    method MeetWall(inp: TickInput)
      requires hookState == HOOK_FLYING
      modifies this`hookState, this`events
      ensures hookState == match inp.hit
        case HitSolid => HOOK_GRABBED
        case HitNoHook => HOOK_RETRACT_START
        case _ => HOOK_FLYING
      ensures events == match inp.hit
        case HitSolid => old(events) + {HookAttachGround}
        case HitNoHook => old(events) + {HookHitNoHook}
        case _ => old(events)
    {
      if inp.hit == HitSolid {
        events := events + {HookAttachGround};
        hookState := HOOK_GRABBED;
      } else if inp.hit == HitNoHook {
        events := events + {HookHitNoHook};
        hookState := HOOK_RETRACT_START;
      }
    }

    method Fly(inp: TickInput, ghost w: World)
      requires Placed() && From(w) && |inp.slots| == MAX_CLIENTS
      modifies this`hookState, this`events, this`newHook, this`hookedPlayer, Peers()`attached
      ensures Placed() && From(w) && State() == AfterFlight(old(State()), inp, EnvHere())
    {
      hide From, Told, Caught, CatchUpTo, AfterLine;
      if inp.tooFar {
        hookState := HOOK_RETRACT_START;
        FromOwn(w);
      }
      if inp.playerHooking && world != null && (hookState == HOOK_FLYING || !newHook) {
        CatchPlayers(inp, w);
      }
      MeetLine(inp, w);
    }

    method MoveHook(inp: TickInput, ghost w: World)
      requires Placed() && From(w) && |inp.slots| == MAX_CLIENTS
      modifies this`hookState, this`events, this`newHook, this`hookedPlayer, Peers()`attached
      ensures Placed() && From(w) && State() == AfterHook(old(State()), inp, EnvHere())
    {
      hide From, Told, AfterFlight;
      if hookState == HOOK_IDLE {
        Unhook(-1, w);
      } else if HOOK_RETRACT_START <= hookState < HOOK_RETRACT_END {
        hookState := hookState + 1;
        FromOwn(w);
      } else if hookState == HOOK_RETRACT_END {
        events := events + {HookRetract};
        hookState := HOOK_RETRACTED;
        FromOwn(w);
      } else if hookState == HOOK_FLYING {
        Fly(inp, w);
      }
    }

    method LetGo(ghost w: World)
      requires Placed() && From(w)
      modifies this`hookState, this`hookedPlayer, Peers()`attached
      ensures Placed() && From(w) && State() == Released(old(State()))
    {
      hide From, Told;
      Unhook(-1, w);
      label Unhooked:
      hookState := HOOK_RETRACTED;
      FromOwn@Unhooked(w);
    }

    method HoldPlayer(inp: TickInput, ghost w: World)
      requires Placed() && From(w)
      modifies this`hookState, this`hookTick, this`hookedPlayer, Peers()`attached
      ensures Placed() && From(w) && State() == AfterGrab(old(State()), inp, EnvHere())
    {
      hide From, Told, AfterKeep, AfterHold;
      if hookState == HOOK_GRABBED {
        KeepPlayer(inp, w);
        HoldOn(w);
      }
    }

    method KeepPlayer(inp: TickInput, ghost w: World)
      requires Placed() && From(w)
      modifies this`hookState, this`hookedPlayer, Peers()`attached
      ensures Placed() && From(w) && State() == AfterKeep(old(State()), inp, EnvHere())
    {
      hide From, Told, Released;
      if hookedPlayer != -1 && world != null {
        var kept := IsKept(inp);
        if !kept {
          LetGo(w);
        }
      }
    }

    method HoldOn(ghost w: World)
      requires Placed() && From(w)
      modifies this`hookState, this`hookTick, this`hookedPlayer, Peers()`attached
      ensures Placed() && From(w) && State() == AfterHold(old(State()), EnvHere())
    {
      hide From, Told, Released;
      hookTick := hookTick + 1;
      FromOwn(w);
      if hookedPlayer != -1 {
        var gone := IsGone();
        if hookTick > HOOK_TICK_LIMIT || gone {
          LetGo(w);
        }
      }
    }

    method IsKept(inp: TickInput) returns (kept: bool)
      requires Placed() && world != null && hookedPlayer != -1
      ensures kept <==> Keeps(hookedPlayer, inp, EnvHere())
    {
      var other := world.characters[hookedPlayer];
      kept := other != null && id != -1 && other.id in inp.keep;
    }

    method IsGone() returns (gone: bool)
      requires Placed() && hookedPlayer != -1
      ensures gone <==> EnvHere().world && hookedPlayer !in EnvHere().present
    {
      gone := world != null && world.characters[hookedPlayer] == null;
    }

    // ---------------------------------------------------------------- whole calls

    twostate lemma TickApplied(inp: TickInput)
      requires old(Placed()) && Told() && State() == Ticked(old(State()), inp, EnvHere())
      requires world != null ==> unchanged(world.characters)
      ensures Linked() ==>
        id in old(world.View()).cores && world.View() == Applied(old(world.View()), TickOne(id, inp))
    {
      if Linked() {
        assert old(world.View()).cores[id] == old(State());
        assert EnvOf(old(world.View()), id).present == EnvHere().present;
      }
      hide Ticked, Put;
    }

    /** Tick has the effect Ticked on this core, of which the index is told. */
    method Tick(inp: TickInput)
      requires Sound() && |inp.slots| == MAX_CLIENTS
      modifies this`hookState, this`hookTick, this`events, this`newHook, this`jumped, this`jumpedTotal,
        this`hookedPlayer, Peers()`attached
      ensures Sound() && Told()
      ensures State() == Ticked(old(State()), inp, EnvHere())
      ensures Linked() ==>
        id in old(world.View()).cores && world.View() == Applied(old(world.View()), TickOne(id, inp))
    {
      hide Told, AfterInput, AfterHook, AfterGrab;
      ghost var w := if Linked() then world.View() else World(map[], map[]);
      FromHere(w);
      TickKeys(inp, w);
      MoveHook(inp, w);
      HoldPlayer(inp, w);
      FinishTick(inp, w);
      Arrived(w);
      TickApplied(inp);
    }

    method TickKeys(inp: TickInput, ghost w: World)
      requires Placed() && From(w)
      modifies this`hookState, this`hookTick, this`events, this`jumped, this`jumpedTotal,
        this`hookedPlayer, Peers()`attached
      ensures Placed() && From(w)
      ensures State() == AfterGround(AfterInput(old(State()), inp), inp.grounded)
    {
      hide From, Told, AfterJump, AfterHookKey, AfterGround;
      events := {};
      JumpKeys(inp);
      FromOwn(w);
      HookKeys(inp, w);
      label Keyed:
      Land(inp.grounded);
      FromOwn@Keyed(w);
    }

    method FinishTick(inp: TickInput, ghost w: World)
      requires Placed() && From(w)
      modifies this`newHook
      ensures Placed() && From(w) && State() == AfterDeferred(old(State()), inp, EnvHere())
    {
      if inp.deferred {
        DeferHook();
      }
      FromOwn(w);
    }

    // The end of TickDeferred.
    method DeferHook()
      modifies this`newHook
      ensures State() == Deferred(old(State()), world != null)
    {
      if world != null && hookState != HOOK_FLYING {
        newHook := false;
      }
    }

    /** TickDeferred by itself, as the server calls it once every core has ticked. */
    method TickDeferred()
      requires Sound()
      modifies this`newHook
      ensures Sound() && Told()
      ensures State() == Deferred(old(State()), world != null)
    {
      hide Told, From, Deferred;
      ghost var w := if Linked() then world.View() else World(map[], map[]);
      FromHere(w);
      DeferHook();
      FromOwn(w);
      Arrived(w);
    }

    /** Move has the effect Moved on this core. */
    method Move(grounded: bool)
      requires Sound()
      modifies this`jumped, this`jumpedTotal
      ensures Sound() && Told()
      ensures State() == Moved(old(State()), grounded)
    {
      hide Told, From, AfterGround;
      ghost var w := if Linked() then world.View() else World(map[], map[]);
      FromHere(w);
      Land(grounded);
      FromOwn(w);
      Arrived(w);
    }

    /** Reset has the effect PutReset: it tells the index of the lost hook and clears its own set. */
    method Reset()
      requires Placed()
      modifies this, Peers()`attached
      ensures Placed() && State() == ResetState() && attached == {}
      ensures Linked() ==> id in old(world.View()).cores && world.View() == PutReset(old(world.View()), id)
    {
      if Linked() {
        ResetLinked();
      } else {
        hookedPlayer := -1;
        attached := {};
        ClearFields();
      }
    }

    method ClearFields()
      modifies this`hookState, this`hookTick, this`events, this`newHook, this`jumped, this`jumpedTotal, this`jumps
      ensures State() == ResetState().(hookedPlayer := old(hookedPlayer))
    {
      newHook, hookTick, hookState := false, 0, HOOK_IDLE;
      jumped, jumpedTotal, jumps, events := 0, 0, 2, {};
    }

    method ResetLinked()
      requires Linked() && Placed()
      modifies this, Peers()`attached
      ensures Placed() && State() == ResetState() && attached == {}
      ensures id in old(world.View()).cores && world.View() == PutReset(old(world.View()), id)
    {
      hide Put, PutReset;
      ghost var w := world.View();
      OwnState();
      SetHookedPlayer(-1);
      ghost var s := State();
      ClearAttached();
      ClearOwn();
      ResetSteps(w, id, s);
    }

    method ClearOwn()
      requires Linked() && Placed() && hookedPlayer == -1
      modifies this`hookState, this`hookTick, this`events, this`newHook, this`jumped, this`jumpedTotal, this`jumps
      ensures Placed() && State() == ResetState()
      ensures world.View() == World(old(world.View()).cores[id := ResetState()], old(world.View()).attached)
    {
      ClearFields();
      OwnChange();
      hide OwnOnly;
    }

    method ClearAttached()
      requires Linked() && Placed()
      modifies this`attached
      ensures attached == {}
      ensures world.View() == World(old(world.View()).cores, old(world.View()).attached[id := {}])
    {
      attached := {};
      ClearedView();
    }

    // Only the set of this core changed.
    twostate lemma ClearedView()
      requires Linked() && old(Placed()) && Placed() && unchanged(world.characters) && attached == {}
      requires forall c :: c in Peers() && c != this ==> old(allocated(c)) && unchanged(c)
      requires State() == old(State())
      ensures world.View() == World(old(world.View()).cores, old(world.View()).attached[id := {}])
    {
      var w0, w1 := old(world.View()), world.View();
      forall i | i in w1.cores
        ensures i in w0.cores && w1.cores[i] == w0.cores[i] && (i != id ==> w1.attached[i] == w0.attached[i])
      {
        var c := world.characters[i];
        assert c in Peers();
      }
      assert w1.cores == w0.cores;
      assert w1.attached == w0.attached[id := {}];
    }
  }

  // The steps of Reset after its SetHookedPlayer(-1) come to PutReset.
  lemma ResetSteps(w: World, id: int, s: CoreState)
    requires id in w.cores && s.hookedPlayer == -1
    ensures var t := Put(w, id, s);
      World(t.cores[id := ResetState()], t.attached[id := {}]) == PutReset(w, id)
  {
  }
}
