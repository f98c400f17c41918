/**
 * All the cores of a world at their numbers, and the sets m_AttachedPlayers that
 * CCharacterCore::SetHookedPlayer of src/game/gamecore.cpp keeps beside m_HookedPlayer.
 */
module HookIndex {
  import opened GameCore

  datatype World = World(cores: map<int, CoreState>, attached: map<int, set<int>>)

  /** j is attached to i exactly when j hooks i. */
  ghost predicate Indexed(w: World) {
    && w.attached.Keys == w.cores.Keys
    && forall i, j :: i in w.cores && j in w.cores ==> (j in w.attached[i] <==> w.cores[j].hookedPlayer == i)
  }

  function Dropped(attached: map<int, set<int>>, player: int, id: int): map<int, set<int>> {
    if player != -1 && player in attached then attached[player := attached[player] - {id}] else attached
  }

  function Added(attached: map<int, set<int>>, player: int, id: int): map<int, set<int>> {
    if player != -1 && player in attached then attached[player := attached[player] + {id}] else attached
  }

  function Rehooked(attached: map<int, set<int>>, id: int, was: int, now: int): map<int, set<int>> {
    if was == now then attached else Added(Dropped(attached, was, id), now, id)
  }

  /** The core at id reaches state s, whose hooked player it tells the index. */
  function Put(w: World, id: int, s: CoreState): World
    requires id in w.cores
  {
    World(w.cores[id := s], Rehooked(w.attached, id, w.cores[id].hookedPlayer, s.hookedPlayer))
  }

  // ---------------------------------------------------------------- what rehooking does to the index

  lemma RehookedAt(attached: map<int, set<int>>, id: int, was: int, now: int, i: int, j: int)
    requires i in attached && i != -1
    ensures var after := Rehooked(attached, id, was, now);
      && after.Keys == attached.Keys
      && (j in after[i] <==> if j == id && was != now && i in {was, now} then i == now else j in attached[i])
  {
  }

  lemma RehookedKeys(attached: map<int, set<int>>, id: int, was: int, now: int)
    ensures Rehooked(attached, id, was, now).Keys == attached.Keys
  {
  }

  // Number -1 stands for nobody and is never registered.
  ghost predicate NoNobody(w: World) {
    -1 !in w.cores
  }

  /** Any new state of one core, told through SetHookedPlayer, keeps the index right. */
  lemma PutKeepsIndexed(w: World, id: int, s: CoreState)
    requires Indexed(w) && NoNobody(w) && id in w.cores
    ensures Indexed(Put(w, id, s)) && NoNobody(Put(w, id, s))
  {
    var was, now := w.cores[id].hookedPlayer, s.hookedPlayer;
    RehookedKeys(w.attached, id, was, now);
    var t := Put(w, id, s);
    assert t.cores.Keys == w.cores.Keys;
    forall i, j | i in t.cores && j in t.cores
      ensures j in t.attached[i] <==> t.cores[j].hookedPlayer == i
    {
      RehookedAt(w.attached, id, was, now, i, j);
      hide Rehooked;
    }
  }

  /**
   * Two changes of one core in a row are one change: a player hooked in between leaves no trace
   * in the index.
   */
  lemma PutTwice(w: World, id: int, s: CoreState, s': CoreState)
    requires Indexed(w) && NoNobody(w) && id in w.cores
    ensures Put(Put(w, id, s), id, s') == Put(w, id, s')
  {
    var h, a, b := w.cores[id].hookedPlayer, s.hookedPlayer, s'.hookedPlayer;
    var once, twice := Rehooked(w.attached, id, h, b), Rehooked(Rehooked(w.attached, id, h, a), id, a, b);
    RehookedKeys(w.attached, id, h, a);
    RehookedKeys(w.attached, id, h, b);
    RehookedKeys(Rehooked(w.attached, id, h, a), id, a, b);
    forall i | i in w.attached ensures once[i] == twice[i] {
      RehookedTwiceAt(w.attached, id, h, a, b, i);
    }
    assert once == twice;
  }

  lemma RehookedTwiceAt(attached: map<int, set<int>>, id: int, h: int, a: int, b: int, i: int)
    requires i in attached && i != -1 && (id in attached[i] <==> h == i)
    requires Rehooked(attached, id, h, a).Keys == attached.Keys
    requires Rehooked(attached, id, h, b).Keys == attached.Keys
    requires Rehooked(Rehooked(attached, id, h, a), id, a, b).Keys == attached.Keys
    ensures Rehooked(attached, id, h, b)[i] == Rehooked(Rehooked(attached, id, h, a), id, a, b)[i]
  {
    hide Rehooked;
    forall j
      ensures j in Rehooked(attached, id, h, b)[i] <==> j in Rehooked(Rehooked(attached, id, h, a), id, a, b)[i]
    {
      RehookedAt(attached, id, h, b, i, j);
      RehookedAt(attached, id, h, a, i, j);
      RehookedAt(Rehooked(attached, id, h, a), id, a, b, i, j);
    }
  }

  // ---------------------------------------------------------------- Reset

  // Everything back to the start, and the own set cleared.
  function PutReset(w: World, id: int): World
    requires id in w.cores
  {
    var t := Put(w, id, ResetState());
    World(t.cores, t.attached[id := {}])
  }

  /** Reset clears one side only: the index stays right exactly when nobody else hooks the core. */
  lemma ResetKeepsIndexedIff(w: World, id: int)
    requires Indexed(w) && NoNobody(w) && id in w.cores
    ensures Indexed(PutReset(w, id)) <==> Unhooked(w, id)
  {
    var t := PutReset(w, id);
    PutKeepsIndexed(w, id, ResetState());
    hide Put;
    if j :| j in w.cores && j != id && w.cores[j].hookedPlayer == id {
      PutCore(w, id, ResetState(), j);
      assert j !in t.attached[id] && t.cores[j].hookedPlayer == id;
    } else {
      ResetUnhooked(w, id);
    }
  }

  lemma PutCore(w: World, id: int, s: CoreState, j: int)
    requires id in w.cores && j in w.cores
    ensures j in Put(w, id, s).cores && Put(w, id, s).cores[j] == if j == id then s else w.cores[j]
  {
  }

  lemma ResetUnhooked(w: World, id: int)
    requires Indexed(w) && NoNobody(w) && id in w.cores
    requires Unhooked(w, id)
    ensures Indexed(PutReset(w, id))
  {
    var p, t := Put(w, id, ResetState()), PutReset(w, id);
    PutKeepsIndexed(w, id, ResetState());
    assert p.cores.Keys == w.cores.Keys;
    forall i, j | i in t.cores && j in t.cores
      ensures j in t.attached[i] <==> t.cores[j].hookedPlayer == i
    {
      PutCore(w, id, ResetState(), j);
      hide Put;
    }
  }

  /**
   * A new core may take a number exactly when nobody hooks that number and no set still holds it
   * from an earlier core.
   */
  lemma RegisterKeepsIndexedIff(w: World, id: int)
    requires Indexed(w) && NoNobody(w) && id !in w.cores && id != -1
    ensures Indexed(Joined(w, id)) <==> Forgotten(w, id)
  {
    var t := Joined(w, id);
    if j :| j in w.cores && (w.cores[j].hookedPlayer == id || id in w.attached[j]) {
      assert id in t.cores && j in t.cores;
      assert t.attached[j] == w.attached[j] && t.cores[j] == w.cores[j];
      assert j !in t.attached[id] && t.cores[id].hookedPlayer != j;
    } else {
      forall i, j | i in t.cores && j in t.cores
        ensures j in t.attached[i] <==> t.cores[j].hookedPlayer == i
      {
      }
    }
  }

  // ---------------------------------------------------------------- runs of a world

  datatype WorldStep =
    | TickOne(id: int, inp: TickInput)
    | DeferOne(id: int)
    | MoveOne(id: int, grounded: bool)
    | SetHooked(id: int, player: int)
    | ResetOne(id: int)
    | Join(id: int)
    | Leave(id: int)

  // Nobody hooks the number, but for its own core.
  ghost predicate Unhooked(w: World, id: int) {
    forall j :: j in w.cores && j != id ==> w.cores[j].hookedPlayer != id
  }

  // No core hooks the number, and no set still holds it from an earlier core.
  ghost predicate Forgotten(w: World, id: int)
    requires w.attached.Keys == w.cores.Keys
  {
    forall j :: j in w.cores ==> w.cores[j].hookedPlayer != id && id !in w.attached[j]
  }

  // Reset and joining have the guards that keep the index right.
  ghost predicate Enabled(w: World, step: WorldStep) {
    && w.attached.Keys == w.cores.Keys
    && (if step.Join? then step.id !in w.cores && step.id != -1 && Forgotten(w, step.id) else step.id in w.cores)
    && (step.ResetOne? ==> Unhooked(w, step.id))
  }

  function EnvOf(w: World, id: int): Env {
    Env(true, id, w.cores.Keys)
  }

  function Joined(w: World, id: int): World {
    World(w.cores[id := ResetState()], w.attached[id := {}])
  }

  function Left(w: World, id: int): World {
    World(w.cores - {id}, w.attached - {id})
  }

  function Applied(w: World, step: WorldStep): World
    requires step.Join? || step.id in w.cores
  {
    match step
    case TickOne(id, inp) => Put(w, id, Ticked(w.cores[id], inp, EnvOf(w, id)))
    case DeferOne(id) => Put(w, id, Deferred(w.cores[id], true))
    case MoveOne(id, grounded) => Put(w, id, Moved(w.cores[id], grounded))
    case SetHooked(id, player) => Put(w, id, w.cores[id].(hookedPlayer := player))
    case ResetOne(id) => PutReset(w, id)
    case Join(id) => Joined(w, id)
    case Leave(id) => Left(w, id)
  }

  ghost predicate Run(ws: seq<World>, steps: seq<WorldStep>) {
    && |ws| == |steps| + 1
    && forall k :: 0 <= k < |steps| ==> Enabled(ws[k], steps[k]) && ws[k + 1] == Applied(ws[k], steps[k])
  }

  lemma LeaveKeepsIndexed(w: World, id: int)
    requires Indexed(w) && NoNobody(w)
    ensures Indexed(Left(w, id)) && NoNobody(Left(w, id))
  {
  }

  lemma AppliedKeepsIndexed(w: World, step: WorldStep)
    requires Indexed(w) && NoNobody(w) && Enabled(w, step)
    ensures Indexed(Applied(w, step)) && NoNobody(Applied(w, step))
  {
    match step
    case TickOne(id, inp) => PutKeepsIndexed(w, id, Ticked(w.cores[id], inp, EnvOf(w, id)));
    case DeferOne(id) => PutKeepsIndexed(w, id, Deferred(w.cores[id], true));
    case MoveOne(id, grounded) => PutKeepsIndexed(w, id, Moved(w.cores[id], grounded));
    case SetHooked(id, player) => PutKeepsIndexed(w, id, w.cores[id].(hookedPlayer := player));
    case ResetOne(id) =>
      PutKeepsIndexed(w, id, ResetState());
      ResetKeepsIndexedIff(w, id);
      hide Put;
    case Join(id) => RegisterKeepsIndexedIff(w, id);
    case Leave(id) => LeaveKeepsIndexed(w, id);
  }

  /** In every run, at every moment: j is attached to i exactly when j hooks i. */
  lemma {:induction false} RunKeepsIndexed(ws: seq<World>, steps: seq<WorldStep>, k: nat)
    requires Run(ws, steps) && Indexed(ws[0]) && NoNobody(ws[0]) && k < |ws|
    ensures Indexed(ws[k]) && NoNobody(ws[k])
  {
    if k > 0 {
      RunKeepsIndexed(ws, steps, k - 1);
      AppliedKeepsIndexed(ws[k - 1], steps[k - 1]);
      hide Applied, Enabled, Indexed, NoNobody;
      assert ws[k - 1 + 1] == Applied(ws[k - 1], steps[k - 1]);
    }
  }
}
