/**
 * The teleporter index of src/game/collision.cpp: CCollision::Init (its tele part),
 * TeleAllGet, TeleAllSize and GetPureMapIndex.
 */
module TeleIndex {
  import opened Collision

  const TILE_TELEIN := 26
  const TILE_TELEOUT := 27
  const TILE_TELECHECKOUT := 30

  datatype TeleTile = TeleTile(number: nat, kind: nat)

  datatype List = Ins | Outs | CheckOuts | Others

  // The list a tile with a non-zero type belongs to.
  function ListOf(kind: nat): List {
    if kind == TILE_TELEIN then Ins
    else if kind == TILE_TELEOUT then Outs
    else if kind == TILE_TELECHECKOUT then CheckOuts
    else Others
  }

  // Whether the tile is a teleporter numbered n + 1.
  predicate IsTele(t: TeleTile, n: int) {
    t.number > 0 && t.number - 1 == n && t.kind != 0
  }

  /** The tiles of one list and number, in scan order. */
  function Places(tiles: seq<TeleTile>, l: List, n: int): (p: seq<nat>)
    decreases |tiles|
  {
    if tiles == [] then []
    else
      var i := |tiles| - 1;
      Places(tiles[..i], l, n) + (if IsTele(tiles[i], n) && ListOf(tiles[i].kind) == l then [i] else [])
  }

  /** All of them: ins, outs, check-outs, others. */
  function AllPlaces(tiles: seq<TeleTile>, n: int): seq<nat> {
    Places(tiles, Ins, n) + Places(tiles, Outs, n) + Places(tiles, CheckOuts, n) + Places(tiles, Others, n)
  }

  function Centre(i: nat, width: nat): Vec2
    requires width > 0
  {
    Vec2((i % width) as real * 32.0 + 16.0, (i / width) as real * 32.0 + 16.0)
  }

  function Centres(places: seq<nat>, width: nat): (c: seq<Vec2>)
    requires width > 0
    ensures |c| == |places|
  {
    seq(|places|, k requires 0 <= k < |places| => Centre(places[k], width))
  }

  // ---------------------------------------------------------------- what the enumeration means

  lemma {:induction false} PlacesExactly(tiles: seq<TeleTile>, l: List, n: int, i: nat)
    ensures i in Places(tiles, l, n) <==> i < |tiles| && IsTele(tiles[i], n) && ListOf(tiles[i].kind) == l
    decreases |tiles|
  {
    if tiles != [] {
      PlacesExactly(tiles[..|tiles| - 1], l, n, i);
    }
  }

  predicate Ascends(p: seq<nat>) {
    forall j, k :: 0 <= j < k < |p| ==> p[j] < p[k]
  }

  predicate Distinct(p: seq<nat>) {
    forall j, k :: 0 <= j < k < |p| ==> p[j] != p[k]
  }

  lemma {:induction false} PlacesAscend(tiles: seq<TeleTile>, l: List, n: int)
    ensures var p := Places(tiles, l, n);
      Ascends(p) && forall k :: 0 <= k < |p| ==> p[k] < |tiles|
    decreases |tiles|
  {
    if tiles != [] {
      PlacesAscend(tiles[..|tiles| - 1], l, n);
    }
  }

  /** Every teleporter with that number is enumerated, and nothing else. */
  lemma AllPlacesExactly(tiles: seq<TeleTile>, n: int, i: nat)
    ensures i in AllPlaces(tiles, n) <==> i < |tiles| && tiles[i].number == n + 1 > 0 && tiles[i].kind != 0
  {
    hide Places;
    PlacesExactly(tiles, Ins, n, i);
    PlacesExactly(tiles, Outs, n, i);
    PlacesExactly(tiles, CheckOuts, n, i);
    PlacesExactly(tiles, Others, n, i);
  }

  /** None of them twice. */
  lemma AllPlacesOnce(tiles: seq<TeleTile>, n: int)
    ensures Distinct(AllPlaces(tiles, n))
  {
    hide Places;
    var a, b := Places(tiles, Ins, n), Places(tiles, Outs, n);
    var c, d := Places(tiles, CheckOuts, n), Places(tiles, Others, n);
    PlacesAscend(tiles, Ins, n);
    PlacesAscend(tiles, Outs, n);
    PlacesAscend(tiles, CheckOuts, n);
    PlacesAscend(tiles, Others, n);
    PlacesApart(tiles, Ins, Outs, n);
    PlacesApart(tiles, Ins, CheckOuts, n);
    PlacesApart(tiles, Ins, Others, n);
    PlacesApart(tiles, Outs, CheckOuts, n);
    PlacesApart(tiles, Outs, Others, n);
    PlacesApart(tiles, CheckOuts, Others, n);
    AscendsDistinct(a);
    AscendsDistinct(b);
    AscendsDistinct(c);
    AscendsDistinct(d);
    hide Ascends, Distinct;
    JoinDistinct(a, b);
    JoinDistinct(a + b, c);
    JoinDistinct(a + b + c, d);
  }

  lemma AscendsDistinct(p: seq<nat>)
    requires Ascends(p)
    ensures Distinct(p)
  {
    forall j, k | 0 <= j < k < |p| ensures p[j] != p[k] {
      assert p[j] < p[k];
    }
  }

  lemma JoinDistinct(p: seq<nat>, q: seq<nat>)
    requires Distinct(p) && Distinct(q) && forall x :: x in p ==> x !in q
    ensures Distinct(p + q)
  {
    forall j, k | 0 <= j < k < |p + q| ensures (p + q)[j] != (p + q)[k] {
      if j < |p| <= k {
        assert p[j] in p && q[k - |p|] in q;
      }
    }
  }

  lemma PlacesApart(tiles: seq<TeleTile>, l: List, l': List, n: int)
    requires l != l'
    ensures forall x :: x in Places(tiles, l, n) ==> x !in Places(tiles, l', n)
  {
    hide Places;
    forall x | x in Places(tiles, l, n) ensures x !in Places(tiles, l', n) {
      PlacesExactly(tiles, l, n, x);
      PlacesExactly(tiles, l', n, x);
    }
  }

  // Teleporters that take in come first, then those that put out, then check points, then the rest.
  function Rank(kind: nat): nat {
    if kind == 26 then 0 else if kind == 27 then 1 else if kind == 30 then 2 else 3
  }

  // By rank, and in scan order within a rank.
  predicate Before(tiles: seq<TeleTile>, i: nat, j: nat)
    requires i < |tiles| && j < |tiles|
  {
    Rank(tiles[i].kind) < Rank(tiles[j].kind) || (Rank(tiles[i].kind) == Rank(tiles[j].kind) && i < j)
  }

  function ListRank(l: List): nat {
    match l
    case Ins => 0
    case Outs => 1
    case CheckOuts => 2
    case Others => 3
  }

  lemma KindRank(kind: nat)
    ensures Rank(kind) == ListRank(ListOf(kind))
  {
  }

  // All the places are of that rank.
  predicate Ranked(tiles: seq<TeleTile>, p: seq<nat>, low: nat, high: nat) {
    forall k :: 0 <= k < |p| ==> p[k] < |tiles| && low <= Rank(tiles[p[k]].kind) <= high
  }

  predicate Ordered(tiles: seq<TeleTile>, p: seq<nat>) {
    && (forall k :: 0 <= k < |p| ==> p[k] < |tiles|)
    && (forall j, k :: 0 <= j < k < |p| ==> Before(tiles, p[j], p[k]))
  }

  lemma PlacesOrdered(tiles: seq<TeleTile>, l: List, n: int)
    ensures Ranked(tiles, Places(tiles, l, n), ListRank(l), ListRank(l)) && Ordered(tiles, Places(tiles, l, n))
  {
    hide Places, ListOf, Rank;
    var p := Places(tiles, l, n);
    PlacesAscend(tiles, l, n);
    forall k | 0 <= k < |p| ensures p[k] < |tiles| && Rank(tiles[p[k]].kind) == ListRank(l) {
      PlacesExactly(tiles, l, n, p[k]);
      assert p[k] in p;
      KindRank(tiles[p[k]].kind);
    }
  }

  lemma JoinOrdered(tiles: seq<TeleTile>, p: seq<nat>, q: seq<nat>, rank: nat)
    requires Ordered(tiles, p) && Ordered(tiles, q)
    requires Ranked(tiles, p, 0, rank) && Ranked(tiles, q, rank + 1, rank + 1)
    ensures Ordered(tiles, p + q) && Ranked(tiles, p + q, 0, rank + 1)
  {
    hide Rank;
  }

  /** In that order, so that the enumeration is determined. */
  lemma AllPlacesOrdered(tiles: seq<TeleTile>, n: int)
    ensures Ordered(tiles, AllPlaces(tiles, n))
  {
    hide Places, Ordered, Ranked;
    var a, b := Places(tiles, Ins, n), Places(tiles, Outs, n);
    var c, d := Places(tiles, CheckOuts, n), Places(tiles, Others, n);
    PlacesOrdered(tiles, Ins, n);
    PlacesOrdered(tiles, Outs, n);
    PlacesOrdered(tiles, CheckOuts, n);
    PlacesOrdered(tiles, Others, n);
    JoinOrdered(tiles, a, b, 0);
    JoinOrdered(tiles, a + b, c, 1);
    JoinOrdered(tiles, a + b + c, d, 2);
  }

  // ---------------------------------------------------------------- from a centre back to its tile

  /** The centre is as far from both sides of the tile's square, and from its top and its bottom. */
  lemma CentreMiddle(i: nat, width: nat)
    requires width > 0
    ensures var p, left, top := Centre(i, width), 32 * (i % width), 32 * (i / width);
      && p.x - left as real == (left + 32) as real - p.x
      && p.y - top as real == (top + 32) as real - p.y
  {
  }

  function GetPureMapIndex(pos: Vec2, width: nat, height: nat): int
    requires width > 0 && height > 0
  {
    Clamp(Tile(RoundToInt(pos.y)), 0, height - 1) * width + Clamp(Tile(RoundToInt(pos.x)), 0, width - 1)
  }

  lemma RoundCentre(c: nat)
    ensures Tile(RoundToInt(c as real * 32.0 + 16.0)) == c
  {
    assert c as real * 32.0 + 16.0 == (32 * c + 16) as real;
    assert RoundToInt((32 * c + 16) as real) == 32 * c + 16;
  }

  lemma RowBelow(i: nat, width: nat, height: nat)
    requires width > 0 && i < width * height
    ensures i / width < height && i / width * width + i % width == i
  {
    if i / width >= height {
      RowsGrow(height, i / width, width);
    }
  }

  lemma RowsGrow(a: nat, b: nat, width: nat)
    requires a <= b
    ensures a * width <= b * width
  {
    assert (b - a) * width >= 0;
  }

  /** The map index at the centre of a tile is that tile's. */
  lemma CentreIndex(i: nat, width: nat, height: nat)
    requires width > 0 && i < width * height
    ensures height > 0 && GetPureMapIndex(Centre(i, width), width, height) == i
  {
    hide RoundToInt, Tile;
    RowBelow(i, width, height);
    RoundCentre(i % width);
    RoundCentre(i / width);
  }

  /**
   * On a map of width * height tiles, each teleporter numbered n + 1 is the tile at exactly one
   * of the enumerated centres.
   */
  lemma EnumeratedOnce(tiles: seq<TeleTile>, n: int, width: nat, height: nat, i: nat)
    returns (k: nat)
    requires width > 0 && |tiles| == width * height && i < |tiles| && IsTele(tiles[i], n)
    ensures var all := Centres(AllPlaces(tiles, n), width);
      && height > 0 && k < |all| && GetPureMapIndex(all[k], width, height) == i
      && forall j :: 0 <= j < |all| && GetPureMapIndex(all[j], width, height) == i ==> j == k
  {
    hide AllPlaces, GetPureMapIndex, Centre;
    var p := AllPlaces(tiles, n);
    AllPlacesExactly(tiles, n, i);
    AllPlacesOnce(tiles, n);
    k :| 0 <= k < |p| && p[k] == i;
    CentreIndex(i, width, height);
    forall j | 0 <= j < |p| && GetPureMapIndex(Centres(p, width)[j], width, height) == i ensures j == k {
      AllPlacesExactly(tiles, n, p[j]);
      assert p[j] in p;
      CentreIndex(p[j], width, height);
    }
  }

  // ---------------------------------------------------------------- the index

  // `m` lists one of the lists as it should, and has no empty entries.
  ghost predicate Lists(m: map<int, seq<Vec2>>, l: List, tiles: seq<TeleTile>, width: nat)
    requires width > 0
  {
    forall n :: ListsAt(m, l, tiles, width, n)
  }

  ghost predicate ListsAt(m: map<int, seq<Vec2>>, l: List, tiles: seq<TeleTile>, width: nat, n: int)
    requires width > 0
  {
    At(m, n) == Centres(Places(tiles, l, n), width) && (n in m <==> Places(tiles, l, n) != [])
  }

  lemma PlacesSnoc(tiles: seq<TeleTile>, t: TeleTile, l: List, n: int)
    ensures Places(tiles + [t], l, n)
         == Places(tiles, l, n) + (if IsTele(t, n) && ListOf(t.kind) == l then [|tiles|] else [])
  {
    assert (tiles + [t])[..|tiles|] == tiles;
  }

  lemma CentresSnoc(p: seq<nat>, i: nat, width: nat)
    requires width > 0
    ensures Centres(p + [i], width) == Centres(p, width) + [Centre(i, width)]
  {
  }

  lemma CentresConcat(p: seq<nat>, q: seq<nat>, width: nat)
    requires width > 0
    ensures Centres(p + q, width) == Centres(p, width) + Centres(q, width)
  {
    hide Centre;
  }

  // A tile of list l changes that list only at its own number.
  lemma ListedTile(m: map<int, seq<Vec2>>, l: List, tiles: seq<TeleTile>, t: TeleTile, width: nat)
    requires width > 0 && Lists(m, l, tiles, width) && Joins(t, l)
    ensures Lists(Append(m, t.number - 1, Centre(|tiles|, width)), l, tiles + [t], width)
  {
    hide ListsAt;
    var m', tiles' := Append(m, t.number - 1, Centre(|tiles|, width)), tiles + [t];
    forall n ensures ListsAt(m', l, tiles', width, n) {
      ListedAt(m, l, tiles, t, width, n);
    }
  }

  lemma ListedAt(m: map<int, seq<Vec2>>, l: List, tiles: seq<TeleTile>, t: TeleTile, width: nat, n: int)
    requires width > 0 && ListsAt(m, l, tiles, width, n) && Joins(t, l)
    ensures ListsAt(Append(m, t.number - 1, Centre(|tiles|, width)), l, tiles + [t], width, n)
  {
    hide Places, Centre, Centres;
    PlacesSnoc(tiles, t, l, n);
    if n == t.number - 1 {
      CentresSnoc(Places(tiles, l, n), |tiles|, width);
    } else {
      assert Places(tiles, l, n) + [] == Places(tiles, l, n);
    }
  }

  predicate Joins(t: TeleTile, l: List) {
    t.number > 0 && t.kind != 0 && ListOf(t.kind) == l
  }

  lemma NothingListed(l: List, width: nat)
    requires width > 0
    ensures Lists(map[], l, [], width)
  {
  }

  // Any other tile leaves the list as it is.
  lemma OtherTile(m: map<int, seq<Vec2>>, l: List, tiles: seq<TeleTile>, t: TeleTile, width: nat)
    requires width > 0 && Lists(m, l, tiles, width)
    requires !Joins(t, l)
    ensures Lists(m, l, tiles + [t], width)
  {
    hide ListsAt;
    forall n ensures ListsAt(m, l, tiles + [t], width, n) {
      OtherAt(m, l, tiles, t, width, n);
    }
  }

  lemma OtherAt(m: map<int, seq<Vec2>>, l: List, tiles: seq<TeleTile>, t: TeleTile, width: nat, n: int)
    requires width > 0 && ListsAt(m, l, tiles, width, n) && !Joins(t, l)
    ensures ListsAt(m, l, tiles + [t], width, n)
  {
    hide Places, Centre, Centres;
    PlacesSnoc(tiles, t, l, n);
    assert Places(tiles, l, n) + [] == Places(tiles, l, n);
  }

  class TeleMap {
    var width: nat
    var height: nat
    var teleIns: map<int, seq<Vec2>>
    var teleOuts: map<int, seq<Vec2>>
    var teleCheckOuts: map<int, seq<Vec2>>
    var teleOthers: map<int, seq<Vec2>>
    // The tiles the index was made from.
    ghost var tiles: seq<TeleTile>

    ghost predicate Valid()
      reads this
    {
      && width > 0 && height > 0
      && Lists(teleIns, Ins, tiles, width) && Lists(teleOuts, Outs, tiles, width)
      && Lists(teleCheckOuts, CheckOuts, tiles, width) && Lists(teleOthers, Others, tiles, width)
    }

    /** CCollision::Init, once the tele layer was found to be large enough. */
    method Init(layer: array<TeleTile>, w: nat, h: nat)
      requires w > 0 && h > 0 && layer.Length >= w * h
      modifies this
      ensures Valid() && width == w && height == h && tiles == layer[..w * h]
    {
      width, height := w, h;
      teleIns, teleOuts, teleCheckOuts, teleOthers := map[], map[], map[], map[];
      tiles := [];
      var i := 0;
      NothingListed(Ins, w);
      NothingListed(Outs, w);
      NothingListed(CheckOuts, w);
      NothingListed(Others, w);
      hide Lists;
      while i < w * h
        invariant 0 <= i <= w * h && Valid() && width == w && height == h && tiles == layer[..i]
      {
        AddTile(layer[i], i);
        i := i + 1;
      }
    }

    method AddTile(t: TeleTile, i: nat)
      requires Valid() && i == |tiles|
      modifies this
      ensures Valid() && width == old(width) && height == old(height) && tiles == old(tiles) + [t]
    {
      hide Lists, Places, Append;
      KeepOthers(t);
      var pos := Centre(i, width);
      if t.number > 0 {
        if t.kind == TILE_TELEIN {
          ListedTile(teleIns, Ins, tiles, t, width);
          teleIns := Append(teleIns, t.number - 1, pos);
        } else if t.kind == TILE_TELEOUT {
          ListedTile(teleOuts, Outs, tiles, t, width);
          teleOuts := Append(teleOuts, t.number - 1, pos);
        } else if t.kind == TILE_TELECHECKOUT {
          ListedTile(teleCheckOuts, CheckOuts, tiles, t, width);
          teleCheckOuts := Append(teleCheckOuts, t.number - 1, pos);
        } else if t.kind != 0 {
          ListedTile(teleOthers, Others, tiles, t, width);
          teleOthers := Append(teleOthers, t.number - 1, pos);
        }
      }
      tiles := tiles + [t];
    }

    // The lists that a tile does not go to stay right.
    lemma KeepOthers(t: TeleTile)
      requires Valid()
      ensures !Joins(t, Ins) ==> Lists(teleIns, Ins, tiles + [t], width)
      ensures !Joins(t, Outs) ==> Lists(teleOuts, Outs, tiles + [t], width)
      ensures !Joins(t, CheckOuts) ==> Lists(teleCheckOuts, CheckOuts, tiles + [t], width)
      ensures !Joins(t, Others) ==> Lists(teleOthers, Others, tiles + [t], width)
    {
      hide Lists;
      if !Joins(t, Ins) {
        OtherTile(teleIns, Ins, tiles, t, width);
      }
      if !Joins(t, Outs) {
        OtherTile(teleOuts, Outs, tiles, t, width);
      }
      if !Joins(t, CheckOuts) {
        OtherTile(teleCheckOuts, CheckOuts, tiles, t, width);
      }
      if !Joins(t, Others) {
        OtherTile(teleOthers, Others, tiles, t, width);
      }
    }

    /** The centres of all teleporters numbered n + 1, in the order of the enumeration. */
    ghost function All(n: int): seq<Vec2>
      requires width > 0
      reads this
    {
      Centres(AllPlaces(tiles, n), width)
    }

    lemma AllSplits(n: int)
      requires Valid()
      ensures |All(n)| == |AllPlaces(tiles, n)|
      ensures All(n) == At(teleIns, n) + At(teleOuts, n) + At(teleCheckOuts, n) + At(teleOthers, n)
    {
      hide Places, Centre, Centres;
      var a, b := Places(tiles, Ins, n), Places(tiles, Outs, n);
      var c, d := Places(tiles, CheckOuts, n), Places(tiles, Others, n);
      assert ListsAt(teleIns, Ins, tiles, width, n) && ListsAt(teleOuts, Outs, tiles, width, n);
      assert ListsAt(teleCheckOuts, CheckOuts, tiles, width, n) && ListsAt(teleOthers, Others, tiles, width, n);
      assert At(teleIns, n) == Centres(a, width) && At(teleOuts, n) == Centres(b, width);
      assert At(teleCheckOuts, n) == Centres(c, width) && At(teleOthers, n) == Centres(d, width);
      hide Lists;
      CentresConcat(a + b + c, d, width);
      CentresConcat(a + b, c, width);
      CentresConcat(a, b, width);
    }

    /** The k-th centre, or (-1, -1) beyond the last. */
    method TeleAllGet(n: int, k: nat) returns (pos: Vec2)
      requires Valid()
      ensures pos == if k < |All(n)| then All(n)[k] else Vec2(-1.0, -1.0)
    {
      hide Lists, All;
      AllSplits(n);
      FourLists(At(teleIns, n), At(teleOuts, n), At(teleCheckOuts, n), At(teleOthers, n), k);
      var offset := k;
      if n in teleIns {
        if |teleIns[n]| > offset {
          return teleIns[n][offset];
        }
        offset := offset - |teleIns[n]|;
      }
      if n in teleOuts {
        if |teleOuts[n]| > offset {
          return teleOuts[n][offset];
        }
        offset := offset - |teleOuts[n]|;
      }
      if n in teleCheckOuts {
        if |teleCheckOuts[n]| > offset {
          return teleCheckOuts[n][offset];
        }
        offset := offset - |teleCheckOuts[n]|;
      }
      if n in teleOthers {
        if |teleOthers[n]| > offset {
          return teleOthers[n][offset];
        }
      }
      return Vec2(-1.0, -1.0);
    }

    method TeleAllSize(n: int) returns (total: nat)
      requires Valid()
      ensures total == |AllPlaces(tiles, n)| == |All(n)|
    {
      hide Lists, All, AllPlaces;
      AllSplits(n);
      total := 0;
      if n in teleIns {
        total := total + |teleIns[n]|;
      }
      if n in teleOuts {
        total := total + |teleOuts[n]|;
      }
      if n in teleCheckOuts {
        total := total + |teleCheckOuts[n]|;
      }
      if n in teleOthers {
        total := total + |teleOthers[n]|;
      }
    }
  }

  // Where position k of four lists in a row is found.
  lemma FourLists(a: seq<Vec2>, b: seq<Vec2>, c: seq<Vec2>, d: seq<Vec2>, k: nat)
    ensures var all := a + b + c + d;
      var kb := k - |a|;
      var kc := kb - |b|;
      var kd := kc - |c|;
      && |all| == |a| + |b| + |c| + |d|
      && (k < |a| ==> all[k] == a[k])
      && (0 <= kb < |b| ==> all[k] == b[kb])
      && (0 <= kc < |c| ==> all[k] == c[kc])
      && (0 <= kd < |d| ==> all[k] == d[kd])
  {
  }

  function At(m: map<int, seq<Vec2>>, n: int): seq<Vec2> {
    if n in m then m[n] else []
  }

  // m[n].emplace_back(pos)
  function Append(m: map<int, seq<Vec2>>, n: int, pos: Vec2): map<int, seq<Vec2>> {
    m[n := At(m, n) + [pos]]
  }
}
