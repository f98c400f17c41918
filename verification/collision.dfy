/**
 * Moving a box through the tile map: CCollision::MoveBox of src/game/collision.cpp. Coordinates
 * are reals, so that floating-point rounding plays no part.
 */
module Collision {
  import opened Base

  const TILE_SOLID := 1
  const TILE_NOHOOK := 3
  const TILE_NOLASER := 4

  datatype Vec2 = Vec2(x: real, y: real)

  // ---------------------------------------------------------------- the tile map

  // round_to_int: to the nearest integer, halves away from zero.
  function RoundToInt(f: real): int {
    if f > 0.0 then (f + 0.5).Floor else -((0.5 - f).Floor)
  }

  // x / 32 in C, which truncates.
  function Tile(x: int): int {
    if x >= 0 then x / 32 else -((-x) / 32)
  }

  function Clamp(x: int, lo: int, hi: int): (r: int)
    requires lo <= hi
    ensures lo <= r <= hi
  {
    if x < lo then lo else if x > hi then hi else x
  }

  datatype TileMap = TileMap(width: nat, height: nat, tiles: seq<int>) {
    predicate Valid() {
      width > 0 && height > 0 && |tiles| == width * height
    }

    function Column(x: int): (c: int)
      requires Valid()
      ensures 0 <= c < width
    {
      Clamp(Tile(x), 0, width - 1)
    }

    function Row(y: int): (r: int)
      requires Valid()
      ensures 0 <= r < height
    {
      Clamp(Tile(y), 0, height - 1)
    }

    function Index(x: int, y: int): (i: int)
      requires Valid()
      ensures 0 <= i < |tiles|
    {
      IndexInRange(Column(x), Row(y));
      Row(y) * width + Column(x)
    }

    lemma IndexInRange(c: int, r: int)
      requires Valid() && 0 <= c < width && 0 <= r < height
      ensures 0 <= r * width + c < |tiles|
    {
      assert r * width <= (height - 1) * width;
      assert (height - 1) * width + width == height * width;
    }

    function GetTile(x: int, y: int): int
      requires Valid()
    {
      var t := tiles[Index(x, y)];
      if TILE_SOLID <= t <= TILE_NOLASER then t else 0
    }

    predicate IsSolid(x: int, y: int)
      requires Valid()
    {
      var t := GetTile(x, y);
      t == TILE_SOLID || t == TILE_NOHOOK
    }

    predicate CheckPoint(x: real, y: real)
      requires Valid()
    {
      IsSolid(RoundToInt(x), RoundToInt(y))
    }

    /** Whether one of the four corners of a box is solid. */
    predicate TestBox(pos: Vec2, size: Vec2)
      requires Valid()
    {
      var hx, hy := size.x * 0.5, size.y * 0.5;
      || CheckPoint(pos.x - hx, pos.y - hy)
      || CheckPoint(pos.x + hx, pos.y - hy)
      || CheckPoint(pos.x - hx, pos.y + hy)
      || CheckPoint(pos.x + hx, pos.y + hy)
    }
  }

  // ---------------------------------------------------------------- one sub-step

  datatype Motion = Motion(pos: Vec2, vel: Vec2, grounded: bool)

  // What does not change during a move: the map, the box, the clamped elasticity.
  datatype Course = Course(tiles: TileMap, size: Vec2, ex: real, ey: real) {
    predicate Valid() {
      tiles.Valid() && -1.0 <= ex <= 1.0 && -1.0 <= ey <= 1.0
    }

    predicate Free(pos: Vec2)
      requires Valid()
    {
      !tiles.TestBox(pos, size)
    }
  }

  function Ahead(m: Motion, fraction: real): Vec2 {
    Vec2(m.pos.x + m.vel.x * fraction, m.pos.y + m.vel.y * fraction)
  }

  // Landing on something: moving down, with positive vertical elasticity.
  predicate Lands(c: Course, m: Motion) {
    c.ey > 0.0 && m.vel.y > 0.0
  }

  // A speed after hitting something.
  function Bounced(v: real, e: real): real {
    v * -e
  }

  /** Where one sub-step takes the box, and how it bounces. */
  function SubStep(c: Course, m: Motion, fraction: real): Motion
    requires c.Valid()
  {
    var next := Ahead(m, fraction);
    if c.Free(next) then Motion(next, m.vel, m.grounded)
    else
      var hitY := !c.Free(Vec2(m.pos.x, next.y));
      var y := if hitY then m.pos.y else next.y;
      var hitX := !c.Free(Vec2(next.x, m.pos.y));
      var x := if hitX then m.pos.x else next.x;
      if !hitX && !hitY then
        // neither axis alone hits: a corner
        Motion(m.pos, Vec2(Bounced(m.vel.x, c.ex), Bounced(m.vel.y, c.ey)), m.grounded || Lands(c, m))
      else
        Motion(Vec2(x, y),
               Vec2(if hitX then Bounced(m.vel.x, c.ex) else m.vel.x, if hitY then Bounced(m.vel.y, c.ey) else m.vel.y),
               m.grounded || (hitY && Lands(c, m)))
  }

  /** n sub-steps. */
  function Walk(c: Course, m: Motion, fraction: real, n: nat): Motion
    requires c.Valid()
    decreases n
  {
    if n == 0 then m else SubStep(c, Walk(c, m, fraction, n - 1), fraction)
  }

  // ---------------------------------------------------------------- what every sub-step keeps

  lemma Monotone(a: real, b: real, f: real)
    requires a <= b && f >= 0.0
    ensures a * f <= b * f
  {
    assert (b - a) * f >= 0.0;
  }

  lemma AbsProduct(x: real, y: real)
    ensures Abs(x * y) == Abs(x) * Abs(y)
  {
    var a, b := Abs(x), Abs(y);
    if x >= 0.0 && y >= 0.0 {
      assert x * y == a * b && a * b >= 0.0;
    } else if x >= 0.0 {
      assert x * y == -(a * b) && a * b >= 0.0;
    } else if y >= 0.0 {
      assert x * y == -(a * b) && a * b >= 0.0;
    } else {
      assert x * y == a * b && a * b >= 0.0;
    }
  }

  lemma Bounce(x: real, e: real)
    requires -1.0 <= e <= 1.0
    ensures Abs(Bounced(x, e)) <= Abs(x)
  {
    var f := -e;
    AbsProduct(x, f);
    ScaledDown(Abs(x), Abs(f));
    assert Bounced(x, e) == x * f;
  }

  lemma ScaledDown(a: real, b: real)
    requires a >= 0.0 && b <= 1.0
    ensures a * b <= a
  {
    assert a * (1.0 - b) >= 0.0;
    assert a * (1.0 - b) == a - a * b;
  }

  lemma SubStepFree(c: Course, m: Motion, fraction: real)
    requires c.Valid() && c.Free(m.pos)
    ensures c.Free(SubStep(c, m, fraction).pos)
  {
  }

  lemma SubStepSlows(c: Course, m: Motion, fraction: real)
    requires c.Valid()
    ensures var t := SubStep(c, m, fraction);
      Abs(t.vel.x) <= Abs(m.vel.x) && Abs(t.vel.y) <= Abs(m.vel.y)
  {
    Bounce(m.vel.x, c.ex);
    Bounce(m.vel.y, c.ey);
    hide TileMap.TestBox, Abs, Bounced;
  }

  lemma SubStepMoves(c: Course, m: Motion, fraction: real)
    requires c.Valid() && fraction >= 0.0
    ensures var t := SubStep(c, m, fraction);
      && Abs(t.pos.x - m.pos.x) <= Abs(m.vel.x) * fraction
      && Abs(t.pos.y - m.pos.y) <= Abs(m.vel.y) * fraction
  {
    AbsProduct(m.vel.x, fraction);
    AbsProduct(m.vel.y, fraction);
    hide TileMap.TestBox;
  }

  // Without speed nothing changes, so leaving the loop early changes nothing either.
  lemma SubStepStill(c: Course, m: Motion, fraction: real)
    requires c.Valid() && m.vel == Vec2(0.0, 0.0)
    ensures SubStep(c, m, fraction) == m
  {
    hide TileMap.TestBox;
    assert Ahead(m, fraction) == m.pos;
  }

  lemma {:induction false} WalkStill(c: Course, m: Motion, fraction: real, k: nat, n: nat)
    requires c.Valid() && k <= n && Walk(c, m, fraction, k).vel == Vec2(0.0, 0.0)
    ensures Walk(c, m, fraction, n) == Walk(c, m, fraction, k)
    decreases n
  {
    hide SubStep;
    if k < n {
      WalkStill(c, m, fraction, k, n - 1);
      SubStepStill(c, Walk(c, m, fraction, n - 1), fraction);
    }
  }

  /** From a free position, no sub-step ends with a corner in a solid tile. */
  lemma {:induction false} WalkFree(c: Course, m: Motion, fraction: real, k: nat)
    requires c.Valid() && c.Free(m.pos)
    ensures c.Free(Walk(c, m, fraction, k).pos)
    decreases k
  {
    hide SubStep;
    if k > 0 {
      WalkFree(c, m, fraction, k - 1);
      SubStepFree(c, Walk(c, m, fraction, k - 1), fraction);
    }
  }

  /** Per axis the speed never grows, and the displacement is bounded by the initial speed. */
  lemma {:induction false} WalkBounds(c: Course, m: Motion, fraction: real, k: nat)
    requires c.Valid() && fraction >= 0.0
    ensures var t := Walk(c, m, fraction, k);
      && Abs(t.vel.x) <= Abs(m.vel.x) && Abs(t.vel.y) <= Abs(m.vel.y)
      && Abs(t.pos.x - m.pos.x) <= k as real * (Abs(m.vel.x) * fraction)
      && Abs(t.pos.y - m.pos.y) <= k as real * (Abs(m.vel.y) * fraction)
    decreases k
  {
    hide SubStep, Abs;
    if k == 0 {
      BoundedStart(m.pos.x, Abs(m.vel.x) * fraction);
      BoundedStart(m.pos.y, Abs(m.vel.y) * fraction);
    } else {
      WalkBounds(c, m, fraction, k - 1);
      var s := Walk(c, m, fraction, k - 1);
      SubStepSlows(c, s, fraction);
      SubStepMoves(c, s, fraction);
      var t := Walk(c, m, fraction, k);
      Monotone(Abs(s.vel.x), Abs(m.vel.x), fraction);
      Monotone(Abs(s.vel.y), Abs(m.vel.y), fraction);
      BoundedStep(m.pos.x, s.pos.x, t.pos.x, Abs(m.vel.x) * fraction, k);
      BoundedStep(m.pos.y, s.pos.y, t.pos.y, Abs(m.vel.y) * fraction, k);
    }
  }

  lemma BoundedStart(x: real, p: real)
    ensures Abs(x - x) <= 0 as real * p
  {
  }

  lemma BoundedStep(x0: real, x1: real, x2: real, p: real, k: nat)
    requires k > 0 && Abs(x1 - x0) <= (k - 1) as real * p && Abs(x2 - x1) <= p
    ensures Abs(x2 - x0) <= k as real * p
  {
    OneMore(k, p);
  }

  lemma OneMore(k: nat, p: real)
    requires k > 0
    ensures k as real * p == (k - 1) as real * p + p
  {
    assert k as real == (k - 1) as real + 1.0;
  }

  // ---------------------------------------------------------------- how far one sub-step goes

  function LengthSquared(v: Vec2): (r: real)
    ensures r >= 0.0
  {
    v.x * v.x + v.y * v.y
  }

  /** `max` is the length of `v` with its fraction cut off. */
  predicate Truncated(v: Vec2, max: nat) {
    max as real * max as real <= LengthSquared(v) < (max + 1) as real * (max + 1) as real
  }

  lemma {:induction false} TruncatedBelow(v: Vec2, n: nat) returns (max: nat)
    requires LengthSquared(v) < n as real * n as real
    ensures Truncated(v, max)
    decreases n
  {
    assert n > 0;
    if (n - 1) as real * (n - 1) as real <= LengthSquared(v) {
      max := n - 1;
    } else {
      max := TruncatedBelow(v, n - 1);
    }
  }

  lemma TruncatedExists(v: Vec2)
    ensures exists max: nat :: Truncated(v, max)
  {
    var l := LengthSquared(v);
    var n := l.Floor + 1;
    assert n as real > l && n as real >= 1.0;
    assert n as real * n as real >= n as real * 1.0;
    var max := TruncatedBelow(v, n);
  }

  lemma Square(x: real, y: real)
    requires 0.0 <= x <= y
    ensures x * x <= y * y
  {
    assert x * x <= x * y <= y * y;
  }

  // The fraction of a move that one of n sub-steps covers.
  predicate Share(n: real, f: real) {
    n > 0.0 && f > 0.0 && n * f == 1.0
  }

  lemma ShareOf(n: real)
    requires n > 0.0
    ensures Share(n, 1.0 / n)
  {
    var f := 1.0 / n;
    assert n * f == 1.0;
    if f <= 0.0 {
      Monotone(f, 0.0, n);
    }
  }

  lemma WalkSlows(c: Course, m: Motion, fraction: real, k: nat)
    requires c.Valid() && fraction >= 0.0
    ensures Abs(Walk(c, m, fraction, k).vel.x) <= Abs(m.vel.x)
    ensures Abs(Walk(c, m, fraction, k).vel.y) <= Abs(m.vel.y)
  {
    WalkBounds(c, m, fraction, k);
    hide Walk, Abs;
  }

  lemma SubStepShort(c: Course, s: Motion, v0: Vec2, n: real, f: real)
    requires c.Valid() && Share(n, f) && LengthSquared(v0) < n * n
    requires Abs(s.vel.x) <= Abs(v0.x) && Abs(s.vel.y) <= Abs(v0.y)
    ensures var t := SubStep(c, s, f);
      LengthSquared(Vec2(t.pos.x - s.pos.x, t.pos.y - s.pos.y)) < 1.0
  {
    hide SubStep, Abs;
    var t := SubStep(c, s, f);
    var dx, dy := t.pos.x - s.pos.x, t.pos.y - s.pos.y;
    SubStepMoves(c, s, f);
    AxisStep(dx, s.vel.x, v0.x, f);
    AxisStep(dy, s.vel.y, v0.y, f);
    BothAxes(dx, dy, v0.x * v0.x, v0.y * v0.y, n, f);
  }

  /** Every sub-step of a move is shorter than 1. */
  lemma StepShort(c: Course, m: Motion, max: nat, k: nat)
    requires c.Valid() && Truncated(m.vel, max)
    ensures var f := 1.0 / (max + 1) as real;
      var s, t := Walk(c, m, f, k), Walk(c, m, f, k + 1);
      LengthSquared(Vec2(t.pos.x - s.pos.x, t.pos.y - s.pos.y)) < 1.0
  {
    hide SubStep, Abs, LengthSquared;
    var n := (max + 1) as real;
    var f := 1.0 / n;
    ShareOf(n);
    WalkSlows(c, m, f, k);
    SubStepShort(c, Walk(c, m, f, k), m.vel, n, f);
    hide Share;
  }

  lemma AxisStep(d: real, v: real, v0: real, f: real)
    requires Abs(d) <= Abs(v) * f && Abs(v) <= Abs(v0) && f >= 0.0
    ensures d * d <= v0 * v0 * (f * f)
  {
    var a := Abs(v0) * f;
    Monotone(Abs(v), Abs(v0), f);
    Square(Abs(d), a);
    assert a * a == Abs(v0) * Abs(v0) * (f * f);
    assert Abs(d) * Abs(d) == d * d && Abs(v0) * Abs(v0) == v0 * v0;
  }

  lemma BothAxes(dx: real, dy: real, x2: real, y2: real, n: real, f: real)
    requires dx * dx <= x2 * (f * f) && dy * dy <= y2 * (f * f)
    requires x2 + y2 < n * n && Share(n, f)
    ensures dx * dx + dy * dy < 1.0
  {
    var q := f * f;
    UnitSquare(n, f);
    assert x2 * q + y2 * q == (x2 + y2) * q;
    StrictlyMonotone(x2 + y2, n * n, q);
  }

  lemma UnitSquare(n: real, f: real)
    requires n * f == 1.0
    ensures n * n * (f * f) == 1.0 && f * f > 0.0
  {
    assert n * n * (f * f) == (n * f) * (n * f);
    assert f != 0.0;
    SquarePositive(f);
  }

  lemma SquarePositive(f: real)
    requires f != 0.0
    ensures f * f > 0.0
  {
    if f > 0.0 {
      assert f * f > 0.0;
    } else {
      assert -f * -f > 0.0;
    }
  }

  lemma StrictlyMonotone(a: real, b: real, q: real)
    requires a < b && q > 0.0
    ensures a * q < b * q
  {
    assert (b - a) * q > 0.0;
  }

  // Points less than 1 apart on an axis lie in the same tile column or neighbouring ones.
  lemma RoundNear(a: real, b: real)
    requires Abs(a - b) < 1.0
    ensures -1 <= RoundToInt(a) - RoundToInt(b) <= 1
  {
  }

  lemma TileNear(x: int, y: int, hi: int)
    requires -1 <= x - y <= 1 && hi >= 0
    ensures -1 <= Clamp(Tile(x), 0, hi) - Clamp(Tile(y), 0, hi) <= 1
  {
  }

  lemma LessThanOne(dx: real, dy: real)
    requires dx * dx + dy * dy < 1.0
    ensures Abs(dx) < 1.0 && Abs(dy) < 1.0
  {
    assert dx * dx >= 0.0 && dy * dy >= 0.0;
    SmallSquare(dx);
    SmallSquare(dy);
  }

  lemma SmallSquare(d: real)
    requires d * d < 1.0
    ensures Abs(d) < 1.0
  {
    if Abs(d) >= 1.0 {
      Square(1.0, Abs(d));
    }
  }

  /**
   * So a corner at offset (ox, oy) from the centre changes its tile column and its tile row by
   * at most one in a sub-step: the walk cannot jump over a tile.
   */
  lemma CornerTilesNear(c: Course, m: Motion, max: nat, k: nat, ox: real, oy: real)
    requires c.Valid() && Truncated(m.vel, max)
    ensures var f := 1.0 / (max + 1) as real;
      var s, t := Walk(c, m, f, k), Walk(c, m, f, k + 1);
      && -1 <= c.tiles.Column(RoundToInt(t.pos.x + ox)) - c.tiles.Column(RoundToInt(s.pos.x + ox)) <= 1
      && -1 <= c.tiles.Row(RoundToInt(t.pos.y + oy)) - c.tiles.Row(RoundToInt(s.pos.y + oy)) <= 1
  {
    hide SubStep, RoundToInt, Tile;
    StepShort(c, m, max, k);
    var f := 1.0 / (max + 1) as real;
    var s, t := Walk(c, m, f, k), Walk(c, m, f, k + 1);
    LessThanOne(t.pos.x - s.pos.x, t.pos.y - s.pos.y);
    RoundNear(t.pos.x + ox, s.pos.x + ox);
    RoundNear(t.pos.y + oy, s.pos.y + oy);
    TileNear(RoundToInt(t.pos.x + ox), RoundToInt(s.pos.x + ox), c.tiles.width - 1);
    TileNear(RoundToInt(t.pos.y + oy), RoundToInt(s.pos.y + oy), c.tiles.height - 1);
  }

  // What keeps a box from going down in a sub-step: something below it, or the corner it runs into.
  predicate Supported(c: Course, m: Motion, fraction: real)
    requires c.Valid()
  {
    var next := Ahead(m, fraction);
    !c.Free(Vec2(m.pos.x, next.y)) || (!c.Free(next) && c.Free(Vec2(next.x, m.pos.y)))
  }

  lemma SubStepGrounds(c: Course, m: Motion, fraction: real)
    requires c.Valid()
    ensures var t := SubStep(c, m, fraction);
      !m.grounded && t.grounded ==>
        m.vel.y > 0.0 && Supported(c, m, fraction) && t.pos.y == m.pos.y && t.vel.y < 0.0
  {
    if Lands(c, m) {
      BouncesUp(m.vel.y, c.ey);
    }
    hide Bounced;
  }

  lemma BouncesUp(v: real, e: real)
    requires v > 0.0 && e > 0.0
    ensures Bounced(v, e) < 0.0
  {
    var f := -e;
    assert v * f < 0.0;
  }

  // A vertical speed is below any whole number whose square is above that of the whole speed.
  lemma AxisBelow(v: Vec2, n: real)
    requires n > 0.0 && LengthSquared(v) < n * n
    ensures Abs(v.y) < n
  {
    var a := Abs(v.y);
    assert a * a == v.y * v.y;
    assert v.x * v.x >= 0.0;
    if a >= n {
      Square(n, a);
      assert false;
    }
  }

  // Down, and by less than 1.
  predicate ShortDrop(v: real, f: real) {
    0.0 < v * f < 1.0
  }

  // What one sub-step covers at a downward speed.
  lemma ShareBelow(v: real, n: real, f: real)
    requires 0.0 < v < n && Share(n, f)
    ensures ShortDrop(v, f)
  {
    var whole, part := n * f, v * f;
    assert whole == 1.0;
    assert part < whole by { StrictlyMonotone(v, n, f); }
    assert part > 0.0;
  }

  lemma DownShort(v: real, v0: Vec2, n: real, f: real)
    requires v > 0.0 && Abs(v) <= Abs(v0.y) && Share(n, f) && LengthSquared(v0) < n * n
    ensures ShortDrop(v, f)
  {
    AxisBelow(v0, n);
    ShareBelow(v, n, f);
    hide LengthSquared, Share, ShortDrop;
  }

  /**
   * A sub-step from s to t that grounds the box would take it down by less than 1, where something
   * below it or at the corner ahead stops it at its height and turns it upwards.
   */
  predicate GroundsWhereItStands(c: Course, s: Motion, t: Motion, fraction: real)
    requires c.Valid()
  {
    !s.grounded && t.grounded ==>
      ShortDrop(s.vel.y, fraction) && Supported(c, s, fraction) && t.pos.y == s.pos.y && t.vel.y < 0.0
  }

  lemma SubStepStands(c: Course, s: Motion, v0: Vec2, n: real, f: real)
    requires c.Valid() && Share(n, f) && LengthSquared(v0) < n * n && Abs(s.vel.y) <= Abs(v0.y)
    ensures GroundsWhereItStands(c, s, SubStep(c, s, f), f)
  {
    hide SubStep, Supported, LengthSquared, Share, Abs, ShortDrop;
    SubStepGrounds(c, s, f);
    if s.vel.y > 0.0 {
      DownShort(s.vel.y, v0, n, f);
    }
  }

  /** In every sub-step of a move. */
  lemma GroundedOnGround(c: Course, m: Motion, max: nat, k: nat)
    requires c.Valid() && Truncated(m.vel, max)
    ensures var f := 1.0 / (max + 1) as real;
      GroundsWhereItStands(c, Walk(c, m, f, k), Walk(c, m, f, k + 1), f)
  {
    hide SubStep, Abs, LengthSquared, GroundsWhereItStands;
    var n := (max + 1) as real;
    var f := 1.0 / n;
    ShareOf(n);
    WalkSlows(c, m, f, k);
    SubStepStands(c, Walk(c, m, f, k), m.vel, n, f);
    hide Share;
  }

  // ---------------------------------------------------------------- the move

  function ClampReal(x: real, lo: real, hi: real): real
    requires lo <= hi
  {
    if x < lo then lo else if x > hi then hi else x
  }

  function CourseOf(tiles: TileMap, size: Vec2, elasticity: Vec2): Course {
    Course(tiles, size, ClampReal(elasticity.x, -1.0, 1.0), ClampReal(elasticity.y, -1.0, 1.0))
  }

  /** The whole move: max + 1 sub-steps, unless the box hardly moves at all. */
  ghost function Moved(c: Course, m: Motion, max: nat): Motion
    requires c.Valid()
  {
    if LengthSquared(m.vel) > 0.00001 * 0.00001 then Walk(c, m, 1.0 / (max + 1) as real, max + 1) else m
  }

  /** The loop is the whole walk, whatever its early exits, so what the walk keeps it keeps. */
  method MoveBox(tiles: TileMap, size: Vec2, elasticity: Vec2, m: Motion) returns (r: Motion)
    requires tiles.Valid()
    ensures exists max: nat :: Truncated(m.vel, max) && r == Moved(CourseOf(tiles, size, elasticity), m, max)
    ensures Safe(CourseOf(tiles, size, elasticity), m, r)
  {
    hide SubStep, Truncated, Safe;
    r := m;
    TruncatedExists(m.vel);
    var max: nat :| Truncated(m.vel, max);
    ghost var course := CourseOf(tiles, size, elasticity);
    MoveBoxSafe(course, m, max);
    if LengthSquared(m.vel) > 0.00001 * 0.00001 {
      var fraction := 1.0 / (max + 1) as real;
      var c := CourseOf(tiles, size, elasticity);
      var i := 0;
      while i <= max
        invariant 0 <= i <= max + 1
        invariant r == Walk(c, m, fraction, i)
      {
        // no speed left, or too little to make a difference
        if r.vel == Vec2(0.0, 0.0) || Ahead(r, fraction) == r.pos {
          NoProgress(r, fraction);
          WalkStill(c, m, fraction, i, max + 1);
          break;
        }
        r := MoveOnce(c, r, fraction);
        i := i + 1;
      }
    }
  }

  // The body of the loop.
  method MoveOnce(c: Course, m: Motion, fraction: real) returns (r: Motion)
    requires c.Valid()
    ensures r == SubStep(c, m, fraction)
  {
    hide TileMap.TestBox;
    var pos, vel, grounded := m.pos, m.vel, m.grounded;
    var newPos := Ahead(m, fraction);
    if c.tiles.TestBox(newPos, c.size) {
      var hits := 0;
      if c.tiles.TestBox(Vec2(pos.x, newPos.y), c.size) {
        if c.ey > 0.0 && vel.y > 0.0 {
          grounded := true;
        }
        newPos := Vec2(newPos.x, pos.y);
        vel := Vec2(vel.x, Bounced(vel.y, c.ey));
        hits := hits + 1;
      }
      if c.tiles.TestBox(Vec2(newPos.x, pos.y), c.size) {
        newPos := Vec2(pos.x, newPos.y);
        vel := Vec2(Bounced(vel.x, c.ex), vel.y);
        hits := hits + 1;
      }
      // a corner
      if hits == 0 {
        if c.ey > 0.0 && vel.y > 0.0 {
          grounded := true;
        }
        newPos := pos;
        vel := Vec2(Bounced(vel.x, c.ex), Bounced(vel.y, c.ey));
      }
    }
    r := Motion(newPos, vel, grounded);
  }

  lemma NonZeroProduct(x: real, f: real)
    requires f > 0.0 && x * f == 0.0
    ensures x == 0.0
  {
  }

  lemma NoProgress(m: Motion, fraction: real)
    requires fraction > 0.0 && (m.vel == Vec2(0.0, 0.0) || Ahead(m, fraction) == m.pos)
    ensures m.vel == Vec2(0.0, 0.0)
  {
    NonZeroProduct(m.vel.x, fraction);
    NonZeroProduct(m.vel.y, fraction);
  }

  /** A move from a free position ends free, no further per axis than its speed, and no faster. */
  ghost predicate Safe(c: Course, m: Motion, r: Motion)
    requires c.Valid()
  {
    && (c.Free(m.pos) ==> c.Free(r.pos))
    && Abs(r.vel.x) <= Abs(m.vel.x) && Abs(r.vel.y) <= Abs(m.vel.y)
    && Abs(r.pos.x - m.pos.x) <= Abs(m.vel.x) && Abs(r.pos.y - m.pos.y) <= Abs(m.vel.y)
  }

  lemma MoveBoxSafe(c: Course, m: Motion, max: nat)
    requires c.Valid() && Truncated(m.vel, max)
    ensures Safe(c, m, Moved(c, m, max))
  {
    hide Walk, Abs, TileMap.TestBox;
    var n := (max + 1) as real;
    var f := 1.0 / n;
    WalkBounds(c, m, f, max + 1);
    if c.Free(m.pos) {
      WalkFree(c, m, f, max + 1);
    }
    BoundedStart(m.pos.x, 1.0);
    BoundedStart(m.pos.y, 1.0);
    WholeSpeed(Abs(m.vel.x), n, f);
    WholeSpeed(Abs(m.vel.y), n, f);
  }

  lemma WholeSpeed(v: real, n: real, f: real)
    requires n > 0.0 && f == 1.0 / n
    ensures n * (v * f) == v
  {
    assert n * f == 1.0;
    assert n * (v * f) == v * (n * f);
  }
}
