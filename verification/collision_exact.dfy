/**
 * What CCollision::MoveBox of src/game/collision.cpp does on the ways that can be told in advance:
 * an open way, and a way along a wall; and which tiles a box stands on.
 */
module CollisionExact {
  import opened Base
  import opened Collision

  // ---------------------------------------------------------------- which tiles a box stands on

  /** Column `col` spans 32 units, half a unit early; the first and the last one reach beyond the map. */
  predicate InSpan(x: real, col: nat, count: nat) {
    && col < count
    && (col > 0 ==> (32 * col) as real - 0.5 <= x)
    && (col < count - 1 ==> x < (32 * col + 32) as real - 0.5)
  }

  lemma RoundWithin(x: real, n: nat)
    ensures n > 0 && n as real - 0.5 <= x ==> n <= RoundToInt(x)
    ensures x < n as real + 0.5 ==> RoundToInt(x) <= n
  {
  }

  /** Every coordinate is in exactly one column. */
  lemma {:induction false} SpanExists(x: real, count: nat) returns (col: nat)
    requires count > 0
    ensures InSpan(x, col, count)
    ensures forall other: nat :: InSpan(x, other, count) ==> other == col
  {
    col := SpanFound(x, count);
    forall other: nat | InSpan(x, other, count) ensures other == col {
      SpanTells(x, col, count);
      SpanTells(x, other, count);
    }
    hide InSpan, RoundToInt, Tile, Clamp;
  }

  lemma {:induction false} SpanFound(x: real, count: nat) returns (col: nat)
    requires count > 0
    ensures InSpan(x, col, count)
    decreases count
  {
    if count == 1 || x >= (32 * (count - 1)) as real - 0.5 {
      col := count - 1;
    } else {
      col := SpanFound(x, count - 1);
    }
  }

  lemma TileWithin(x: int, col: nat, count: nat)
    requires col < count && (col > 0 ==> 32 * col <= x) && (col < count - 1 ==> x <= 32 * col + 31)
    ensures Clamp(Tile(x), 0, count - 1) == col
  {
    if x >= 32 * col + 32 {
      assert x / 32 >= col + 1;
    } else if x >= 32 * col {
      assert x / 32 == col;
    } else {
      assert col == 0;
    }
  }

  lemma SpanTells(x: real, col: nat, count: nat)
    requires InSpan(x, col, count)
    ensures Clamp(Tile(RoundToInt(x)), 0, count - 1) == col
  {
    RoundWithin(x, 32 * col);
    RoundWithin(x, 32 * col + 31);
    TileWithin(RoundToInt(x), col, count);
    hide RoundToInt, Tile, Clamp;
  }

  // A tile that stops a box: solid, or solid and not to be hooked.
  predicate Stops(tile: int) {
    tile == 1 || tile == 3
  }

  function TileAt(t: TileMap, col: nat, row: nat): int
    requires t.Valid() && col < t.width && row < t.height
  {
    t.IndexInRange(col, row);
    t.tiles[row * t.width + col]
  }

  lemma PointTells(t: TileMap, x: real, y: real, col: nat, row: nat)
    requires t.Valid() && InSpan(x, col, t.width) && InSpan(y, row, t.height)
    ensures t.CheckPoint(x, y) <==> Stops(TileAt(t, col, row))
  {
    SpanTells(x, col, t.width);
    SpanTells(y, row, t.height);
    hide RoundToInt, Tile, Clamp, InSpan;
  }

  /** A box is free exactly when none of the four tiles at its corners stops it. */
  lemma FreeIff(c: Course, pos: Vec2, left: nat, right: nat, top: nat, bottom: nat)
    requires c.Valid()
    requires InSpan(pos.x - c.size.x / 2.0, left, c.tiles.width)
    requires InSpan(pos.x + c.size.x / 2.0, right, c.tiles.width)
    requires InSpan(pos.y - c.size.y / 2.0, top, c.tiles.height)
    requires InSpan(pos.y + c.size.y / 2.0, bottom, c.tiles.height)
    ensures c.Free(pos) <==>
      && !Stops(TileAt(c.tiles, left, top)) && !Stops(TileAt(c.tiles, right, top))
      && !Stops(TileAt(c.tiles, left, bottom)) && !Stops(TileAt(c.tiles, right, bottom))
  {
    hide Course.Free, TileMap.CheckPoint, InSpan, TileAt, Stops;
    var hx, hy := c.size.x / 2.0, c.size.y / 2.0;
    Corners(c, pos, hx, hy);
    PointTells(c.tiles, pos.x - hx, pos.y - hy, left, top);
    PointTells(c.tiles, pos.x + hx, pos.y - hy, right, top);
    PointTells(c.tiles, pos.x - hx, pos.y + hy, left, bottom);
    PointTells(c.tiles, pos.x + hx, pos.y + hy, right, bottom);
  }

  lemma Corners(c: Course, pos: Vec2, hx: real, hy: real)
    requires c.Valid() && hx == c.size.x / 2.0 && hy == c.size.y / 2.0
    ensures c.Free(pos) <==>
      && !c.tiles.CheckPoint(pos.x - hx, pos.y - hy) && !c.tiles.CheckPoint(pos.x + hx, pos.y - hy)
      && !c.tiles.CheckPoint(pos.x - hx, pos.y + hy) && !c.tiles.CheckPoint(pos.x + hx, pos.y + hy)
  {
    hide TileMap.CheckPoint;
  }

  // ---------------------------------------------------------------- an open way

  // More than the 0.00001 from which on a box is moved at all.
  predicate Stirs(v: Vec2) {
    LengthSquared(v) > 0.00001 * 0.00001
  }

  lemma MovedIsWalk(c: Course, m: Motion, max: nat)
    requires c.Valid()
    ensures Moved(c, m, max) == if Stirs(m.vel) then Walk(c, m, 1.0 / (max + 1) as real, max + 1) else m
  {
    hide Walk, LengthSquared;
  }

  // k times the step d from x.
  function Along(x: real, d: real, k: nat): real {
    if k == 0 then x else Along(x, d, k - 1) + d
  }

  lemma {:induction false} AlongIs(x: real, d: real, k: nat)
    ensures Along(x, d, k) == x + k as real * d
  {
    if k > 0 {
      AlongIs(x, d, k - 1);
      OneMore(k, d);
    }
  }

  // A fraction 1 / n of the speed, n times, is the speed.
  lemma WholeWay(x: real, v: real, n: nat, f: real, d: real)
    requires n > 0 && f == 1.0 / n as real && d == v * f
    ensures Along(x, d, n) == x + v
  {
    AlongIs(x, d, n);
    WholeSpeed(v, n as real, f);
  }

  lemma AheadIs(s: Motion, f: real, dx: real, dy: real)
    requires dx == s.vel.x * f && dy == s.vel.y * f
    ensures Ahead(s, f) == Vec2(s.pos.x + dx, s.pos.y + dy)
  {
  }

  // Where a box is after k sub-steps that nothing stops.
  function Point(m: Motion, f: real, k: nat): Vec2 {
    if k == 0 then m.pos else Ahead(m.(pos := Point(m, f, k - 1)), f)
  }

  lemma {:induction false} PointIs(m: Motion, f: real, dx: real, dy: real, k: nat)
    requires dx == m.vel.x * f && dy == m.vel.y * f
    ensures Point(m, f, k) == Vec2(Along(m.pos.x, dx, k), Along(m.pos.y, dy, k))
  {
    if k > 0 {
      PointIs(m, f, dx, dy, k - 1);
      AheadIs(m.(pos := Point(m, f, k - 1)), f, dx, dy);
    }
    hide Ahead;
  }

  ghost predicate OpenWay(c: Course, m: Motion, f: real, n: nat)
    requires c.Valid()
  {
    forall k: nat :: 0 < k <= n ==> c.Free(Point(m, f, k))
  }

  lemma OpenStep(c: Course, s: Motion, f: real)
    requires c.Valid() && c.Free(Ahead(s, f))
    ensures SubStep(c, s, f) == s.(pos := Ahead(s, f))
  {
    hide Ahead, Bounced, Course.Free;
  }

  lemma {:induction false} OpenWalk(c: Course, m: Motion, f: real, n: nat, k: nat)
    requires c.Valid() && OpenWay(c, m, f, n) && k <= n
    ensures Walk(c, m, f, k) == m.(pos := Point(m, f, k))
  {
    hide Ahead, SubStep, Course.Free;
    if k > 0 {
      OpenWalk(c, m, f, n, k - 1);
      assert c.Free(Point(m, f, k));
      OpenStep(c, Walk(c, m, f, k - 1), f);
    }
  }

  /** On an open way the box arrives at pos + vel, as fast as before. */
  lemma MovesOpenWay(c: Course, m: Motion, max: nat)
    requires c.Valid() && Stirs(m.vel) && OpenWay(c, m, 1.0 / (max + 1) as real, max + 1)
    ensures Moved(c, m, max) == m.(pos := Vec2(m.pos.x + m.vel.x, m.pos.y + m.vel.y))
  {
    hide Walk, OpenWay, Stirs, Along, Point;
    var f := 1.0 / (max + 1) as real;
    MovedIsWalk(c, m, max);
    OpenWalk(c, m, f, max + 1, max + 1);
    PointIs(m, f, m.vel.x * f, m.vel.y * f, max + 1);
    WholeWay(m.pos.x, m.vel.x, max + 1, f, m.vel.x * f);
    WholeWay(m.pos.y, m.vel.y, max + 1, f, m.vel.y * f);
    hide Moved;
  }

  // ---------------------------------------------------------------- along a wall

  function RealPower(x: real, k: nat): real {
    if k == 0 then 1.0 else x * RealPower(x, k - 1)
  }

  lemma BouncedOnce(v: real, e: real, p: real, u: real)
    requires u == v * p
    ensures Bounced(u, e) == v * (-e * p)
  {
    var f := -e;
    assert u * f == v * (f * p);
  }

  // A box that only y is closed to, after one sub-step, and after k of them.
  function SlidX(c: Course, s: Motion, f: real): Motion {
    Motion(Vec2(Ahead(s, f).x, s.pos.y), Vec2(s.vel.x, Bounced(s.vel.y, c.ey)), s.grounded || Lands(c, s))
  }

  function SlideX(c: Course, m: Motion, f: real, k: nat): Motion {
    if k == 0 then m else SlidX(c, SlideX(c, m, f, k - 1), f)
  }

  // The same for x, which never grounds a box.
  function SlidY(c: Course, s: Motion, f: real): Motion {
    Motion(Vec2(s.pos.x, Ahead(s, f).y), Vec2(Bounced(s.vel.x, c.ex), s.vel.y), s.grounded)
  }

  function SlideY(c: Course, m: Motion, f: real, k: nat): Motion {
    if k == 0 then m else SlidY(c, SlideY(c, m, f, k - 1), f)
  }

  // The next sub-step is blocked, by what is straight ahead on this axis, and not on the other.
  predicate BlockedY(c: Course, s: Motion, f: real)
    requires c.Valid()
  {
    var next := Ahead(s, f);
    !c.Free(next) && !c.Free(Vec2(s.pos.x, next.y)) && c.Free(Vec2(next.x, s.pos.y))
  }

  predicate BlockedX(c: Course, s: Motion, f: real)
    requires c.Valid()
  {
    var next := Ahead(s, f);
    !c.Free(next) && c.Free(Vec2(s.pos.x, next.y)) && !c.Free(Vec2(next.x, s.pos.y))
  }

  lemma StepSlides(c: Course, s: Motion, f: real)
    requires c.Valid()
    ensures BlockedY(c, s, f) ==> SubStep(c, s, f) == SlidX(c, s, f)
    ensures BlockedX(c, s, f) ==> SubStep(c, s, f) == SlidY(c, s, f)
  {
    hide Ahead, Bounced, Course.Free;
  }

  lemma {:induction false} WalkSlides(c: Course, m: Motion, f: real, n: nat)
    requires c.Valid()
    ensures (forall k: nat :: k < n ==> BlockedY(c, SlideX(c, m, f, k), f)) ==> Walk(c, m, f, n) == SlideX(c, m, f, n)
    ensures (forall k: nat :: k < n ==> BlockedX(c, SlideY(c, m, f, k), f)) ==> Walk(c, m, f, n) == SlideY(c, m, f, n)
  {
    hide SubStep, BlockedX, BlockedY, SlidX, SlidY;
    if n > 0 {
      WalkSlides(c, m, f, n - 1);
      StepSlides(c, Walk(c, m, f, n - 1), f);
    }
  }

  // Where sliding leads: the open axis as if nothing was there, the other one at rest and bouncing.
  lemma {:induction false} SlideXIs(c: Course, m: Motion, f: real, d: real, k: nat)
    requires d == m.vel.x * f
    ensures var s := SlideX(c, m, f, k);
      && s.pos == Vec2(Along(m.pos.x, d, k), m.pos.y)
      && s.vel == Vec2(m.vel.x, m.vel.y * RealPower(-c.ey, k))
  {
    hide Bounced;
    if k > 0 {
      SlideXIs(c, m, f, d, k - 1);
      var s := SlideX(c, m, f, k - 1);
      AheadIs(s, f, d, s.vel.y * f);
      BouncedOnce(m.vel.y, c.ey, RealPower(-c.ey, k - 1), s.vel.y);
      hide Ahead, Lands;
    }
  }

  lemma {:induction false} SlideYIs(c: Course, m: Motion, f: real, d: real, k: nat)
    requires d == m.vel.y * f
    ensures var s := SlideY(c, m, f, k);
      && s.pos == Vec2(m.pos.x, Along(m.pos.y, d, k))
      && s.vel == Vec2(m.vel.x * RealPower(-c.ex, k), m.vel.y) && s.grounded == m.grounded
  {
    hide Bounced;
    if k > 0 {
      SlideYIs(c, m, f, d, k - 1);
      var s := SlideY(c, m, f, k - 1);
      AheadIs(s, f, s.vel.x * f, d);
      BouncedOnce(m.vel.x, c.ex, RealPower(-c.ex, k - 1), s.vel.x);
      hide Ahead;
    }
  }

  /** A slide grounds the box exactly if one of its sub-steps goes down onto the floor with elasticity. */
  lemma {:induction false} SlideGrounds(c: Course, m: Motion, f: real, k: nat)
    ensures SlideX(c, m, f, k).grounded <==>
      m.grounded || (c.ey > 0.0 && exists j: nat :: j < k && SlideX(c, m, f, j).vel.y > 0.0)
  {
    hide Ahead, Bounced;
    if k > 0 {
      SlideGrounds(c, m, f, k - 1);
      var s := SlideX(c, m, f, k - 1);
      assert SlideX(c, m, f, k).grounded == (s.grounded || (c.ey > 0.0 && s.vel.y > 0.0));
      hide SlideX;
    }
  }

  // Through to the end in x, at the height of the start, after n bounces in y.
  predicate SlidThroughX(c: Course, m: Motion, t: Motion, n: nat) {
    && t.pos == Vec2(m.pos.x + m.vel.x, m.pos.y)
    && t.vel == Vec2(m.vel.x, m.vel.y * RealPower(-c.ey, n))
  }

  predicate SlidThroughY(c: Course, m: Motion, t: Motion, n: nat) {
    && t.pos == Vec2(m.pos.x, m.pos.y + m.vel.y)
    && t.vel == Vec2(m.vel.x * RealPower(-c.ex, n), m.vel.y) && t.grounded == m.grounded
  }

  lemma SlideArrives(c: Course, m: Motion, f: real, n: nat)
    requires n > 0 && f == 1.0 / n as real
    ensures SlidThroughX(c, m, SlideX(c, m, f, n), n) && SlidThroughY(c, m, SlideY(c, m, f, n), n)
  {
    hide Along, SlideX, SlideY, RealPower;
    var dx, dy := m.vel.x * f, m.vel.y * f;
    SlideXIs(c, m, f, dx, n);
    SlideYIs(c, m, f, dy, n);
    WholeWay(m.pos.x, m.vel.x, n, f, dx);
    WholeWay(m.pos.y, m.vel.y, n, f, dy);
  }

  /**
   * Where only y is closed all the way, the box still arrives at pos.x + vel.x, at its height, its
   * speed in y turned and scaled by the elasticity at every sub-step; the same for x.
   */
  lemma MovesAlong(c: Course, m: Motion, max: nat)
    requires c.Valid() && Stirs(m.vel)
    ensures var f := 1.0 / (max + 1) as real;
      (forall k: nat :: k <= max ==> BlockedY(c, SlideX(c, m, f, k), f)) ==>
        SlidThroughX(c, m, Moved(c, m, max), max + 1)
    ensures var f := 1.0 / (max + 1) as real;
      (forall k: nat :: k <= max ==> BlockedX(c, SlideY(c, m, f, k), f)) ==>
        SlidThroughY(c, m, Moved(c, m, max), max + 1)
  {
    hide Walk, Stirs, SlideX, SlideY, BlockedX, BlockedY, SlidThroughX, SlidThroughY;
    var f := 1.0 / (max + 1) as real;
    MovedIsWalk(c, m, max);
    WalkSlides(c, m, f, max + 1);
    SlideArrives(c, m, f, max + 1);
    hide Moved;
  }

  /** Closed on both axes, or only at the corner, the box stays and both speeds turn. */
  lemma StaysAndTurns(c: Course, s: Motion, f: real)
    requires c.Valid() && !c.Free(Ahead(s, f))
    requires c.Free(Vec2(s.pos.x, Ahead(s, f).y)) == c.Free(Vec2(Ahead(s, f).x, s.pos.y))
    ensures SubStep(c, s, f) ==
      Motion(s.pos, Vec2(Bounced(s.vel.x, c.ex), Bounced(s.vel.y, c.ey)), s.grounded || Lands(c, s))
  {
    hide Ahead, Bounced, Course.Free;
  }
}
