/**
 * CLayers::InitTilemapSkip of src/game/layers.cpp: for each visited tile, how many empty tiles
 * follow it in its row. Walking a row by these counts sees every non-empty tile.
 */
module TilemapSkip {

  datatype TileCell = TileCell(index: int, skip: int)

  // ---------------------------------------------------------------- walking a row

  /**
   * The count at x fits a byte, leads over empty cells only and not beyond the row, and over as
   * many as there are or as fit.
   */
  predicate GoodHop(row: seq<TileCell>, x: int)
    requires 0 <= x < |row|
  {
    var next := x + 1 + row[x].skip;
    && 0 <= row[x].skip <= 254 && next <= |row|
    && (forall k :: x < k < next ==> row[k].index == 0)
    && (row[x].skip < 254 && next < |row| ==> row[next].index != 0)
  }

  /** Good hops lead from a exactly to b. */
  predicate Hops(row: seq<TileCell>, a: int, b: int)
    requires 0 <= a && b <= |row|
    decreases b - a
  {
    a == b || (a < b && GoodHop(row, a) && Hops(row, a + 1 + row[a].skip, b))
  }

  /** The non-empty cells that a plain scan from x finds. */
  function Scan(row: seq<TileCell>, x: int): (found: seq<int>)
    requires 0 <= x <= |row|
    decreases |row| - x
  {
    if x == |row| then [] else (if row[x].index != 0 then [x] else []) + Scan(row, x + 1)
  }

  /** The non-empty cells that the walk from x finds. */
  function Walk(row: seq<TileCell>, x: int): (found: seq<int>)
    requires 0 <= x && Hops(row, x, |row|)
    decreases |row| - x
  {
    if x == |row| then []
    else (if row[x].index != 0 then [x] else []) + Walk(row, x + 1 + row[x].skip)
  }

  lemma {:induction false} ScanEmpty(row: seq<TileCell>, x: int, end: int)
    requires 0 <= x <= end <= |row| && forall k :: x <= k < end ==> row[k].index == 0
    ensures Scan(row, x) == Scan(row, end)
    decreases end - x
  {
    if x < end {
      ScanEmpty(row, x + 1, end);
    }
  }

  /** The accelerated walk finds what the plain scan finds, in the same order. */
  lemma {:induction false} WalkIsScan(row: seq<TileCell>, x: int)
    requires 0 <= x && Hops(row, x, |row|)
    ensures x <= |row| && Walk(row, x) == Scan(row, x)
    decreases |row| - x
  {
    if x < |row| {
      var next := x + 1 + row[x].skip;
      WalkIsScan(row, next);
      ScanEmpty(row, x + 1, next);
    }
  }

  // ---------------------------------------------------------------- filling one row

  // Rows with the same indexes, and the same counts before b.
  predicate Alike(row: seq<TileCell>, row': seq<TileCell>, b: int) {
    && |row| == |row'|
    && (forall k :: 0 <= k < |row| ==> row'[k].index == row[k].index)
    && (forall k :: 0 <= k < |row| && k < b ==> row'[k].skip == row[k].skip)
  }

  lemma {:induction false} HopsAlike(row: seq<TileCell>, row': seq<TileCell>, a: int, b: int)
    requires 0 <= a && b <= |row| && Hops(row, a, b) && Alike(row, row', b)
    ensures Hops(row', a, b)
    decreases b - a
  {
    if a < b {
      HopsAlike(row, row', a + 1 + row[a].skip, b);
    }
  }

  lemma {:induction false} HopsSnoc(row: seq<TileCell>, a: int, b: int)
    requires 0 <= a && b < |row| && Hops(row, a, b) && GoodHop(row, b)
    ensures Hops(row, a, b + 1 + row[b].skip)
    decreases b - a
  {
    var next := b + 1 + row[b].skip;
    if a < b {
      HopsWithin(row, a, b);
      HopsSnoc(row, a + 1 + row[a].skip, b);
    } else {
      assert Hops(row, next, next);
    }
  }

  lemma HopsWithin(row: seq<TileCell>, a: int, b: int)
    requires 0 <= a < b <= |row| && Hops(row, a, b)
    ensures a + 1 + row[a].skip <= b
  {
  }

  // The count `skipped - 1` makes a good hop when CountEmpty found `skipped`.
  lemma HopStored(row: seq<TileCell>, row': seq<TileCell>, x: int, skipped: int)
    requires 0 <= x && Counted(row, x, skipped)
    requires row' == row[x := TileCell(row[x].index, skipped - 1)]
    ensures GoodHop(row', x)
  {
    forall k | x < k < x + skipped ensures row'[k].index == 0 {
      assert row[k].index == 0;
    }
  }

  // The cells after x are empty up to x + skipped, which is as far as 255, the row or the gap goes.
  ghost predicate Counted(row: seq<TileCell>, x: int, skipped: int)
    requires 0 <= x
  {
    && 1 <= skipped <= 255 && x + skipped <= |row|
    && (forall k :: x < k < x + skipped ==> row[k].index == 0)
    && (skipped < 255 && x + skipped < |row| ==> row[x + skipped].index != 0)
  }

  // The walk so far, extended by the new hop.
  lemma HopAdded(row: seq<TileCell>, row': seq<TileCell>, x: int, skipped: int)
    requires 1 <= x && Counted(row, x, skipped) && Hops(row, 1, x)
    requires row' == row[x := TileCell(row[x].index, skipped - 1)]
    ensures Hops(row', 1, x + skipped)
  {
    HopStored(row, row', x, skipped);
    HopsAlike(row, row', 1, x);
    HopsSnoc(row', 1, x);
  }

  // The row of `width` cells at `base`.
  function RowAt(cells: seq<TileCell>, base: int, width: nat): (row: seq<TileCell>)
    requires 0 <= base && base + width <= |cells|
    ensures |row| == width
  {
    cells[base..base + width]
  }

  // Only counts of this row were written.
  ghost predicate RowOnly(was: seq<TileCell>, now: seq<TileCell>, base: int, width: nat)
  {
    && |was| == |now|
    && (forall k :: 0 <= k < |now| ==> now[k].index == was[k].index)
    && (forall k :: 0 <= k < |now| && !(base <= k < base + width) ==> now[k] == was[k])
  }

  /** The inner loops, for one row: afterwards the walk from 1 is good. */
  method InitRow(tiles: array<TileCell>, base: nat, width: nat)
    requires width > 0 && base + width <= tiles.Length
    modifies tiles
    ensures Hops(RowAt(tiles[..], base, width), 1, width)
    ensures RowOnly(old(tiles[..]), tiles[..], base, width)
  {
    hide Hops;
    var x := 1;
    assert Hops(RowAt(tiles[..], base, width), 1, 1) by { HopsNone(RowAt(tiles[..], base, width), 1); }
    while x < width
      invariant 1 <= x <= width && Hops(RowAt(tiles[..], base, width), 1, x)
      invariant RowOnly(old(tiles[..]), tiles[..], base, width)
    {
      ghost var row := RowAt(tiles[..], base, width);
      var skipped := CountEmpty(tiles, base, width, x);
      tiles[base + x] := TileCell(tiles[base + x].index, skipped - 1);
      ghost var row' := RowAt(tiles[..], base, width);
      assert row' == row[x := TileCell(row[x].index, skipped - 1)];
      HopAdded(row, row', x, skipped);
      x := x + skipped;
    }
  }

  lemma HopsNone(row: seq<TileCell>, x: int)
    requires 0 <= x <= |row|
    ensures Hops(row, x, x)
  {
  }

  // The innermost loop: how far the next non-empty cell is, at most 255.
  method CountEmpty(tiles: array<TileCell>, base: nat, width: nat, x: nat) returns (skipped: nat)
    requires base + width <= tiles.Length && x < width
    ensures Counted(RowAt(tiles[..], base, width), x, skipped)
  {
    skipped := 1;
    while x + skipped < width && skipped < 255
      invariant 1 <= skipped <= 255 && x + skipped <= width
      invariant forall k :: x < k < x + skipped ==> RowAt(tiles[..], base, width)[k].index == 0
    {
      if tiles[base + x + skipped].index != 0 {
        break;
      }
      skipped := skipped + 1;
    }
  }

  // ---------------------------------------------------------------- the whole map

  /** Every row of the map can be walked; cell indexes are untouched. */
  method InitTilemapSkip(tiles: array<TileCell>, width: nat, height: nat)
    requires tiles.Length == width * height
    modifies tiles
    ensures SameIndexes(old(tiles[..]), tiles[..])
    ensures width > 0 ==> RowsDone(tiles[..], width, height)
  {
    if width == 0 {
      return;
    }
    var y := 0;
    while y < height
      invariant 0 <= y <= height
      invariant SameIndexes(old(tiles[..]), tiles[..])
      invariant RowsDone(tiles[..], width, y)
    {
      hide RowsDone;
      RowFits(y, width, height);
      ghost var was := tiles[..];
      InitRow(tiles, y * width, width);
      RowsDoneMore(was, tiles[..], width, y);
      y := y + 1;
    }
  }

  ghost predicate SameIndexes(was: seq<TileCell>, now: seq<TileCell>) {
    |was| == |now| && forall k :: 0 <= k < |now| ==> now[k].index == was[k].index
  }

  // The walk is good in each of the first n rows.
  ghost predicate RowsDone(cells: seq<TileCell>, width: nat, n: nat)
    requires width > 0
  {
    forall y :: 0 <= y < n ==> RowDone(cells, width, y)
  }

  ghost predicate RowDone(cells: seq<TileCell>, width: nat, y: nat)
    requires width > 0
  {
    y * width + width <= |cells| && Hops(RowAt(cells, y * width, width), 1, width)
  }

  lemma RowsDoneMore(was: seq<TileCell>, now: seq<TileCell>, width: nat, n: nat)
    requires width > 0 && RowsDone(was, width, n) && RowDone(now, width, n)
    requires RowOnly(was, now, n * width, width)
    ensures RowsDone(now, width, n + 1)
  {
    hide RowDone;
    forall y | 0 <= y < n ensures RowDone(now, width, y) {
      EarlierRow(was, now, width, y, n);
    }
  }

  // Writing row n leaves an earlier row as it was.
  lemma EarlierRow(was: seq<TileCell>, now: seq<TileCell>, width: nat, y: nat, n: nat)
    requires y < n && width > 0 && RowDone(was, width, y) && RowOnly(was, now, n * width, width)
    ensures RowDone(now, width, y)
  {
    hide Hops;
    RowFits(y, width, n);
    assert RowAt(now, y * width, width) == RowAt(was, y * width, width);
  }

  lemma RowFits(y: nat, width: nat, height: nat)
    requires y < height
    ensures y * width + width <= width * height
  {
    var below := height - y - 1;
    assert below * width >= 0;
    assert width * height == (y + 1 + below) * width;
  }
}
