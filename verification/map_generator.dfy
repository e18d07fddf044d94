/**
  `MapGenerator::generateTestMap` (shared_include/MapParser.hpp): a deterministic test level
  with walls along the top and bottom rows, a lattice of coins, a sparser lattice of electric
  obstacles, and an end marker near the right edge.
 */
module MapGenerator {
  import opened MapParser

  /** Coins go in every 7th column from column 5 and every 5th row from row 3, above row h - 3. */
  predicate CoinSlot(w: int, h: int, x: int, y: int) {
    5 <= x < w && (x - 5) % 7 == 0 && 3 <= y < h - 3 && (y - 3) % 5 == 0
  }

  /** Obstacles go in every 15th column from column 10 and every 8th row from row 5, above row h - 5. */
  predicate ElectricSlot(w: int, h: int, x: int, y: int) {
    10 <= x < w && (x - 10) % 15 == 0 && 5 <= y < h - 5 && (y - 5) % 8 == 0
  }

  /** The end marker's cell, present only on maps wider than 10. */
  predicate EndSlot(w: int, h: int, x: int, y: int) {
    w > 10 && x == w - 5 && y == h / 2
  }

  function WallLayer(h: int, y: int): TileType {
    if y == 0 || y == h - 1 then Wall else Empty
  }

  function CoinLayer(w: int, h: int, x: int, y: int): TileType {
    if CoinSlot(w, h, x, y) then Coin else WallLayer(h, y)
  }

  function ElectricLayer(w: int, h: int, x: int, y: int): TileType {
    if ElectricSlot(w, h, x, y) then Electric else CoinLayer(w, h, x, y)
  }

  /**
    The tile the generator leaves at (x, y). Each pass overwrites the ones before it, so the
    end marker beats an obstacle, an obstacle beats a coin, and a coin beats a wall.
   */
  function TestTile(w: int, h: int, x: int, y: int): TileType {
    if EndSlot(w, h, x, y) then EndMarker else ElectricLayer(w, h, x, y)
  }

  predicate Grid(tiles: seq<seq<TileType>>, w: nat, h: nat) {
    |tiles| == h && forall r :: 0 <= r < h ==> |tiles[r]| == w
  }

  function SetTile(tiles: seq<seq<TileType>>, x: nat, y: nat, t: TileType): (r: seq<seq<TileType>>)
    requires y < |tiles| && x < |tiles[y]|
    ensures |r| == |tiles|
    ensures forall j :: 0 <= j < |r| ==> |r[j]| == |tiles[j]|
    ensures forall j, i :: 0 <= j < |r| && 0 <= i < |r[j]| ==>
      r[j][i] == if j == y && i == x then t else tiles[j][i]
  {
    tiles[y := tiles[y][x := t]]
  }

  /**
    `generateTestMap(width, height)`: a `width` x `height` grid whose every tile is the one
    `TestTile` describes. The source indexes row 0 and row `height - 1`, so a non-empty row
    needs at least one row, and a negative size cannot be allocated.
   */
  method GenerateTestMap(width: int, height: int) returns (m: GameMap)
    requires width >= 0 && height >= 0 && (width == 0 || height >= 1)
    ensures WellShaped(m) && m.width == width && m.height == height
    ensures forall y, x :: 0 <= y < height && 0 <= x < width ==> m.tiles[y][x] == TestTile(width, height, x, y)
  {
    var tiles := PlaceWalls(width, height);
    tiles := PlaceCoins(tiles, width, height);
    tiles := PlaceObstacles(tiles, width, height);
    if width > 10 {
      tiles := SetTile(tiles, width - 5, height / 2, EndMarker);
    }
    m := GameMap(width, height, tiles);
  }

  /** The first pass: an empty grid with walls written along row 0 and row `height - 1`. */
  method PlaceWalls(width: nat, height: nat) returns (tiles: seq<seq<TileType>>)
    requires width == 0 || height >= 1
    ensures Grid(tiles, width, height)
    ensures forall r, c :: 0 <= r < height && 0 <= c < width ==> tiles[r][c] == WallLayer(height, r)
  {
    tiles := seq(height, _ => seq(width, _ => Empty));
    var x := 0;
    while x < width
      invariant 0 <= x <= width
      invariant Grid(tiles, width, height)
      invariant forall r, c :: 0 <= r < height && 0 <= c < width ==>
        tiles[r][c] == if c < x then WallLayer(height, r) else Empty
    {
      tiles := SetTile(tiles, x, 0, Wall);
      tiles := SetTile(tiles, x, height - 1, Wall);
      x := x + 1;
    }
  }

  /** The coin pass: columns 5, 12, 19, ... and, in each, rows 3, 8, 13, ... below `height - 3`. */
  method PlaceCoins(walls: seq<seq<TileType>>, width: nat, height: nat) returns (tiles: seq<seq<TileType>>)
    requires Grid(walls, width, height)
    requires forall r, c :: 0 <= r < height && 0 <= c < width ==> walls[r][c] == WallLayer(height, r)
    ensures Grid(tiles, width, height)
    ensures forall r, c :: 0 <= r < height && 0 <= c < width ==> tiles[r][c] == CoinLayer(width, height, c, r)
  {
    tiles := walls;
    var x := 5;
    while x < width
      invariant x >= 5 && (x - 5) % 7 == 0
      invariant Grid(tiles, width, height)
      invariant forall r, c :: 0 <= r < height && 0 <= c < width ==>
        tiles[r][c] == if c < x then CoinLayer(width, height, c, r) else WallLayer(height, r)
    {
      var y := 3;
      while y < height - 3
        invariant y >= 3 && (y - 3) % 5 == 0
        invariant Grid(tiles, width, height)
        invariant forall r, c :: 0 <= r < height && 0 <= c < width ==>
          tiles[r][c] == if c < x || (c == x && r < y) then CoinLayer(width, height, c, r) else WallLayer(height, r)
      {
        tiles := SetTile(tiles, x, y, Coin);
        y := y + 5;
      }
      x := x + 7;
    }
  }

  /** The obstacle pass: columns 10, 25, 40, ... and, in each, rows 5, 13, 21, ... below `height - 5`. */
  method PlaceObstacles(coins: seq<seq<TileType>>, width: nat, height: nat) returns (tiles: seq<seq<TileType>>)
    requires Grid(coins, width, height)
    requires forall r, c :: 0 <= r < height && 0 <= c < width ==> coins[r][c] == CoinLayer(width, height, c, r)
    ensures Grid(tiles, width, height)
    ensures forall r, c :: 0 <= r < height && 0 <= c < width ==> tiles[r][c] == ElectricLayer(width, height, c, r)
  {
    tiles := coins;
    var x := 10;
    while x < width
      invariant x >= 10 && (x - 10) % 15 == 0
      invariant Grid(tiles, width, height)
      invariant forall r, c :: 0 <= r < height && 0 <= c < width ==>
        tiles[r][c] == if c < x then ElectricLayer(width, height, c, r) else CoinLayer(width, height, c, r)
    {
      var y := 5;
      while y < height - 5
        invariant y >= 5 && (y - 5) % 8 == 0
        invariant Grid(tiles, width, height)
        invariant forall r, c :: 0 <= r < height && 0 <= c < width ==>
          tiles[r][c] == if c < x || (c == x && r < y) then ElectricLayer(width, height, c, r) else CoinLayer(width, height, c, r)
      {
        tiles := SetTile(tiles, x, y, Electric);
        y := y + 8;
      }
      x := x + 15;
    }
  }

  /**
    From three rows on, the top and bottom rows are entirely wall. On one- and two-row maps
    wider than 10 the end marker lands on a border row, at column `w - 5`.
   */
  lemma BorderRows(w: int, h: int, x: int)
    requires 0 <= x < w && h >= 1
    ensures h >= 3 ==> TestTile(w, h, x, 0) == Wall && TestTile(w, h, x, h - 1) == Wall
    ensures x != w - 5 || w <= 10 ==> TestTile(w, h, x, 0) == Wall && TestTile(w, h, x, h - 1) == Wall
    ensures h <= 2 && w > 10 ==> TestTile(w, h, w - 5, h - 1) == EndMarker
  {
  }

  /** The end marker sits exactly at (w - 5, h / 2) when w > 10, and nowhere when w <= 10. */
  lemma EndMarkerPlacement(w: int, h: int, x: int, y: int)
    requires 0 <= x < w && 0 <= y < h
    ensures TestTile(w, h, x, y) == EndMarker <==> w > 10 && x == w - 5 && y == h / 2
  {
  }
}
