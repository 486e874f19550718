/** The level: a grid of material ids, 0 for an empty cell and 1..4 for a
    wall of that material. Rows are indexed by y, columns by x.

    The operations of the game are proved for every map of the level's
    shape whose border is solid (ValidMap); WorldMapValid shows that the
    level shipped with the game is such a map. */
module Grid {

  const Height: int := 14
  const Width: int := 16

  /** The level as the game defines it. */
  const WorldMap: seq<seq<int>> := [
    [1,1,1,1,1,1,1,1,1,1,1,1,1,1,1,1],
    [1,0,0,0,0,0,0,0,0,0,0,0,0,0,0,1],
    [1,0,0,0,0,0,0,0,0,0,0,0,0,0,0,1],
    [1,0,0,2,2,2,0,0,0,0,3,3,3,0,0,1],
    [1,0,0,2,0,0,0,0,0,0,0,0,3,0,0,1],
    [1,0,0,2,0,0,0,0,0,0,0,0,3,0,0,1],
    [1,0,0,0,0,0,0,4,4,0,0,0,0,0,0,1],
    [1,0,0,0,0,0,0,4,4,0,0,0,0,0,0,1],
    [1,0,0,3,0,0,0,0,0,0,0,0,2,0,0,1],
    [1,0,0,3,0,0,0,0,0,0,0,0,2,0,0,1],
    [1,0,0,3,3,3,0,0,0,0,2,2,2,0,0,1],
    [1,0,0,0,0,0,0,0,0,0,0,0,0,0,0,1],
    [1,0,0,0,0,0,0,0,0,0,0,0,0,0,0,1],
    [1,1,1,1,1,1,1,1,1,1,1,1,1,1,1,1]
  ]

  predicate InBounds(row: int, col: int) {
    0 <= row < Height && 0 <= col < Width
  }

  predicate OnBorder(row: int, col: int) {
    row == 0 || row == Height - 1 || col == 0 || col == Width - 1
  }

  predicate Interior(row: int, col: int) {
    1 <= row <= Height - 2 && 1 <= col <= Width - 2
  }

  /** Height rows of Width cells each. */
  predicate Rectangular(g: seq<seq<int>>) {
    |g| == Height && forall r :: 0 <= r < Height ==> |g[r]| == Width
  }

  /** A rectangular map of non-negative material ids whose outer ring is
      made only of walls, so that the world is sealed. */
  ghost predicate ValidMap(g: seq<seq<int>>) {
    && Rectangular(g)
    && (forall r, c :: InBounds(r, c) ==> g[r][c] >= 0)
    && (forall r, c :: InBounds(r, c) && OnBorder(r, c) ==> g[r][c] > 0)
  }

  /** The two top interior corners are empty; some spawn cell is always
      far enough from the player because of them. */
  predicate HasSpawnCorners(g: seq<seq<int>>)
    requires Rectangular(g)
  {
    g[1][1] == 0 && g[1][Width - 2] == 0
  }

  /** The level is sealed, holds ids 0..4 only, and has empty top corners. */
  lemma WorldMapValid()
    ensures ValidMap(WorldMap) && HasSpawnCorners(WorldMap)
    ensures forall r, c :: InBounds(r, c) ==> 0 <= WorldMap[r][c] <= 4
  {
    forall r, c | InBounds(r, c)
      ensures 0 <= WorldMap[r][c] <= 4
      ensures OnBorder(r, c) ==> WorldMap[r][c] > 0
    {
      RowValid(r);
    }
  }

  /** Row r of the level: material ids 0..4, walls at both ends, and only
      walls when it is the first or last row. */
  lemma RowValid(r: int)
    requires 0 <= r < Height
    ensures |WorldMap[r]| == Width
    ensures forall c :: 0 <= c < Width ==> 0 <= WorldMap[r][c] <= 4
    ensures WorldMap[r][0] > 0 && WorldMap[r][Width - 1] > 0
    ensures r == 0 || r == Height - 1 ==> forall c :: 0 <= c < Width ==> WorldMap[r][c] > 0
  {
    var row := WorldMap[r];
    if r == 0 || r == Height - 1 {
      assert row == [1,1,1,1,1,1,1,1,1,1,1,1,1,1,1,1];
    } else if r == 1 || r == 2 || r == 11 || r == 12 {
      assert row == [1,0,0,0,0,0,0,0,0,0,0,0,0,0,0,1];
    } else if r == 3 {
      assert row == [1,0,0,2,2,2,0,0,0,0,3,3,3,0,0,1];
    } else if r == 4 || r == 5 {
      assert row == [1,0,0,2,0,0,0,0,0,0,0,0,3,0,0,1];
    } else if r == 6 || r == 7 {
      assert row == [1,0,0,0,0,0,0,4,4,0,0,0,0,0,0,1];
    } else if r == 8 || r == 9 {
      assert row == [1,0,0,3,0,0,0,0,0,0,0,0,2,0,0,1];
    } else {
      assert row == [1,0,0,3,3,3,0,0,0,0,2,2,2,0,0,1];
    }
  }

  /** An empty cell of a sealed map is never on the border. */
  lemma EmptyIsInterior(g: seq<seq<int>>, row: int, col: int)
    requires ValidMap(g) && InBounds(row, col) && g[row][col] == 0
    ensures Interior(row, col)
  {
  }

  /** The point (x, y), in cell units, lies in an empty cell of the map,
      and so within the map. */
  predicate Open(g: seq<seq<int>>, x: real, y: real): (open: bool)
    requires Rectangular(g)
    ensures open ==> 0.0 <= x < Width as real && 0.0 <= y < Height as real
  {
    InBounds(y.Floor, x.Floor) && g[y.Floor][x.Floor] == 0
  }

  /** From a point in an empty cell, any point less than one cell away on
      each axis lies inside the map. */
  lemma NearOpenInBounds(g: seq<seq<int>>, x: real, y: real, x': real, y': real)
    requires ValidMap(g) && Open(g, x, y)
    requires -1.0 < x' - x < 1.0 && -1.0 < y' - y < 1.0
    ensures InBounds(y'.Floor, x'.Floor)
  {
    EmptyIsInterior(g, y.Floor, x.Floor);
  }
}
