/** Where a replacement enemy may appear: an empty interior cell that is
    not within 3 cells of the player on both axes at once. */
module Spawn {
  import opened Grid

  function Abs(r: real): real {
    if r < 0.0 then -r else r
  }

  /** The retry condition of getRandomSpawnPosition, negated, together
      with the interior range its random draws produce. A valid cell is
      never the player's own cell. */
  predicate SpawnValid(g: seq<seq<int>>, cx: int, cy: int, px: real, py: real): (valid: bool)
    requires Rectangular(g)
    ensures valid ==> cx != px.Floor || cy != py.Floor
  {
    Interior(cy, cx)
    && g[cy][cx] == 0
    && !(Abs(cx as real - px) < 3.0 && Abs(cy as real - py) < 3.0)
  }

  /** One random coordinate, Math.floor(r * (n - 2)) + 1, for a draw
      0 <= r < 1 and a grid side n: always an interior index. */
  function RandomCoordinate(r: real, n: int): (c: int)
    requires 0.0 <= r < 1.0 && n >= 3
    ensures 1 <= c <= n - 2
  {
    var span := (n - 2) as real;
    assert 0.0 <= r * span < span by {
      assert r * span < 1.0 * span;
    }
    (r * span).Floor + 1
  }

  /** Both random coordinates of one draw pair land on an interior cell. */
  lemma {:induction false} RandomDrawIsInterior(rx: real, ry: real)
    requires 0.0 <= rx < 1.0 && 0.0 <= ry < 1.0
    ensures Interior(RandomCoordinate(ry, Height), RandomCoordinate(rx, Width))
  {
    var c := RandomCoordinate(rx, Width);
    var r := RandomCoordinate(ry, Height);
    assert 1 <= c <= Width - 2 && 1 <= r <= Height - 2;
  }

  /** The interior cells in row-major order: cell k of the scan. */
  const ScanSize: int := (Width - 2) * (Height - 2)

  function ScanCol(k: nat): int { 1 + k % (Width - 2) }
  function ScanRow(k: nat): int { 1 + k / (Width - 2) }

  /** The position of cell (cx, cy) in the scan. */
  function ScanIndex(cx: int, cy: int): int { (cy - 1) * (Width - 2) + (cx - 1) }

  /** Wherever the player stands, some interior cell is a valid spawn cell:
      the top-right empty cell when the player is left of column 11,
      otherwise the top-left one. The retry loop therefore always ends. */
  lemma SpawnCellExists(g: seq<seq<int>>, px: real, py: real) returns (k: nat)
    requires Rectangular(g) && HasSpawnCorners(g)
    ensures k < ScanSize
    ensures SpawnValid(g, ScanCol(k), ScanRow(k), px, py)
  {
    if px <= 11.0 {
      k := 13;
      assert ScanCol(k) == Width - 2 && ScanRow(k) == 1;
    } else {
      k := 0;
      assert ScanCol(k) == 1 && ScanRow(k) == 1;
    }
  }

  /** getRandomSpawnPosition with its random retries replaced by a scan of
      the interior cells: returns the first valid cell in row-major order. */
  method GetSpawnPosition(g: seq<seq<int>>, px: real, py: real) returns (cx: int, cy: int)
    requires Rectangular(g) && HasSpawnCorners(g)
    ensures SpawnValid(g, cx, cy, px, py)
    ensures forall k: nat :: k < ScanIndex(cx, cy) ==> !SpawnValid(g, ScanCol(k), ScanRow(k), px, py)
  {
    ghost var w := SpawnCellExists(g, px, py);
    var k: nat := 0;
    while !SpawnValid(g, ScanCol(k), ScanRow(k), px, py)
      invariant k <= w
      invariant forall j: nat :: j < k ==> !SpawnValid(g, ScanCol(j), ScanRow(j), px, py)
      decreases w - k
    {
      k := k + 1;
    }
    cx, cy := ScanCol(k), ScanRow(k);
    assert ScanIndex(cx, cy) == k;
  }
}
