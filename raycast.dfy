/** The grid walk (DDA) that castRays runs for every screen column: from the
    player's cell, step one cell at a time along x or along y until a cell
    holding a wall is entered. Which axis a step takes is decided in the
    source by comparing two floating-point distances (sideDistX < sideDistY);
    here that decision is an arbitrary choice function xSide, so every
    property below holds for every ray. */
module Raycast {
  import opened Grid

  datatype MapCell = MapCell(x: int, y: int)

  /** What the walk reports: the wall cell entered, the side of it the ray
      crossed (0 for an x side, 1 for a y side), the wall's material, and
      the number of steps taken. */
  datatype RayHit = RayHit(mapX: int, mapY: int, side: int, wallType: int, steps: nat)

  /** The cell reached after k steps, step i going along x exactly when xSide(i). */
  function Walk(x0: int, y0: int, stepX: int, stepY: int, xSide: nat -> bool, k: nat): MapCell {
    if k == 0 then MapCell(x0, y0)
    else
      var c := Walk(x0, y0, stepX, stepY, xSide, k - 1);
      if xSide(k - 1) then MapCell(c.x + stepX, c.y) else MapCell(c.x, c.y + stepY)
  }

  /** Cells left between coordinate m and the border it moves towards. */
  function Remaining(m: int, step: int, size: int): int {
    if step > 0 then size - 1 - m else m
  }

  /** The unit step along one axis: -1 when the ray direction is negative. */
  function StepFor(rayDir: real): (s: int)
    ensures s == -1 || s == 1
    ensures s < 0 <==> rayDir < 0.0
  {
    if rayDir < 0.0 then -1 else 1
  }

  /** The DDA of castRays from the player at (px, py). The walk never
      leaves the map, stops within Width + Height - 4 steps, and stops at
      the first wall cell along the path, whose value it reports. */
  method CastRay(g: seq<seq<int>>, px: real, py: real, rayDirX: real, rayDirY: real, xSide: nat -> bool)
    returns (hit: RayHit)
    requires ValidMap(g) && Open(g, px, py)
    ensures var x0, y0, sx, sy := px.Floor, py.Floor, StepFor(rayDirX), StepFor(rayDirY);
      && 1 <= hit.steps <= Width + Height - 4
      && MapCell(hit.mapX, hit.mapY) == Walk(x0, y0, sx, sy, xSide, hit.steps)
      && InBounds(hit.mapY, hit.mapX)
      && hit.wallType == g[hit.mapY][hit.mapX] && hit.wallType > 0
      && hit.side == (if xSide(hit.steps - 1) then 0 else 1)
      && Interior(y0, x0)
      && (forall k :: 0 < k < hit.steps ==>
            var c := Walk(x0, y0, sx, sy, xSide, k); Interior(c.y, c.x) && g[c.y][c.x] == 0)
  {
    var mapX, mapY := px.Floor, py.Floor;
    EmptyIsInterior(g, mapY, mapX);
    var stepX, stepY := StepFor(rayDirX), StepFor(rayDirY);
    ghost var budget := Remaining(mapX, stepX, Width) + Remaining(mapY, stepY, Height);
    var hitWall := false;
    var side := 0;
    var wallType := 1;
    var steps := 0;
    while !hitWall
      invariant MapCell(mapX, mapY) == Walk(px.Floor, py.Floor, stepX, stepY, xSide, steps)
      invariant InBounds(mapY, mapX)
      invariant !hitWall ==> Interior(mapY, mapX)
      invariant !hitWall && 0 < steps ==> g[mapY][mapX] == 0
      invariant hitWall ==> 1 <= steps && wallType == g[mapY][mapX] > 0
      invariant hitWall ==> side == if xSide(steps - 1) then 0 else 1
      invariant forall k :: 0 < k < steps ==>
        var c := Walk(px.Floor, py.Floor, stepX, stepY, xSide, k); Interior(c.y, c.x) && g[c.y][c.x] == 0
      invariant steps + Remaining(mapX, stepX, Width) + Remaining(mapY, stepY, Height) == budget
      decreases Remaining(mapX, stepX, Width) + Remaining(mapY, stepY, Height)
    {
      if xSide(steps) {
        mapX := mapX + stepX;
        side := 0;
      } else {
        mapY := mapY + stepY;
        side := 1;
      }
      steps := steps + 1;
      if 0 <= mapY < |g| && 0 <= mapX < |g[0]| && g[mapY][mapX] > 0 {
        hitWall := true;
        wallType := g[mapY][mapX];
      } else {
        EmptyIsInterior(g, mapY, mapX);
      }
    }
    hit := RayHit(mapX, mapY, side, wallType, steps);
  }
}
