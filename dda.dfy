/** The grid walk of RaycastForm.OnPaint: from the player's cell a ray visits cells one
    grid line at a time (digital differential analysis) until it leaves the map or
    enters a non-empty cell. The distances along the ray are exact reals here. */
module Dda {
  import opened Numerics
  import opened Grids

  /** What stays fixed along one ray: `stepX`, `stepY`, `deltaDistX`, `deltaDistY`. */
  datatype Ray = Ray(stepX: int, stepY: int, deltaDistX: real, deltaDistY: real)

  /** The loop variables: `mapX`, `mapY`, `sideDistX`, `sideDistY` and `side`
      (0 when the last step crossed a vertical grid line, 1 for a horizontal one). */
  datatype Walker = Walker(mapX: int, mapY: int, sideDistX: real, sideDistY: real, side: int)

  /** How a walk ends: in a wall cell holding `texIndex`, or on leaving the map. */
  datatype Outcome = Hit(at: Walker, texIndex: nat) | Miss(at: Walker)

  predicate ValidRay(r: Ray)
  {
    (r.stepX == 1 || r.stepX == -1) && (r.stepY == 1 || r.stepY == -1)
  }

  /** `1e30`, the stand-in for an infinite distance when the ray is parallel to an axis. */
  const FarAway: real := 1000000000000000000000000000000.0

  /** `(rayDir == 0) ? 1e30 : Math.Abs(1.0 / rayDir)`: the distance along the ray
      between two grid lines of one family. */
  function DeltaDist(dir: real): (d: real)
    ensures d > 0.0
    ensures dir != 0.0 ==> d * (if dir < 0.0 then -dir else dir) == 1.0
  {
    if dir == 0.0 then FarAway
    else if dir < 0.0 then -(1.0 / dir)
    else 1.0 / dir
  }

  /** The set-up before the loop: start in the player's cell `((int)x, (int)y)`, step
      towards the ray's direction, and measure the distance to the first grid line of
      each family. */
  function Start(playerX: real, playerY: real, rayDirX: real, rayDirY: real): (rw: (Ray, Walker))
    ensures ValidRay(rw.0)
    ensures rw.1.mapX == Trunc(playerX) && rw.1.mapY == Trunc(playerY)
    ensures (rw.0.stepX < 0 <==> rayDirX < 0.0) && (rw.0.stepY < 0 <==> rayDirY < 0.0)
  {
    var mapX := Trunc(playerX);
    var mapY := Trunc(playerY);
    var deltaDistX := DeltaDist(rayDirX);
    var deltaDistY := DeltaDist(rayDirY);
    var stepX := if rayDirX < 0.0 then -1 else 1;
    var stepY := if rayDirY < 0.0 then -1 else 1;
    var sideDistX := if rayDirX < 0.0 then (playerX - mapX as real) * deltaDistX
                     else (mapX as real + 1.0 - playerX) * deltaDistX;
    var sideDistY := if rayDirY < 0.0 then (playerY - mapY as real) * deltaDistY
                     else (mapY as real + 1.0 - playerY) * deltaDistY;
    (Ray(stepX, stepY, deltaDistX, deltaDistY), Walker(mapX, mapY, sideDistX, sideDistY, 0))
  }

  /** One pass of the loop body before the bounds test: advance along the nearer grid
      line. Exactly one coordinate moves, by its fixed step, and `side` says which. */
  function Advance(r: Ray, w: Walker): (n: Walker)
    ensures (n.side == 0 && n.mapX == w.mapX + r.stepX && n.mapY == w.mapY) ||
            (n.side == 1 && n.mapY == w.mapY + r.stepY && n.mapX == w.mapX)
    ensures n.side == 0 <==> w.sideDistX < w.sideDistY
  {
    if w.sideDistX < w.sideDistY then
      Walker(w.mapX + r.stepX, w.mapY, w.sideDistX + r.deltaDistX, w.sideDistY, 0)
    else
      Walker(w.mapX, w.mapY + r.stepY, w.sideDistX, w.sideDistY + r.deltaDistY, 1)
  }

  /** Cells left before coordinate `c` leaves `0 .. size - 1` when it moves by `step`. */
  function ToEdge(c: int, step: int, size: int): nat
  {
    if step > 0 then (if size - c > 0 then size - c else 0)
    else (if c + 1 > 0 then c + 1 else 0)
  }

  /** A bound on the passes still possible: every pass uses up one cell towards the edge
      in the direction of the ray, on one axis or the other. */
  function Remaining(g: Grid, r: Ray, w: Walker): nat
  {
    ToEdge(w.mapX, r.stepX, Width(g)) + ToEdge(w.mapY, r.stepY, Height(g))
  }

  /** The `while (!hit)` loop as a recursion: a hit is reported only in a non-empty cell
      inside the map, and a miss only once the walker has left the map. */
  function Walk(g: Grid, r: Ray, w: Walker): (o: Outcome)
    requires IsGrid(g) && ValidRay(r)
    ensures o.Hit? ==> InBounds(g, o.at.mapX, o.at.mapY) && o.texIndex != 0 &&
                       Cell(g, o.at.mapX, o.at.mapY) == o.texIndex
    ensures o.Miss? ==> !InBounds(g, o.at.mapX, o.at.mapY)
    decreases Remaining(g, r, w)
  {
    var n := Advance(r, w);
    if !InBounds(g, n.mapX, n.mapY) then Miss(n)
    else if Cell(g, n.mapX, n.mapY) != 0 then Hit(n, Cell(g, n.mapX, n.mapY))
    else Walk(g, r, n)
  }

  /** The number of loop passes `Walk` makes. */
  function Passes(g: Grid, r: Ray, w: Walker): (k: nat)
    requires IsGrid(g) && ValidRay(r)
    decreases Remaining(g, r, w)
  {
    var n := Advance(r, w);
    if !InBounds(g, n.mapX, n.mapY) || Cell(g, n.mapX, n.mapY) != 0 then 1
    else 1 + Passes(g, r, n)
  }

  /** A pass into an open cell leaves one cell fewer before the edge. */
  lemma AdvanceUsesOneCell(g: Grid, r: Ray, w: Walker)
    requires IsGrid(g) && ValidRay(r)
    requires InBounds(g, Advance(r, w).mapX, Advance(r, w).mapY)
    ensures Remaining(g, r, Advance(r, w)) + 1 == Remaining(g, r, w)
  {
  }

  /** From a cell of the map the walk makes fewer passes than there are cells left
      towards the edges: each pass that does not end it uses one up. */
  lemma {:induction false} PassesBounded(g: Grid, r: Ray, w: Walker)
    requires IsGrid(g) && ValidRay(r) && InBounds(g, w.mapX, w.mapY)
    ensures Passes(g, r, w) < Remaining(g, r, w)
    decreases Remaining(g, r, w)
  {
    var n := Advance(r, w);
    if InBounds(g, n.mapX, n.mapY) && Cell(g, n.mapX, n.mapY) == 0 {
      AdvanceUsesOneCell(g, r, w);
      PassesBounded(g, r, n);
    }
  }

  /** From any cell of the map the loop ends within `mapWidth + mapHeight` passes,
      whatever the map holds: it does not rely on the map being walled in. */
  lemma WalkEndsWithinMapSize(g: Grid, r: Ray, w: Walker)
    requires IsGrid(g) && ValidRay(r) && InBounds(g, w.mapX, w.mapY)
    ensures Passes(g, r, w) < Width(g) + Height(g)
  {
    PassesBounded(g, r, w);
  }

  /** The loop of OnPaint as written: `hit`, `side` and `texIndex` start at false, 0
      and 0; each pass advances, breaks when the walker leaves the map, and otherwise
      reads the cell. */
  method CastRay(g: Grid, r: Ray, w0: Walker) returns (w: Walker, hit: bool, texIndex: nat, ghost passes: nat)
    requires IsGrid(g) && ValidRay(r)
    ensures hit ==> Walk(g, r, w0) == Hit(w, texIndex)
    ensures !hit ==> Walk(g, r, w0) == Miss(w)
    ensures passes == Passes(g, r, w0)
    ensures InBounds(g, w0.mapX, w0.mapY) ==> passes < Width(g) + Height(g)
  {
    w := w0;
    hit := false;
    texIndex := 0;
    passes := 0;
    while !hit
      invariant !hit ==> Walk(g, r, w) == Walk(g, r, w0)
      invariant hit ==> Walk(g, r, w0) == Hit(w, texIndex)
      invariant !hit ==> passes + Passes(g, r, w) == Passes(g, r, w0)
      invariant hit ==> passes == Passes(g, r, w0)
      decreases Remaining(g, r, w), if hit then 0 else 1
    {
      ghost var before := w;
      w := Advance(r, w);
      passes := passes + 1;
      if w.mapX < 0 || w.mapY < 0 || w.mapX >= Width(g) || w.mapY >= Height(g) {
        break;
      }
      texIndex := g[w.mapY][w.mapX];
      if texIndex != 0 {
        hit := true;
      } else {
        AdvanceUsesOneCell(g, r, before);
      }
    }
    if InBounds(g, w0.mapX, w0.mapY) {
      WalkEndsWithinMapSize(g, r, w0);
    }
  }
}
