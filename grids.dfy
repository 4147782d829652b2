/** The tile maps of both renderers: rectangular tables of material ids, 0 = open space. */
module Grids {

  /** `g[row][col]`; RaycastForm reads `_map[mapY, mapX]`, so its rows are y. */
  type Grid = seq<seq<nat>>

  predicate IsGrid(g: Grid)
  {
    |g| >= 1 && |g[0]| >= 1 && forall row :: 0 <= row < |g| ==> |g[row]| == |g[0]|
  }

  function Height(g: Grid): nat { |g| }
  function Width(g: Grid): nat { if |g| == 0 then 0 else |g[0]| }

  predicate InBounds(g: Grid, x: int, y: int)
  {
    0 <= x < Width(g) && 0 <= y < Height(g)
  }

  /** `_map[y, x]`. */
  function Cell(g: Grid, x: int, y: int): nat
    requires IsGrid(g) && InBounds(g, x, y)
  {
    g[y][x]
  }

  /** RaycastForm._map: 12 x 12, an enclosing border of 1s and single blocks 2..9 inside. */
  const RaycastMap: Grid := [
    [1,1,1,1,1,1,1,1,1,1,1,1],
    [1,0,0,0,0,0,0,0,0,0,0,1],
    [1,0,2,0,0,0,0,3,0,0,0,1],
    [1,0,0,0,0,0,0,0,0,4,0,1],
    [1,0,0,0,5,0,0,0,0,0,0,1],
    [1,0,0,0,0,0,6,0,0,0,0,1],
    [1,0,0,7,0,0,0,0,8,0,0,1],
    [1,0,0,0,0,0,0,0,0,0,0,1],
    [1,0,0,0,0,9,0,0,0,0,0,1],
    [1,0,0,0,0,0,0,0,0,0,0,1],
    [1,0,0,0,0,0,0,0,0,0,0,1],
    [1,1,1,1,1,1,1,1,1,1,1,1]
  ]

  /** Form1.world, indexed as declared: `Form1World[i][j]` is `world[i, j]`. Moves and the
      ray march read it as `world[x, y]`, the minimap as `world[y, x]`. */
  const Form1World: Grid := [
    [1,9,1,9,1,9,1,9,1,9],
    [9,0,0,0,0,0,0,0,0,1],
    [9,0,0,0,0,0,0,0,0,9],
    [9,0,0,0,0,0,0,0,0,1],
    [9,0,0,0,0,0,0,0,0,9],
    [9,0,0,0,0,0,0,0,0,1],
    [9,0,0,0,0,0,0,0,0,9],
    [9,0,0,0,0,0,0,0,0,1],
    [9,0,0,0,0,0,0,0,0,9],
    [9,1,9,1,9,1,9,1,9,1]
  ]

  /** RaycastForm's map is a 12 x 12 grid; its spawn cell (3, 3) is open and its outer
      ring is wall. */
  lemma RaycastMapShape()
    ensures IsGrid(RaycastMap) && Width(RaycastMap) == 12 && Height(RaycastMap) == 12
    ensures Cell(RaycastMap, 3, 3) == 0
    ensures forall i :: 0 <= i < 12 ==>
      RaycastMap[0][i] != 0 && RaycastMap[11][i] != 0 && RaycastMap[i][0] != 0 && RaycastMap[i][11] != 0
  {
  }

  /** Form1's world: a cell is open exactly when both indices are in 1..8, so the open
      cells form a square that reads the same either way round. */
  lemma Form1WorldShape()
    ensures IsGrid(Form1World) && Width(Form1World) == 10 && Height(Form1World) == 10
    ensures forall i, j :: 0 <= i < 10 && 0 <= j < 10 ==>
      (Form1World[i][j] == 0 <==> 1 <= i <= 8 && 1 <= j <= 8)
  {
  }
}
