/** Form1, the first renderer: a player on a 10 x 10 world of 10-unit blocks, turned in
    5-degree steps and moved 2 units at a time by the keyboard; each wall slice is three
    rectangles sized from the ray's length; a 10 x 10 minimap marks the player's block. */
module Form1Model {
  import opened Numerics
  import opened Grids

  /** The keys Form1_KeyDown tells apart (each with its letter alias: D, A, W, S). */
  datatype Key = Right | Left | Up | Down | Reset | Other

  const BlockSize: real := 10.0
  const StartX: real := 35.0
  const StartY: real := 35.0
  const StartFacing: int := 90
  const RotateAmount: int := 5
  const ScreenHeight: int := 200
  const ScreenCenterY: int := 100
  const DrawLineWidth: int := 1

  /** The block of the world a position lies in, `(int)(p / WORLD_BLOCK_SIZE)`. */
  function Block(p: real): int
  {
    Trunc(p / BlockSize)
  }

  /** The shape of Form1's world: 10 x 10 blocks, read `g[x][y]`, open exactly on the
      inner 8 x 8 square and walled all round. */
  predicate WalledIn(g: Grid)
  {
    |g| == 10 && (forall i :: 0 <= i < 10 ==> |g[i]| == 10) &&
    forall i, j :: 0 <= i < 10 && 0 <= j < 10 ==> (g[i][j] == 0 <==> 1 <= i <= 8 && 1 <= j <= 8)
  }

  /** The world Form1 is built with has that shape. */
  lemma Form1WorldWalledIn()
    ensures WalledIn(Form1World)
  {
    Form1WorldShape();
  }

  /** A position the player may stand on: its block is on the world `g`, read as
      `world[x, y]` like the moves read it, and open. */
  predicate Walkable(g: Grid, x: real, y: real)
  {
    0 <= Block(x) < |g| && 0 <= Block(y) < |g[Block(x)]| && g[Block(x)][Block(y)] == 0
  }

  /** Turning right: `(a + 5) % 360`. From a facing in `[0, 360)` the result stays there
      and is five degrees on, modulo a full turn. */
  function RotateRight(a: int): (r: int)
    ensures 0 <= a < 360 ==> 0 <= r < 360 && (r - a - RotateAmount) % 360 == 0
  {
    CsRem(a + RotateAmount, 360)
  }

  /** Turning left: `(a + (360 - 5)) % 360`, which never goes negative (0 turns to 355). */
  function RotateLeft(a: int): (r: int)
    ensures 0 <= a < 360 ==> 0 <= r < 360 && (r - a + RotateAmount) % 360 == 0
  {
    CsRem(a + (360 - RotateAmount), 360)
  }

  /** A turn left undoes a turn right and the other way round. */
  lemma RotationsCancel(a: int)
    requires 0 <= a < 360
    ensures RotateLeft(RotateRight(a)) == a
    ensures RotateRight(RotateLeft(a)) == a
  {
    if a < 355 {
      assert RotateRight(a) == a + 5;
    } else {
      assert RotateRight(a) == a - 355;
    }
    if a < 5 {
      assert RotateLeft(a) == a + 355;
    } else {
      assert RotateLeft(a) == a - 5;
    }
  }

  /** From a walkable block a step of at most two units in each axis lands inside the
      10 x 10 world, so the unchecked `world[...]` lookup of a move is in range. */
  lemma StepStaysOnWorld(p: real, q: real)
    requires 1 <= Block(p) <= 8 && p - 2.0 <= q <= p + 2.0
    ensures 0 <= Block(q) < 10
  {
    assert 10.0 <= p < 90.0;
  }

  /** In a walled-in world the open blocks are the inner 8 x 8 square. */
  lemma WalkableIsInterior(g: Grid, x: real, y: real)
    requires WalledIn(g) && Walkable(g, x, y)
    ensures 1 <= Block(x) <= 8 && 1 <= Block(y) <= 8
  {
  }

  /** The player's position and facing. */
  datatype Player = Player(x: real, y: real, facing: int)

  /** The player stands on an open block and faces an angle in `[0, 360)`. */
  predicate OnOpenBlock(g: Grid, p: Player)
  {
    0 <= p.facing < 360 && Walkable(g, p.x, p.y)
  }

  /** The collision check of a move by `(sx, sy)`: the player goes to the target when
      its block is open and otherwise stays put, keeping the facing either way. */
  function Moved(g: Grid, p: Player, sx: real, sy: real): Player
  {
    if Walkable(g, p.x + sx, p.y + sy) then Player(p.x + sx, p.y + sy, p.facing) else p
  }

  /** `Moved` spelled out for a target computed beforehand. */
  lemma MovedTo(g: Grid, p: Player, sx: real, sy: real, nx: real, ny: real)
    requires nx == p.x + sx && ny == p.y + sy
    ensures Moved(g, p, sx, sy) == if Walkable(g, nx, ny) then Player(nx, ny, p.facing) else p
  {
  }

  /** The state after Form1_KeyDown in world `g`. `(dx, dy)` is `(cos, sin)` of the
      facing times the step of two units. */
  function Pressed(g: Grid, key: Key, p: Player, dx: real, dy: real): Player
  {
    match key
    case Right => p.(facing := RotateRight(p.facing))
    case Left => p.(facing := RotateLeft(p.facing))
    case Up => Moved(g, p, dx, dy)
    case Down => Moved(g, p, -dx, -dy)
    case Reset => Player(StartX, StartY, StartFacing)
    case Other => p
  }

  /** A turn changes only the facing, and always changes it. */
  lemma TurnEffects(g: Grid, p: Player, dx: real, dy: real)
    requires 0 <= p.facing < 360
    ensures var r := Pressed(g, Right, p, dx, dy); r.x == p.x && r.y == p.y && r.facing != p.facing
    ensures var r := Pressed(g, Left, p, dx, dy); r.x == p.x && r.y == p.y && r.facing != p.facing
  {
  }

  /** `Pressed` on the two move keys, spelled out in the source's terms: a move keeps the facing and lands on its target exactly when the target's block
      is open, staying put otherwise: forwards to `(x + dx, y + dy)`, backwards to
      `(x - dx, y - dy)`. */
  lemma MoveEffects(g: Grid, p: Player, dx: real, dy: real)
    ensures var r := Pressed(g, Up, p, dx, dy);
      r.facing == p.facing &&
      if Walkable(g, p.x + dx, p.y + dy) then r.x == p.x + dx && r.y == p.y + dy else r == p
    ensures var r := Pressed(g, Down, p, dx, dy);
      r.facing == p.facing &&
      if Walkable(g, p.x - dx, p.y - dy) then r.x == p.x - dx && r.y == p.y - dy else r == p
  {
    MovedTo(g, p, dx, dy, p.x + dx, p.y + dy);
    MovedTo(g, p, -dx, -dy, p.x - dx, p.y - dy);
  }

  /** From an open block with a facing in range, every key keeps the player on an open
      block with a facing in range; in a walled-in world that includes the start
      block a reset returns to. */
  lemma KeyKeepsPlayerOnOpenBlock(g: Grid, key: Key, p: Player, dx: real, dy: real)
    requires WalledIn(g) && OnOpenBlock(g, p)
    ensures OnOpenBlock(g, Pressed(g, key, p, dx, dy))
  {
    assert Block(StartX) == 3 && Block(StartY) == 3;
  }

  /** A right turn followed by a left turn, or a left followed by a right, leaves the
      player as it was. */
  lemma TurnsCancel(g: Grid, p: Player, dx: real, dy: real)
    requires OnOpenBlock(g, p)
    ensures Pressed(g, Left, Pressed(g, Right, p, dx, dy), dx, dy) == p
    ensures Pressed(g, Right, Pressed(g, Left, p, dx, dy), dx, dy) == p
  {
    RotationsCancel(p.facing);
  }

  /** A step forward that was taken is undone by a step back: the move back lands on the
      block the player came from, which is open. */
  lemma StepBackReturns(g: Grid, p: Player, dx: real, dy: real)
    requires OnOpenBlock(g, p) && Walkable(g, p.x + dx, p.y + dy)
    ensures Pressed(g, Down, Pressed(g, Up, p, dx, dy), dx, dy) == p
  {
    MovedTo(g, p, dx, dy, p.x + dx, p.y + dy);
    var q := Pressed(g, Up, p, dx, dy);
    MovedTo(g, q, -dx, -dy, p.x, p.y);
  }

  /** A step forward into a wall changes nothing, so a step back from there is an
      ordinary step back. */
  lemma BlockedStepKeepsPlayer(g: Grid, p: Player, dx: real, dy: real)
    requires !Walkable(g, p.x + dx, p.y + dy)
    ensures Pressed(g, Up, p, dx, dy) == p
  {
  }

  class Form1 {
    const world: Grid
    var playerX: real
    var playerY: real
    var facing: int

    /** `_playerX`, `_playerY` and `_playerFacingDegrees` as a value. */
    function State(): Player
      reads this
    {
      Player(playerX, playerY, facing)
    }

    /** The world is walled in, and the player stands on an open block of it and faces
        an angle in `[0, 360)`. */
    ghost predicate Valid()
      reads this
    {
      WalledIn(world) && OnOpenBlock(world, State())
    }

    constructor()
      ensures Valid() && world == Form1World
      ensures playerX == StartX && playerY == StartY && facing == StartFacing
    {
      world := Form1World;
      playerX, playerY, facing := StartX, StartY, StartFacing;
      Form1WorldWalledIn();
    }

    /** Form1_KeyDown, with `(dx, dy)` the step the source computes from the facing
        (`cos` and `sin` times two units, so never more than 2 in either axis). */
    method KeyDown(key: Key, dx: real, dy: real)
      requires Valid() && -2.0 <= dx <= 2.0 && -2.0 <= dy <= 2.0
      modifies this
      ensures Valid() && State() == Pressed(world, key, old(State()), dx, dy)
    {
      match key {
        case Right => Turn(key, dx, dy);
        case Left => Turn(key, dx, dy);
        case Up => Step(key, dx, dy);
        case Down => Step(key, dx, dy);
        case Reset =>
          facing, playerX, playerY := StartFacing, StartX, StartY;
        case Other =>
      }
    }

    /** The two turning cases of Form1_KeyDown: `(facing + 5) % 360` to the right and
        `(facing + (360 - 5)) % 360` to the left. */
    method Turn(key: Key, dx: real, dy: real)
      requires Valid() && (key.Right? || key.Left?)
      modifies this
      ensures Valid() && State() == Pressed(world, key, old(State()), dx, dy)
    {
      if key.Right? {
        facing := CsRem(facing + RotateAmount, 360);
      } else {
        facing := CsRem(facing + (360 - RotateAmount), 360);
      }
    }

    /** The two moving cases of Form1_KeyDown: a step forwards by `(dx, dy)` or
        backwards by `(-dx, -dy)`. */
    method Step(key: Key, dx: real, dy: real)
      requires Valid() && (key.Up? || key.Down?) && -2.0 <= dx <= 2.0 && -2.0 <= dy <= 2.0
      modifies this
      ensures Valid() && State() == Pressed(world, key, old(State()), dx, dy)
    {
      if key.Up? {
        MoveIfOpen(dx, dy);
      } else {
        MoveIfOpen(-dx, -dy);
      }
    }

    /** The collision check both moves share: the target is `(playerX + sx, playerY + sy)`
        and the player goes there when `world[(int)(x / 10), (int)(y / 10)]` is open. The
        lookup is in range because a step is at most two units per axis. */
    method MoveIfOpen(sx: real, sy: real)
      requires Valid() && -2.0 <= sx <= 2.0 && -2.0 <= sy <= 2.0
      modifies this
      ensures Valid() && State() == Moved(world, old(State()), sx, sy)
    {
      var newPlayerX := playerX + sx;
      var newPlayerY := playerY + sy;
      WalkableIsInterior(world, playerX, playerY);
      StepStaysOnWorld(playerX, newPlayerX);
      StepStaysOnWorld(playerY, newPlayerY);
      MovedTo(world, State(), sx, sy, newPlayerX, newPlayerY);
      if world[Block(newPlayerX)][Block(newPlayerY)] == 0 {
        playerX, playerY := newPlayerX, newPlayerY;
      }
    }

    /** The minimap as Form1.DrawMap builds it, `bmp[x, y]` being bitmap pixel `(x, y)`:
        each pixel shows `world[y, x]`, and the player's block is then painted red. */
    method DrawMap() returns (bmp: array2<MapColor>)
      requires Valid()
      ensures bmp.Length0 == 10 && bmp.Length1 == 10
      ensures forall x, y :: 0 <= x < 10 && 0 <= y < 10 ==>
        bmp[x, y] == if x == Block(playerX) && y == Block(playerY) then PlayerMark
                     else CellColor(world[y][x])
      ensures forall x, y :: 0 <= x < 10 && 0 <= y < 10 && !(x == Block(playerX) && y == Block(playerY)) ==>
        (bmp[x, y] == Gray <==> world[y][x] == 0) &&
        (world[y][x] != 0 ==> bmp[x, y] == Known(world[y][x] + KnownColorOffset))
    {
      bmp := new MapColor[10, 10];
      var y := 0;
      while y < 10
        invariant 0 <= y <= 10
        invariant forall xx, yy :: 0 <= xx < 10 && 0 <= yy < y ==> bmp[xx, yy] == CellColor(world[yy][xx])
      {
        var x := 0;
        while x < 10
          invariant 0 <= x <= 10
          invariant forall xx, yy :: 0 <= xx < 10 && 0 <= yy < y ==> bmp[xx, yy] == CellColor(world[yy][xx])
          invariant forall xx :: 0 <= xx < x ==> bmp[xx, y] == CellColor(world[y][xx])
        {
          if world[y][x] == 0 {
            bmp[x, y] := Gray;
          } else {
            bmp[x, y] := Known(world[y][x] + KnownColorOffset);
          }
          x := x + 1;
        }
        y := y + 1;
      }
      bmp[Block(playerX), Block(playerY)] := PlayerMark;
    }

    /** The minimap with the world read the way the moves and the ray march read it,
        `world[x, y]`: every pixel other than the player's shows the colour of the block
        at that position, and the player's own block is open. */
    method DrawMapAligned() returns (bmp: array2<MapColor>)
      requires Valid()
      ensures bmp.Length0 == 10 && bmp.Length1 == 10
      ensures forall x, y :: 0 <= x < 10 && 0 <= y < 10 ==>
        bmp[x, y] == if x == Block(playerX) && y == Block(playerY) then PlayerMark
                     else CellColor(world[x][y])
      ensures forall x, y :: 0 <= x < 10 && 0 <= y < 10 && !(x == Block(playerX) && y == Block(playerY)) ==>
        (bmp[x, y] == Gray <==> world[x][y] == 0) &&
        (world[x][y] != 0 ==> bmp[x, y] == Known(world[x][y] + KnownColorOffset))
      ensures world[Block(playerX)][Block(playerY)] == 0
    {
      bmp := new MapColor[10, 10];
      var y := 0;
      while y < 10
        invariant 0 <= y <= 10
        invariant forall xx, yy :: 0 <= xx < 10 && 0 <= yy < y ==> bmp[xx, yy] == CellColor(world[xx][yy])
      {
        var x := 0;
        while x < 10
          invariant 0 <= x <= 10
          invariant forall xx, yy :: 0 <= xx < 10 && 0 <= yy < y ==> bmp[xx, yy] == CellColor(world[xx][yy])
          invariant forall xx :: 0 <= xx < x ==> bmp[xx, y] == CellColor(world[xx][y])
        {
          bmp[x, y] := CellColor(world[x][y]);
          x := x + 1;
        }
        y := y + 1;
      }
      bmp[Block(playerX), Block(playerY)] := PlayerMark;
    }
  }

  /** A minimap colour: `Color.Gray`, `Color.FromKnownColor(k)`, or `Color.Red`. */
  datatype MapColor = Gray | Known(knownColor: int) | PlayerMark

  /** `KNOWN_COLOR_OFFSET`: block id `k` is drawn in known colour `k + 30`. */
  const KnownColorOffset: int := 30

  /** The colour a block id is drawn in, on the minimap and on its wall slices. */
  function CellColor(id: int): (c: MapColor)
    ensures c == Gray <==> id == 0
    ensures id != 0 ==> c == Known(id + KnownColorOffset)
  {
    if id == 0 then Gray else Known(id + KnownColorOffset)
  }

  /** The minimap as written reads the world transposed. The open blocks form a square
      that reads the same both ways, so floor pixels are right; wall colours are not:
      pixel `(2, 0)` shows block id 1 while the block at `world[2, 0]`, which the ray
      march shows there, has id 9. */
  lemma MinimapTransposesWalls()
    ensures forall x, y :: 0 <= x < 10 && 0 <= y < 10 ==>
      (CellColor(Form1World[y][x]) == Gray <==> CellColor(Form1World[x][y]) == Gray)
    ensures CellColor(Form1World[0][2]) == Known(31) && CellColor(Form1World[2][0]) == Known(39)
  {
    Form1WorldShape();
  }

  /** One wall slice of Form1.Raycast: the ceiling, floor and wall rectangles of
      column `x`, as `(left, top, width, height)`. */
  datatype Rect = Rect(left: int, top: int, width: int, height: int)
  datatype Slice = Slice(ceiling: Rect, floor: Rect, wall: Rect)

  /** `(100000 / rayLength) * 4`, capped at the screen height. */
  function WallHeight(rayLength: int): (h: int)
    requires rayLength >= 1
    ensures 0 <= h <= ScreenHeight && h % 2 == 0
  {
    var wallHeight := (100000 / rayLength) * 4;
    if wallHeight > ScreenHeight then ScreenHeight else wallHeight
  }

  /** The three rectangles of column `x`. They stack without gap or overlap: the ceiling
      runs from the top to the wall, the wall is `WallHeight` tall and centred on row
      100, and the floor runs from the wall to the bottom of the screen. */
  function SliceAt(x: int, rayLength: int): (s: Slice)
    requires rayLength >= 1
    ensures s.ceiling.top == 0 && s.ceiling.top + s.ceiling.height == s.wall.top
    ensures s.wall.top + s.wall.height == s.floor.top
    ensures s.floor.top + s.floor.height == ScreenHeight
    ensures s.wall.height == WallHeight(rayLength) && 0 <= s.wall.top <= ScreenCenterY
    ensures s.wall.top - 0 == ScreenHeight - s.floor.top
    ensures s.ceiling.left == s.floor.left == s.wall.left == x
    ensures s.ceiling.width == s.floor.width == s.wall.width == DrawLineWidth
  {
    var wallHeight := WallHeight(rayLength);
    var halfWallHeight := wallHeight / 2;
    Slice(Rect(x, 0, DrawLineWidth, ScreenCenterY - halfWallHeight),
          Rect(x, ScreenCenterY + halfWallHeight, DrawLineWidth, ScreenCenterY - halfWallHeight),
          Rect(x, ScreenCenterY - halfWallHeight, DrawLineWidth, wallHeight))
  }

  /** Nearer walls are drawn at least as tall: the height never grows with the ray's
      length. */
  lemma {:induction false} WallHeightShrinks(near: int, far: int)
    requires 1 <= near <= far
    ensures WallHeight(far) <= WallHeight(near)
  {
    DivAntitone(100000, near, far);
  }

  /** Dividing a non-negative number by a larger divisor gives no larger quotient. */
  lemma DivAntitone(n: int, a: int, b: int)
    requires 0 <= n && 1 <= a <= b
    ensures n / b <= n / a
  {
    var qa, qb := n / a, n / b;
    assert qb * b <= n;
    MulMonotone(a, b, qb);
    assert n < (qa + 1) * a;
    if qb > qa {
      MulMonotone(qa + 1, qb, a);
    }
  }

  /** The longest march the 100 x 100-unit world allows: its diagonal, about 141.42
      units, in steps of 0.01, plus the march's starting count of 1. */
  const LongestMarch := 14143

  /** Rays up to 2000 units long draw a wall the full screen height. Every ray a march
      in the world can produce, at most `LongestMarch` long, draws a wall at least 28 rows
      tall; the cut-off beyond which no wall is drawn, 100000, lies far past that. */
  lemma WallHeightRange(rayLength: int)
    requires rayLength >= 1
    ensures rayLength <= 2000 ==> WallHeight(rayLength) == ScreenHeight
    ensures rayLength <= LongestMarch ==> WallHeight(rayLength) >= 28
    ensures rayLength > 100000 ==> WallHeight(rayLength) == 0
  {
    if rayLength <= 2000 {
      DivAntitone(100000, rayLength, 2000);
    } else if rayLength <= LongestMarch {
      DivAntitone(100000, rayLength, LongestMarch);
    }
  }
}
