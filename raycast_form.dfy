/** RaycastForm's game state and frame loop: the player on the 12 x 12 map, the
    texture store, and the frame buffer that OnPaint fills column by column. */
module RaycastFormModel {
  import opened Numerics
  import opened Colors
  import opened Grids
  import opened TextureSpec
  import opened TextureStore
  import opened Dda
  import opened Frame

  /** The floating-point ray geometry OnPaint computes for one screen column from the
      camera (`atan`, `tan`, `cos`, `sin`, `perpWallDist`, `wallX`), taken as given:
      the ray direction, `lineHeight = (int)(screenH / perpWallDist)` and `texXf`. */
  datatype ColumnRay = ColumnRay(rayDirX: real, rayDirY: real, lineHeight: int, texXf: real)

  /** `Color.FromArgb(80, Color.Gray)`, the minimap's floor. */
  const MiniMapFloor: Argb := 0x50808080

  class RaycastForm {
    const worldMap: Grid
    var textures: TextureSet
    var frameBufferPixels: array<Argb>
    var frameWidth: int
    var frameHeight: int
    var playerX: real
    var playerY: real
    var playerAngle: real

    /** The player stands in an open cell of the map; the frame buffer matches its
        bitmap's size and is none of the texture buffers. */
    ghost predicate Valid()
      reads this, textures, textures.texturePixels
    {
      worldMap == RaycastMap && textures.Valid() &&
      0 <= frameWidth && 0 <= frameHeight && frameBufferPixels.Length == frameWidth * frameHeight &&
      frameBufferPixels !in textures.texturePixels &&
      InBounds(worldMap, Trunc(playerX), Trunc(playerY)) && Cell(worldMap, Trunc(playerX), Trunc(playerY)) == 0
    }

    /** The constructor with its texture store already loaded (or empty when there is no
        atlas) and a client area of `clientW` by `clientH`. */
    constructor(store: TextureSet, clientW: int, clientH: int)
      requires store.Valid() && 0 <= clientW && 0 <= clientH
      ensures Valid() && textures == store
      ensures playerX == 3.5 && playerY == 3.5 && playerAngle == 0.0
      ensures frameWidth == clientW && frameHeight == clientH
    {
      worldMap := RaycastMap;
      textures := store;
      frameBufferPixels := new Argb[clientW * clientH];
      frameWidth, frameHeight := clientW, clientH;
      playerX, playerY, playerAngle := 3.5, 3.5, 0.0;
      RaycastMapShape();
    }

    /** TryMove: the player moves to `(nx, ny)` exactly when the cell `((int)nx, (int)ny)`
        is on the map and open; otherwise nothing changes. The angle, the map and the
        buffers never change. */
    method TryMove(nx: real, ny: real)
      requires Valid()
      modifies this
      ensures Valid()
      ensures var mx, my := Trunc(nx), Trunc(ny);
        if InBounds(worldMap, mx, my) && Cell(worldMap, mx, my) == 0
        then playerX == nx && playerY == ny
        else playerX == old(playerX) && playerY == old(playerY)
      ensures playerAngle == old(playerAngle) && textures == old(textures)
      ensures frameBufferPixels == old(frameBufferPixels)
      ensures frameWidth == old(frameWidth) && frameHeight == old(frameHeight)
    {
      var mapW := Width(worldMap);
      var mapH := Height(worldMap);
      var mx := Trunc(nx);
      var my := Trunc(ny);
      if mx >= 0 && my >= 0 && mx < mapW && my < mapH && worldMap[my][mx] == 0 {
        playerX := nx;
        playerY := ny;
      }
    }

    /** What a wall of material `texIndex` is painted with: its tile when the store holds
        one, else its palette colour (Magenta past the palette). */
    ghost function PaintFor(texIndex: nat, texXf: real): (p: WallPaint)
      requires textures.Valid()
      reads this, textures, textures.texturePixels
      ensures PaintOk(p)
    {
      if 0 < texIndex < textures.Count() then Textured(textures.Tex(texIndex), texXf)
      else Flat(PaletteColor(texIndex))
    }

    /** Row `y` of the column whose ray is `c`, once OnPaint is done: the fill, unless the
        ray walked from the player's cell into a wall, whose run then covers its extent. */
    ghost function ExpectedPixel(screenH: int, c: ColumnRay, y: int): Argb
      requires Valid() && 0 <= screenH
      reads this, textures, textures.texturePixels
    {
      var rw := Start(playerX, playerY, c.rayDirX, c.rayDirY);
      var o := Walk(worldMap, rw.0, rw.1);
      if o.Miss? then Background(screenH, y)
      else FramePixel(screenH, true, ColumnExtent(c.lineHeight, screenH), PaintFor(o.texIndex, c.texXf), o.at.side, y)
    }

    /** A wall at least as tall as the screen leaves no ceiling or floor in its column:
        every row shows the run, from the run's first row at the top. */
    lemma CloseWallFillsColumn(screenH: int, c: ColumnRay)
      requires Valid() && 1 <= screenH <= c.lineHeight
      requires Walk(worldMap, Start(playerX, playerY, c.rayDirX, c.rayDirY).0,
                    Start(playerX, playerY, c.rayDirX, c.rayDirY).1).Hit?
      ensures forall y :: 0 <= y < screenH ==>
        var rw := Start(playerX, playerY, c.rayDirX, c.rayDirY);
        var o := Walk(worldMap, rw.0, rw.1);
        ExpectedPixel(screenH, c, y) == WallPixel(PaintFor(o.texIndex, c.texXf), o.at.side, y, screenH)
    {
      var e := ColumnExtent(c.lineHeight, screenH);
      assert e.drawStart == 0 && e.drawEnd == screenH - 1;
    }

    /** OnPaint's frame composition: size the buffer to the client area, fill ceiling and
        floor, then cast one ray per column and draw its wall run. Every pixel ends as
        `ExpectedPixel` says; the player, the worldMap and the textures are untouched. */
    method RenderFrame(screenW: int, screenH: int, columns: seq<ColumnRay>)
      requires Valid() && 0 <= screenW && 0 <= screenH && |columns| == screenW
      modifies this, frameBufferPixels
      ensures Valid()
      ensures frameWidth == screenW && frameHeight == screenH
      ensures forall x, y :: 0 <= x < screenW && 0 <= y < screenH ==>
        frameBufferPixels[Index(screenW, screenH, x, y)] == ExpectedPixel(screenH, columns[x], y)
      ensures playerX == old(playerX) && playerY == old(playerY) && playerAngle == old(playerAngle)
      ensures textures == old(textures)
    {
      if frameWidth != screenW || frameHeight != screenH {
        frameBufferPixels := new Argb[screenW * screenH];
        frameWidth, frameHeight := screenW, screenH;
      }
      DrawColumns(screenW, screenH, columns);
    }

    /** The fill and the column loop of OnPaint on a buffer of the right size. Only the
        buffer's pixels change. */
    method DrawColumns(screenW: int, screenH: int, columns: seq<ColumnRay>)
      requires Valid() && frameWidth == screenW && frameHeight == screenH && |columns| == screenW
      modifies frameBufferPixels
      ensures forall x, y :: 0 <= x < screenW && 0 <= y < screenH ==>
        frameBufferPixels[Index(screenW, screenH, x, y)] == ExpectedPixel(screenH, columns[x], y)
    {
      var fb := frameBufferPixels;
      FillCeilingFloor(fb, screenW, screenH);
      var x := 0;
      while x < screenW
        invariant 0 <= x <= screenW
        invariant forall xx, yy :: 0 <= xx < screenW && 0 <= yy < screenH ==>
          fb[Index(screenW, screenH, xx, yy)] ==
            if xx < x then ExpectedPixel(screenH, columns[xx], yy) else Background(screenH, yy)
      {
        DrawColumn(screenW, screenH, x, columns[x]);
        x := x + 1;
      }
    }

    /** One pass of OnPaint's column loop on a column still holding the fill: cast the
        ray, and on a hit draw its run, from the tile when the store holds one for the
        cell's material and in the palette colour otherwise. */
    method DrawColumn(screenW: int, screenH: int, x: int, c: ColumnRay)
      requires Valid() && 0 <= x < screenW && frameWidth == screenW && frameHeight == screenH
      requires forall yy :: 0 <= yy < screenH ==>
        frameBufferPixels[Index(screenW, screenH, x, yy)] == Background(screenH, yy)
      modifies frameBufferPixels
      ensures forall xx, yy :: 0 <= xx < screenW && 0 <= yy < screenH ==>
        frameBufferPixels[Index(screenW, screenH, xx, yy)] ==
          if xx == x then old(ExpectedPixel(screenH, c, yy))
          else old(frameBufferPixels[Index(screenW, screenH, xx, yy)])
    {
      var fb := frameBufferPixels;
      var rw := Start(playerX, playerY, c.rayDirX, c.rayDirY);
      var w, hit, texIndex;
      ghost var passes;
      w, hit, texIndex, passes := CastRay(worldMap, rw.0, rw.1);
      if !hit {
        assert forall yy :: 0 <= yy < screenH ==> ExpectedPixel(screenH, c, yy) == Background(screenH, yy);
        return;
      }
      var e := ColumnExtent(c.lineHeight, screenH);
      DrawRun(screenW, screenH, x, e, texIndex, c.texXf, w.side);
    }

    /** The wall run of column `x` for a hit on material `texIndex`: from the tile when
        the store holds one, in the palette colour otherwise; the rest of the frame is
        left as it was. */
    method DrawRun(screenW: int, screenH: int, x: int, e: Extent, texIndex: nat, texXf: real, side: int)
      requires Valid() && 0 <= x < screenW && frameWidth == screenW && frameHeight == screenH
      requires 0 <= e.drawStart && e.drawEnd < screenH
      requires forall yy :: 0 <= yy < screenH ==>
        frameBufferPixels[Index(screenW, screenH, x, yy)] == Background(screenH, yy)
      modifies frameBufferPixels
      ensures forall xx, yy :: 0 <= xx < screenW && 0 <= yy < screenH ==>
        frameBufferPixels[Index(screenW, screenH, xx, yy)] ==
          if xx == x then old(FramePixel(screenH, true, e, PaintFor(texIndex, texXf), side, yy))
          else old(frameBufferPixels[Index(screenW, screenH, xx, yy)])
    {
      var fb := frameBufferPixels;
      ghost var paint := PaintFor(texIndex, texXf);
      if 0 < texIndex < |textures.texturePixels| {
        var pixels := textures.texturePixels[texIndex];
        var texW, texH := textures.textureWidths[texIndex], textures.textureHeights[texIndex];
        assert paint == Textured(Texture(pixels[..], texW, texH), texXf);
        DrawTexturedColumn(fb, screenW, screenH, x, e, pixels, texW, texH, texXf, side);
        assert paint == Textured(Texture(pixels[..], texW, texH), texXf);
      } else {
        assert paint == Flat(PaletteColor(texIndex));
        DrawFlatColumn(fb, screenW, screenH, x, e, PaletteColor(texIndex), side);
      }
    }

    /** The fill of one minimap cell: translucent gray for an open cell; for a wall the
        representative colour of its tile when the store holds one, else its palette
        colour (Magenta past the palette). */
    method MiniMapCellColor(cell: nat) returns (c: Argb)
      requires Valid()
      ensures cell == 0 ==> c == MiniMapFloor
      ensures 0 < cell < textures.Count() ==> c == Representative(textures.Tex(cell))
      ensures cell != 0 && cell >= textures.Count() ==> c == PaletteColor(cell)
    {
      if cell == 0 {
        c := MiniMapFloor;
      } else if 0 < cell < |textures.texturePixels| {
        c := textures.RepresentativeColor(cell);
      } else {
        c := PaletteColor(cell);
      }
    }
  }
}
