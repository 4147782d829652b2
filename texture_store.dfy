/** RaycastForm's texture store as the source runs it: the atlas slicing loop, the
    counting and cropping loops of RemoveBlackBordersFromTextures over flat `int[]` ARGB
    buffers, and GetTextureRepresentativeColor, each proved against TextureSpec. */
module TextureStore {
  import opened Numerics
  import opened Colors
  import opened TextureSpec

  // ---------------------------------------------------------------- border detection

  /** The inner `blackCount` loop over row `y`. */
  method CountDarkInRow(px: array<Argb>, w: int, h: int, y: int) returns (blackCount: int)
    requires IsImage(Texture(px[..], w, h)) && 0 <= y < h
    ensures blackCount == DarkInRow(Texture(px[..], w, h), y, w)
  {
    ghost var t := Texture(px[..], w, h);
    blackCount := 0;
    var x := 0;
    while x < w
      invariant 0 <= x <= w
      invariant blackCount == DarkInRow(t, y, x)
    {
      var c := px[Index(w, h, x, y)];
      if ChannelSum(c) < BlackThreshold {
        blackCount := blackCount + 1;
      }
      x := x + 1;
    }
  }

  /** The inner `blackCount` loop over column `x`. */
  method CountDarkInColumn(px: array<Argb>, w: int, h: int, x: int) returns (blackCount: int)
    requires IsImage(Texture(px[..], w, h)) && 0 <= x < w
    ensures blackCount == DarkInColumn(Texture(px[..], w, h), x, h)
  {
    ghost var t := Texture(px[..], w, h);
    blackCount := 0;
    var y := 0;
    while y < h
      invariant 0 <= y <= h
      invariant blackCount == DarkInColumn(t, x, y)
    {
      var c := px[Index(w, h, x, y)];
      if ChannelSum(c) < BlackThreshold {
        blackCount := blackCount + 1;
      }
      y := y + 1;
    }
  }

  /** "detect top": count border rows from the top, stopping at the first that is not. */
  method DetectTop(px: array<Argb>, w: int, h: int) returns (top: int)
    requires IsImage(Texture(px[..], w, h))
    ensures top == LeadingRun(BorderRows(Texture(px[..], w, h)))
  {
    ghost var t := Texture(px[..], w, h);
    ghost var rows := BorderRows(t);
    top := 0;
    var y := 0;
    while y < h
      invariant 0 <= y <= h && top == y
      invariant forall i :: 0 <= i < y ==> rows[i]
    {
      var blackCount := CountDarkInRow(px, w, h, y);
      BorderRowAt(t, y);
      if IsBorderLine(blackCount, w) {
        top := top + 1;
      } else {
        break;
      }
      y := y + 1;
    }
    LeadingRunUnique(rows, top);
  }

  /** "detect bottom": count border rows from the bottom. */
  method DetectBottom(px: array<Argb>, w: int, h: int) returns (bottom: int)
    requires IsImage(Texture(px[..], w, h))
    ensures bottom == TrailingRun(BorderRows(Texture(px[..], w, h)))
  {
    ghost var t := Texture(px[..], w, h);
    ghost var rows := BorderRows(t);
    bottom := 0;
    var y := h - 1;
    while y >= 0
      invariant -1 <= y <= h - 1 && bottom == h - 1 - y
      invariant forall i :: y < i < h ==> rows[i]
    {
      var blackCount := CountDarkInRow(px, w, h, y);
      BorderRowAt(t, y);
      if IsBorderLine(blackCount, w) {
        bottom := bottom + 1;
      } else {
        break;
      }
      y := y - 1;
    }
    TrailingRunUnique(rows, bottom);
  }

  /** "detect left": count border columns from the left. */
  method DetectLeft(px: array<Argb>, w: int, h: int) returns (left: int)
    requires IsImage(Texture(px[..], w, h))
    ensures left == LeadingRun(BorderColumns(Texture(px[..], w, h)))
  {
    ghost var t := Texture(px[..], w, h);
    ghost var columns := BorderColumns(t);
    left := 0;
    var x := 0;
    while x < w
      invariant 0 <= x <= w && left == x
      invariant forall i :: 0 <= i < x ==> columns[i]
    {
      var blackCount := CountDarkInColumn(px, w, h, x);
      BorderColumnAt(t, x);
      if IsBorderLine(blackCount, h) {
        left := left + 1;
      } else {
        break;
      }
      x := x + 1;
    }
    LeadingRunUnique(columns, left);
  }

  /** "detect right": count border columns from the right. */
  method DetectRight(px: array<Argb>, w: int, h: int) returns (right: int)
    requires IsImage(Texture(px[..], w, h))
    ensures right == TrailingRun(BorderColumns(Texture(px[..], w, h)))
  {
    ghost var t := Texture(px[..], w, h);
    ghost var columns := BorderColumns(t);
    right := 0;
    var x := w - 1;
    while x >= 0
      invariant -1 <= x <= w - 1 && right == w - 1 - x
      invariant forall i :: x < i < w ==> columns[i]
    {
      var blackCount := CountDarkInColumn(px, w, h, x);
      BorderColumnAt(t, x);
      if IsBorderLine(blackCount, h) {
        right := right + 1;
      } else {
        break;
      }
      x := x - 1;
    }
    TrailingRunUnique(columns, right);
  }

  // ---------------------------------------------------------------- cropping

  /** `Array.Copy(src, srcIndex, dst, dstIndex, length)` between two distinct arrays. */
  method ArrayCopy(src: array<Argb>, srcIndex: int, dst: array<Argb>, dstIndex: int, length: int)
    requires src != dst && 0 <= length
    requires 0 <= srcIndex && srcIndex + length <= src.Length
    requires 0 <= dstIndex && dstIndex + length <= dst.Length
    modifies dst
    ensures dst[..] == old(dst[..dstIndex]) + src[srcIndex .. srcIndex + length] + old(dst[dstIndex + length..])
  {
    var i := 0;
    while i < length
      invariant 0 <= i <= length
      invariant dst[..dstIndex] == old(dst[..dstIndex])
      invariant dst[dstIndex .. dstIndex + i] == src[srcIndex .. srcIndex + i]
      invariant dst[dstIndex + length..] == old(dst[dstIndex + length..])
    {
      dst[dstIndex + i] := src[srcIndex + i];
      i := i + 1;
    }
    assert dst[..] == dst[..dstIndex] + dst[dstIndex .. dstIndex + length] + dst[dstIndex + length..];
  }

  /** Row `yy` of the crop loop reads `newW` pixels from `(yy + c.top) * w + c.left`
      and writes them at `yy * newW`; both ranges lie inside their buffers. */
  lemma CopyCropBounds(t: Texture, c: Crop, newW: int, newH: int, yy: int, start: int, dst: int)
    requires IsImage(t) && FitsIn(t, c)
    requires newW == t.width - c.left - c.right && newH == t.height - c.top - c.bottom
    requires 0 <= yy < newH && start == (yy + c.top) * t.width + c.left && dst == yy * newW
    ensures 0 <= start && start + newW <= |t.pixels|
    ensures 0 <= dst && dst + newW <= newW * newH
    ensures dst + newW == (yy + 1) * newW
  {
    RowMajorIndex(t.width, t.height, c.left + newW - 1, yy + c.top);
    MulMonotone(yy + 1, newH, newW);
  }

  /** Copying that row extends the cropped rows by one. */
  lemma CopyCropRow(t: Texture, c: Crop, newW: int, newH: int, yy: int, start: int)
    requires IsImage(t) && FitsIn(t, c)
    requires newW == t.width - c.left - c.right && newH == t.height - c.top - c.bottom
    requires 0 <= yy < newH && start == (yy + c.top) * t.width + c.left
    requires 0 <= start && start + newW <= |t.pixels|
    ensures CropRows(t, c, newW, yy + 1) == CropRows(t, c, newW, yy) + t.pixels[start .. start + newW]
  {
  }

  /** One pass of the crop loop: `Array.Copy(px, (yy + cropTop) * w + cropLeft, newPx,
      yy * newW, newW)`. */
  method CopyCropRowInto(px: array<Argb>, w: int, h: int, c: Crop, newPx: array<Argb>, newW: int, newH: int, yy: int, dst: int)
    requires px != newPx
    requires IsImage(Texture(px[..], w, h)) && FitsIn(Texture(px[..], w, h), c)
    requires newW == w - c.left - c.right && newH == h - c.top - c.bottom
    requires newPx.Length == newW * newH
    requires 0 <= yy < newH && dst == yy * newW
    requires newPx[..dst] == CropRows(Texture(px[..], w, h), c, newW, yy)
    modifies newPx
    ensures dst + newW == (yy + 1) * newW && dst + newW <= newPx.Length
    ensures newPx[..dst + newW] == CropRows(Texture(px[..], w, h), c, newW, yy + 1)
  {
    ghost var t := Texture(px[..], w, h);
    var start := (yy + c.top) * w + c.left;
    CopyCropBounds(t, c, newW, newH, yy, start, dst);
    CopyCropRow(t, c, newW, newH, yy, start);
    ArrayCopy(px, start, newPx, dst, newW);
    assert newPx[..dst + newW] == newPx[..dst] + px[start .. start + newW];
  }

  /** The crop loop: a new `newW * newH` buffer filled row by row. */
  method CopyCrop(px: array<Argb>, w: int, h: int, c: Crop) returns (newPx: array<Argb>)
    requires IsImage(Texture(px[..], w, h)) && FitsIn(Texture(px[..], w, h), c)
    ensures newPx[..] == Cropped(Texture(px[..], w, h), c).pixels
  {
    ghost var t := Texture(px[..], w, h);
    var newW := w - c.left - c.right;
    var newH := h - c.top - c.bottom;
    var size := newW * newH;
    newPx := new Argb[size];
    var yy := 0;
    var dst := 0;
    while yy < newH
      invariant 0 <= yy <= newH
      invariant dst == yy * newW
      invariant px[..] == t.pixels
      invariant newPx[..dst] == CropRows(t, c, newW, yy)
    {
      CopyCropRowInto(px, w, h, c, newPx, newW, newH, yy, dst);
      dst := dst + newW;
      yy := yy + 1;
    }
    CopyCropDone(t, c, newW, newH, newPx[..], dst);
  }

  /** Once all `newH` rows are copied the buffer is the cropped tile. */
  lemma CopyCropDone(t: Texture, c: Crop, newW: int, newH: int, s: seq<Argb>, dst: int)
    requires IsImage(t) && FitsIn(t, c)
    requires newW == t.width - c.left - c.right && newH == t.height - c.top - c.bottom
    requires |s| == newW * newH && dst == newH * newW
    requires s[..dst] == CropRows(t, c, newW, newH)
    ensures s == Cropped(t, c).pixels
  {
    assert s == s[..dst];
  }

  /** The body of RemoveBlackBordersFromTextures for one slot: measure the four borders,
      clamp the crop, and copy the kept rectangle into a new buffer. A slot with nothing
      to crop keeps its buffer. */
  method TrimTexture(px: array<Argb>, w: int, h: int) returns (newPx: array<Argb>, newW: int, newH: int)
    requires IsImage(Texture(px[..], w, h))
    ensures Texture(newPx[..], newW, newH) == Trimmed(Texture(px[..], w, h))
    ensures CropOf(Texture(px[..], w, h)) == NoCrop ==> newPx == px
  {
    ghost var t := Texture(px[..], w, h);
    var top := DetectTop(px, w, h);
    var bottom := DetectBottom(px, w, h);
    var left := DetectLeft(px, w, h);
    var right := DetectRight(px, w, h);

    var cropLeft := Min(left, w - 1);
    var cropRight := Min(right, w - 1 - cropLeft);
    var cropTop := Min(top, h - 1);
    var cropBottom := Min(bottom, h - 1 - cropTop);
    var c := Crop(cropLeft, cropRight, cropTop, cropBottom);
    assert c == CropOf(t);
    assert Trimmed(t) == ApplyCrop(t, c);

    newW := w - cropLeft - cropRight;
    newH := h - cropTop - cropBottom;
    if newW > 0 && newH > 0 && (cropLeft != 0 || cropRight != 0 || cropTop != 0 || cropBottom != 0) {
      newPx := CopyCrop(px, w, h, c);
      assert Texture(newPx[..], newW, newH) == Cropped(t, c) == ApplyCrop(t, c);
    } else {
      assert c == NoCrop && ApplyCrop(t, c) == t;
      newPx, newW, newH := px, w, h;
    }
  }

  // ---------------------------------------------------------------- atlas slicing

  /** `Rectangle(x, y, width, height)`; the default rectangle is all zeros. */
  datatype Rect = Rect(x: int, y: int, width: int, height: int)

  const Empty := Rect(0, 0, 0, 0)

  /** The atlas is read as 4 columns. */
  const AtlasColumns := 4

  /** `Math.Max(1, (atlas.Height * 4) / atlas.Width)`. */
  function AtlasRows(atlasW: int, atlasH: int): (rows: int)
    requires atlasW >= 1 && atlasH >= 1
    ensures rows >= 1
  {
    Max(1, atlasH * AtlasColumns / atlasW)
  }

  /** For an atlas at least 4 pixels wide there are no more rows than pixel lines, so
      every tile is at least one pixel high. */
  lemma AtlasRowsAtMostHeight(atlasW: int, atlasH: int)
    requires atlasW >= AtlasColumns && atlasH >= 1
    ensures AtlasRows(atlasW, atlasH) <= atlasH
  {
    var q := atlasH * AtlasColumns / atlasW;
    DivBounds(atlasH * AtlasColumns, atlasW, atlasH * AtlasColumns);
    if q > atlasH {
      MulMonotone(atlasH + 1, q, atlasW);
      MulMonotone(AtlasColumns, atlasW, atlasH + 1);
      assert false;
    }
  }

  /** `atlas.Width / 4`. */
  function TileWidth(atlasW: int): int
  {
    atlasW / AtlasColumns
  }

  /** `atlas.Height / rows`. */
  function TileHeight(atlasW: int, atlasH: int): int
    requires atlasW >= 1 && atlasH >= 1
  {
    atlasH / AtlasRows(atlasW, atlasH)
  }

  /** Rectangle `i` (1-based) of the atlas: column `(i - 1) % 4`, row `(i - 1) / 4`. */
  function TileRect(atlasW: int, atlasH: int, i: int): Rect
    requires atlasW >= 1 && atlasH >= 1
  {
    var tw := TileWidth(atlasW);
    var th := TileHeight(atlasW, atlasH);
    Rect(((i - 1) % AtlasColumns) * tw, ((i - 1) / AtlasColumns) * th, tw, th)
  }

  /** A tile's pixels as an image of the tile size; for an atlas at least 4 pixels wide
      that size is at least one pixel each way. */
  function AtlasTile(atlasW: int, atlasH: int, pixels: seq<Argb>): (t: Texture)
    requires atlasW >= AtlasColumns && atlasH >= 1
    requires |pixels| == TileWidth(atlasW) * TileHeight(atlasW, atlasH)
    ensures IsImage(t) && t.pixels == pixels
    ensures t.width == TileWidth(atlasW) && t.height == TileHeight(atlasW, atlasH)
  {
    TileInsideAtlas(atlasW, atlasH, 1);
    Texture(pixels, TileWidth(atlasW), TileHeight(atlasW, atlasH))
  }

  /** The slicing loop of the constructor: `_textureRects[0]` stays the empty rectangle and
      `_textureRects[idx++]` walks the atlas row by row. */
  method SliceAtlas(atlasW: int, atlasH: int) returns (texCols: int, texRows: int, rects: array<Rect>)
    requires atlasW >= 1 && atlasH >= 1
    ensures texCols == AtlasColumns && texRows == AtlasRows(atlasW, atlasH)
    ensures rects.Length == texCols * texRows + 1
    ensures rects[0] == Empty
    ensures forall i :: 1 <= i < rects.Length ==> rects[i] == TileRect(atlasW, atlasH, i)
  {
    texCols := AtlasColumns;
    texRows := AtlasRows(atlasW, atlasH);
    var tw := atlasW / texCols;
    var th := atlasH / texRows;
    rects := new Rect[texCols * texRows + 1](_ => Empty);
    var idx := 1;
    var ry := 0;
    while ry < texRows
      invariant 0 <= ry <= texRows
      invariant idx == 1 + ry * texCols
      invariant rects[0] == Empty
      invariant forall i :: 1 <= i < idx ==> rects[i] == TileRect(atlasW, atlasH, i)
    {
      var rx := 0;
      while rx < texCols
        invariant 0 <= rx <= texCols
        invariant idx == 1 + ry * texCols + rx
        invariant rects[0] == Empty
        invariant forall i :: 1 <= i < idx ==> rects[i] == TileRect(atlasW, atlasH, i)
      {
        MulMonotone(ry + 1, texRows, texCols);
        assert (idx - 1) % AtlasColumns == rx && (idx - 1) / AtlasColumns == ry;
        rects[idx] := Rect(rx * tw, ry * th, tw, th);
        idx := idx + 1;
        rx := rx + 1;
      }
      ry := ry + 1;
    }
  }

  /** Slot `k` of `n` equal slots of `size` units fits in `total` units. */
  lemma SlotInside(k: int, n: int, size: int, total: int)
    requires 0 <= k < n && 0 <= size && n * size <= total
    ensures 0 <= k * size && k * size + size <= total
  {
    MulMonotone(0, k, size);
    MulMonotone(k + 1, n, size);
  }

  /** Two different slots of the same size share no unit. */
  lemma SlotsDisjoint(k1: int, k2: int, size: int, p: int)
    requires 0 <= k1 < k2 && 0 <= size
    ensures !(k1 * size <= p < k1 * size + size && k2 * size <= p < k2 * size + size)
  {
    MulMonotone(k1 + 1, k2, size);
  }

  /** For an atlas at least 4 pixels wide every tile is non-empty and lies inside the atlas. */
  lemma TileInsideAtlas(atlasW: int, atlasH: int, i: int)
    requires atlasW >= AtlasColumns && atlasH >= 1
    requires 1 <= i <= AtlasColumns * AtlasRows(atlasW, atlasH)
    ensures var r := TileRect(atlasW, atlasH, i);
      r.width >= 1 && r.height >= 1 &&
      0 <= r.x && r.x + r.width <= atlasW && 0 <= r.y && r.y + r.height <= atlasH
  {
    var rows := AtlasRows(atlasW, atlasH);
    var tw := atlasW / AtlasColumns;
    var th := atlasH / rows;
    AtlasRowsAtMostHeight(atlasW, atlasH);
    DivBounds(atlasH, rows, atlasH);
    SlotInside((i - 1) % AtlasColumns, AtlasColumns, tw, atlasW);
    SlotInside((i - 1) / AtlasColumns, rows, th, atlasH);
  }

  /** Distinct tiles do not overlap. */
  lemma TilesDisjoint(atlasW: int, atlasH: int, i: int, j: int, px: int, py: int)
    requires atlasW >= AtlasColumns && atlasH >= 1
    requires 1 <= i <= AtlasColumns * AtlasRows(atlasW, atlasH)
    requires 1 <= j <= AtlasColumns * AtlasRows(atlasW, atlasH)
    requires i != j
    ensures var a := TileRect(atlasW, atlasH, i);
      var b := TileRect(atlasW, atlasH, j);
      !(a.x <= px < a.x + a.width && a.y <= py < a.y + a.height &&
        b.x <= px < b.x + b.width && b.y <= py < b.y + b.height)
  {
    var tw := atlasW / AtlasColumns;
    var th := atlasH / AtlasRows(atlasW, atlasH);
    var ix, iy := (i - 1) % AtlasColumns, (i - 1) / AtlasColumns;
    var jx, jy := (j - 1) % AtlasColumns, (j - 1) / AtlasColumns;
    if ix < jx {
      SlotsDisjoint(ix, jx, tw, px);
    } else if jx < ix {
      SlotsDisjoint(jx, ix, tw, px);
    } else if iy < jy {
      SlotsDisjoint(iy, jy, th, py);
    } else {
      SlotsDisjoint(jy, iy, th, py);
    }
  }

  // ---------------------------------------------------------------- the store

  /** RaycastForm's `_texturePixels`, `_textureWidths` and `_textureHeights`: one buffer
      and two dimensions per slot. Slot 0 is unused (an empty buffer here, `null` in the
      source); without an atlas there are no slots at all, which every bounds test
      treats as the source treats `null`. */
  /** A pixel buffer with its width and height, as a value. */
  ghost function Slot(px: array<Argb>, w: int, h: int): Texture
    reads px
  {
    Texture(px[..], w, h)
  }

  class TextureSet {
    var texturePixels: seq<array<Argb>>
    var textureWidths: seq<int>
    var textureHeights: seq<int>

    /** The number of slots, `_texturePixels.Length`. */
    function Count(): nat
      reads this
    {
      |texturePixels|
    }

    /** The three tables line up, and every used slot holds a well-formed tile. */
    ghost predicate Valid()
      reads this, texturePixels
    {
      |texturePixels| == |textureWidths| == |textureHeights| &&
      forall t :: 1 <= t < |texturePixels| ==> IsImage(Tex(t))
    }

    /** Slot `t` as a value. */
    ghost function Tex(t: int): Texture
      requires 0 <= t < |texturePixels| == |textureWidths| == |textureHeights|
      reads this, texturePixels[t]
    {
      Slot(texturePixels[t], textureWidths[t], textureHeights[t])
    }

    /** No atlas: `_texturePixels == null`. */
    constructor NoAtlas()
      ensures Valid() && Count() == 0
    {
      texturePixels, textureWidths, textureHeights := [], [], [];
    }

    /** The loading branch of the constructor for an atlas of `atlasW` by `atlasH` pixels:
        slice it into `4 * rows` tiles, take tile `i`'s pixels as `tiles[i - 1]` (the
        `LockBits`/`Marshal.Copy` extraction), then trim every tile's black border. */
    constructor Load(atlasW: int, atlasH: int, tiles: seq<seq<Argb>>)
      requires atlasW >= AtlasColumns && atlasH >= 1
      requires |tiles| == AtlasColumns * AtlasRows(atlasW, atlasH)
      requires forall i :: 0 <= i < |tiles| ==> |tiles[i]| == TileWidth(atlasW) * TileHeight(atlasW, atlasH)
      ensures Valid() && Count() == |tiles| + 1
      ensures forall t :: 1 <= t < Count() ==> Tex(t) == Trimmed(AtlasTile(atlasW, atlasH, tiles[t - 1]))
    {
      var texCols, texRows, rects := SliceAtlas(atlasW, atlasH);
      ghost var tw, th := TileWidth(atlasW), TileHeight(atlasW, atlasH);
      var none := new Argb[0];
      var pixels, widths, heights := [none], [0], [0];
      var i := 1;
      while i < rects.Length
        invariant 1 <= i <= rects.Length
        invariant |pixels| == |widths| == |heights| == i
        invariant forall k :: 1 <= k < rects.Length ==> rects[k] == TileRect(atlasW, atlasH, k)
        invariant forall k :: 1 <= k < i ==> Texture(pixels[k][..], widths[k], heights[k]) == Texture(tiles[k - 1], tw, th)
      {
        var r := rects[i];
        assert r.width == tw && r.height == th;
        var tile := tiles[i - 1];
        var buffer := new Argb[r.width * r.height](j requires 0 <= j < |tile| => tile[j]);
        assert buffer[..] == tile;
        pixels, widths, heights := pixels + [buffer], widths + [r.width], heights + [r.height];
        i := i + 1;
      }
      texturePixels, textureWidths, textureHeights := pixels, widths, heights;
      new;
      forall t | 1 <= t < Count()
        ensures Tex(t) == AtlasTile(atlasW, atlasH, tiles[t - 1])
      {
      }
      RemoveBlackBorders();
    }

    /** RemoveBlackBordersFromTextures: every used slot is replaced by its trimmed tile;
        a slot with nothing to crop keeps its buffer, and slot 0 is left alone. */
    method RemoveBlackBorders()
      requires Valid()
      modifies this
      ensures Valid() && Count() == old(Count())
      ensures forall t :: 1 <= t < Count() ==> Tex(t) == Trimmed(old(Tex(t)))
      ensures forall t :: 1 <= t < Count() && CropOf(old(Tex(t))) == NoCrop ==>
        texturePixels[t] == old(texturePixels[t])
      ensures Count() > 0 ==> texturePixels[0] == old(texturePixels[0]) && Tex(0) == old(Tex(0))
    {
      var pixels, widths, heights := TrimmedSlots();
      texturePixels, textureWidths, textureHeights := pixels, widths, heights;
    }

    /** The loop of RemoveBlackBordersFromTextures, building the new tables: entry `t >= 1`
        is slot `t` trimmed (its own buffer when there is nothing to crop), entry 0 is
        slot 0 as it is. No buffer of the store is written. */
    method TrimmedSlots() returns (pixels: seq<array<Argb>>, widths: seq<int>, heights: seq<int>)
      requires Valid()
      ensures |pixels| == |widths| == |heights| == Count()
      ensures forall t :: 1 <= t < Count() ==> Slot(pixels[t], widths[t], heights[t]) == Trimmed(Tex(t))
      ensures forall t :: 1 <= t < Count() && CropOf(Tex(t)) == NoCrop ==> pixels[t] == texturePixels[t]
      ensures Count() > 0 ==>
        pixels[0] == texturePixels[0] && widths[0] == textureWidths[0] && heights[0] == textureHeights[0]
    {
      pixels, widths, heights := texturePixels, textureWidths, textureHeights;
      var t := 1;
      while t < |pixels|
        invariant 1 <= t <= Max(1, |pixels|)
        invariant TrimmedUpTo(t, pixels, widths, heights)
      {
        pixels, widths, heights := TrimEntry(t, pixels, widths, heights);
        t := t + 1;
      }
    }

    /** Entries `1 .. t - 1` of the new tables are their slots trimmed (the slot's own
        buffer when there was nothing to crop); every other entry is its slot as it is. */
    ghost predicate TrimmedUpTo(t: int, pixels: seq<array<Argb>>, widths: seq<int>, heights: seq<int>)
      requires Valid()
      reads this, texturePixels, pixels
    {
      |pixels| == |texturePixels| == |widths| == |heights| &&
      (forall s :: 1 <= s < t && s < |pixels| ==>
        Slot(pixels[s], widths[s], heights[s]) == Trimmed(Tex(s)) &&
        (CropOf(Tex(s)) == NoCrop ==> pixels[s] == texturePixels[s])) &&
      (forall s :: (s == 0 || t <= s) && 0 <= s < |pixels| ==>
        pixels[s] == texturePixels[s] && widths[s] == textureWidths[s] && heights[s] == textureHeights[s])
    }

    /** One pass of the trimming loop: entry `t` of the new tables becomes slot `t`
        trimmed. */
    method TrimEntry(t: int, pixels: seq<array<Argb>>, widths: seq<int>, heights: seq<int>)
      returns (pixels': seq<array<Argb>>, widths': seq<int>, heights': seq<int>)
      requires Valid() && 1 <= t < |pixels| && TrimmedUpTo(t, pixels, widths, heights)
      ensures TrimmedUpTo(t + 1, pixels', widths', heights')
    {
      assert Slot(pixels[t], widths[t], heights[t]) == Tex(t);
      var newPx, newW, newH := TrimTexture(pixels[t], widths[t], heights[t]);
      pixels', widths', heights' := pixels[t := newPx], widths[t := newW], heights[t := newH];
    }

    /** GetTextureRepresentativeColor: Magenta for slot 0 or a missing slot, otherwise the
        channel-wise mean of the non-dark pixels of the 5 x 5 window at the tile's centre,
        or the centre pixel when the window holds none. */
    method RepresentativeColor(texIndex: int) returns (c: Argb)
      requires Valid()
      ensures texIndex <= 0 || texIndex >= Count() ==> c == Magenta
      ensures 0 < texIndex < Count() ==> c == Representative(Tex(texIndex))
    {
      if texIndex <= 0 || texIndex >= |texturePixels| {
        return Magenta;
      }
      var w := textureWidths[texIndex];
      var h := textureHeights[texIndex];
      var pixels := texturePixels[texIndex];
      ghost var t := Tex(texIndex);
      var acc := SampleWindow(pixels, w, h);
      var cx := w / 2;
      var cy := h / 2;
      if acc.samples == 0 {
        var col := pixels[Index(w, h, cx, cy)];
        return FromArgb(Alpha(col), Red(col), Green(col), Blue(col));
      }
      DivBounds(acc.a, acc.samples, 255);
      DivBounds(acc.r, acc.samples, 255);
      DivBounds(acc.g, acc.samples, 255);
      DivBounds(acc.b, acc.samples, 255);
      var ar := ToByte(acc.r / acc.samples);
      var ag := ToByte(acc.g / acc.samples);
      var ab := ToByte(acc.b / acc.samples);
      var aa := ToByte(acc.a / acc.samples);
      return FromArgb(aa, ar, ag, ab);
    }
  }

  /** The sampling loops of GetTextureRepresentativeColor: window rows `oy` from -2 to 2,
      a row outside the tile skipped whole. */
  method SampleWindow(pixels: array<Argb>, w: int, h: int) returns (acc: Sums)
    requires IsImage(Texture(pixels[..], w, h))
    ensures acc == SumsOf(WindowSamples(Texture(pixels[..], w, h), WindowSize))
  {
    ghost var t := Texture(pixels[..], w, h);
    acc := Sums(0, 0, 0, 0, 0);
    var halfGrid := 2;
    var oy := -halfGrid;
    ghost var rows := 0;
    while oy <= halfGrid
      invariant -2 <= oy <= 3 && rows == oy + 2
      invariant acc == SumsOf(WindowSamples(t, rows))
    {
      acc := SampleWindowLine(pixels, w, h, oy, acc);
      oy, rows := oy + 1, rows + 1;
    }
  }

  /** One pass of the `oy` loop: a window row outside the tile is skipped, any other is
      sampled. */
  method SampleWindowLine(pixels: array<Argb>, w: int, h: int, oy: int, acc0: Sums) returns (acc: Sums)
    requires IsImage(Texture(pixels[..], w, h)) && -2 <= oy <= 2
    requires acc0 == SumsOf(WindowSamples(Texture(pixels[..], w, h), oy + 2))
    ensures acc == SumsOf(WindowSamples(Texture(pixels[..], w, h), oy + 3))
  {
    ghost var t := Texture(pixels[..], w, h);
    ghost var rows := oy + 2;
    var sy := h / 2 + oy;
    if sy < 0 || sy >= h {
      RowOutsideTile(t, rows, WindowSize);
      assert WindowSamples(t, rows) + RowSamples(t, rows, WindowSize) == WindowSamples(t, rows);
      acc := acc0;
    } else {
      acc := SampleWindowRow(pixels, w, h, oy, acc0, WindowSamples(t, rows));
    }
    assert WindowSamples(t, rows + 1) == WindowSamples(t, rows) + RowSamples(t, rows, WindowSize);
  }

  /** The inner `ox` loop over one window row `oy`: positions outside the tile and
      nearly-black pixels are skipped, the others added to the accumulators. */
  method SampleWindowRow(pixels: array<Argb>, w: int, h: int, oy: int, acc0: Sums, ghost taken: seq<Argb>)
    returns (acc: Sums)
    requires IsImage(Texture(pixels[..], w, h))
    requires -2 <= oy <= 2 && 0 <= h / 2 + oy < h
    requires acc0 == SumsOf(taken)
    ensures acc == SumsOf(taken + RowSamples(Texture(pixels[..], w, h), oy + 2, WindowSize))
  {
    ghost var t := Texture(pixels[..], w, h);
    acc := acc0;
    var halfGrid := 2;
    var ox := -halfGrid;
    ghost var row, n := oy + 2, 0;
    assert taken + RowSamples(t, row, n) == taken;
    while ox <= halfGrid
      invariant -2 <= ox <= 3 && n == ox + 2
      invariant acc == SumsOf(taken + RowSamples(t, row, n))
    {
      acc := SamplePixel(pixels, w, h, ox, oy, acc, taken);
      ox, n := ox + 1, n + 1;
    }
  }

  /** One pass of the `ox` loop: the pixel at `(w / 2 + ox, h / 2 + oy)` is added to the
      accumulators unless it lies outside the tile or is nearly black. */
  method SamplePixel(pixels: array<Argb>, w: int, h: int, ox: int, oy: int, acc0: Sums, ghost taken: seq<Argb>)
    returns (acc: Sums)
    requires IsImage(Texture(pixels[..], w, h))
    requires -2 <= ox <= 2 && -2 <= oy <= 2 && 0 <= h / 2 + oy < h
    requires acc0 == SumsOf(taken + RowSamples(Texture(pixels[..], w, h), oy + 2, ox + 2))
    ensures acc == SumsOf(taken + RowSamples(Texture(pixels[..], w, h), oy + 2, ox + 3))
  {
    ghost var t := Texture(pixels[..], w, h);
    ghost var row, n := oy + 2, ox + 2;
    var sx := w / 2 + ox;
    var sy := h / 2 + oy;
    if sx < 0 || sx >= w {
      RowSamplesSkip(t, row, n, sx, sy);
      return acc0;
    }
    var col := pixels[Index(w, h, sx, sy)];
    assert col == Pixel(t, sx, sy);
    if IsDark(col) {
      RowSamplesSkip(t, row, n, sx, sy);
      return acc0;
    }
    RowSamplesGrow(t, row, n, sx, sy, taken);
    acc := AddSample(acc0, col);
  }
}
