/** How RaycastForm.OnPaint composes a frame in its `screenW * screenH` ARGB buffer:
    ceiling and floor first, then one vertical wall run per column, textured by nearest
    sampling or painted in the palette colour, darkened on horizontal grid lines. */
module Frame {
  import opened Numerics
  import opened Colors
  import opened TextureSpec

  const CeilingColor: Argb := LightSkyBlue
  const FloorColor: Argb := DarkSlateGray

  /** The fill of row `y`: ceiling above `halfH = screenH / 2`, floor from there down. */
  function Background(screenH: int, y: int): Argb
  {
    if y < screenH / 2 then CeilingColor else FloorColor
  }

  /** Distinct pixels of a frame have distinct buffer indices; rows come one after the other. */
  lemma IndexOrder(w: int, h: int, x1: int, y1: int, x2: int, y2: int)
    requires 0 <= x1 < w && 0 <= y1 < h && 0 <= x2 < w && 0 <= y2 < h
    ensures y1 < y2 ==> Index(w, h, x1, y1) < Index(w, h, x2, y2)
    ensures Index(w, h, x1, y1) == Index(w, h, x2, y2) <==> x1 == x2 && y1 == y2
  {
    if y1 < y2 {
      MulMonotone(y1 + 1, y2, w);
    } else if y2 < y1 {
      MulMonotone(y2 + 1, y1, w);
    }
  }

  /** The fill loops: every pixel of row `y` gets the row's background colour. */
  method FillCeilingFloor(fb: array<Argb>, screenW: int, screenH: int)
    requires 0 <= screenW && 0 <= screenH && fb.Length == screenW * screenH
    modifies fb
    ensures forall x, y :: 0 <= x < screenW && 0 <= y < screenH ==>
      fb[Index(screenW, screenH, x, y)] == Background(screenH, y)
  {
    var halfH := screenH / 2;
    var y := 0;
    while y < screenH
      invariant 0 <= y <= screenH
      invariant forall x', y' :: 0 <= x' < screenW && 0 <= y' < y ==>
        fb[Index(screenW, screenH, x', y')] == Background(screenH, y')
    {
      var baseIndex := y * screenW;
      var fillCol := if y < halfH then CeilingColor else FloorColor;
      var xx := 0;
      while xx < screenW
        invariant 0 <= xx <= screenW
        invariant forall x', y' :: 0 <= x' < screenW && 0 <= y' < y ==>
          fb[Index(screenW, screenH, x', y')] == Background(screenH, y')
        invariant forall x' :: 0 <= x' < xx ==> fb[Index(screenW, screenH, x', y)] == fillCol
      {
        ghost var i := Index(screenW, screenH, xx, y);
        forall x', y' | 0 <= x' < screenW && 0 <= y' < y
          ensures Index(screenW, screenH, x', y') != i
        {
          IndexOrder(screenW, screenH, x', y', xx, y);
        }
        forall x' | 0 <= x' < xx
          ensures Index(screenW, screenH, x', y) != i
        {
          IndexOrder(screenW, screenH, x', y, xx, y);
        }
        fb[baseIndex + xx] := fillCol;
        xx := xx + 1;
      }
      y := y + 1;
    }
  }

  /** The rows `drawStart .. drawEnd` a wall run covers. */
  datatype Extent = Extent(drawStart: int, drawEnd: int)

  /** `lineHeight` capped at `screenH`, then `drawStart = -lineHeight / 2 + screenH / 2`
      and `drawEnd = lineHeight / 2 + screenH / 2` (C# division), each clamped to the
      screen. The run always lies on the screen; for a visible wall it holds the
      horizon row `screenH / 2` and is `lineHeight` rows tall, or one more, or the whole
      screen. `lineHeight` is a 32-bit `int`: at `int.MinValue`, which `(int)` gives for
      an infinite quotient, `-lineHeight` wraps to itself, and the run is empty. */
  function ColumnExtent(lineHeight: int, screenH: int): (e: Extent)
    requires 0 <= screenH
    ensures 0 <= e.drawStart && e.drawEnd <= screenH - 1
    ensures 0 <= lineHeight && 1 <= screenH ==>
      e.drawStart <= screenH / 2 <= e.drawEnd &&
      Min(lineHeight, screenH) <= e.drawEnd - e.drawStart + 1 <= Min(lineHeight + 1, screenH)
    ensures lineHeight == IntMinValue && screenH <= IntMaxValue ==> e.drawEnd < e.drawStart
  {
    var lh := if lineHeight > screenH then screenH else lineHeight;
    var neg := if lh == IntMinValue then lh else -lh;
    var drawStart := CsDiv(neg, 2) + screenH / 2;
    var drawEnd := CsDiv(lh, 2) + screenH / 2;
    Extent(if drawStart < 0 then 0 else drawStart, if drawEnd >= screenH then screenH - 1 else drawEnd)
  }

  /** The nearest branch of SampleTexture: `(int)xf` and `(int)yf` pinned into the tile
      with `Math.Max(0, Math.Min(size - 1, v))`, which is `Clamp(v, 0, size - 1)`. The
      texel read is always inside the tile. */
  function SampleNearest(t: Texture, xf: real, yf: real): (c: Argb)
    requires IsImage(t)
    ensures c == Pixel(t, Clamp(Trunc(xf), 0, t.width - 1), Clamp(Trunc(yf), 0, t.height - 1))
  {
    var xi := Max(0, Min(t.width - 1, Trunc(xf)));
    var yi := Max(0, Min(t.height - 1, Trunc(yf)));
    t.pixels[Index(t.width, t.height, xi, yi)]
  }

  /** `texYf = (d * texH) / (double)destHeight`, then pinned to `[0, texH - 1]`. */
  function TexYf(d: int, texH: int, destHeight: int): (yf: real)
    requires destHeight > 0
    ensures 1 <= texH ==> 0.0 <= yf <= (texH - 1) as real
  {
    var yf := (d * texH) as real / destHeight as real;
    var yf1 := if yf < 0.0 then 0.0 else yf;
    if yf1 > (texH - 1) as real then (texH - 1) as real else yf1
  }

  /** Within a run the texture row of run row `d` is `d * texH / destHeight`: the run is
      stretched over the whole tile and the clamps never bite. */
  lemma TexRowScales(d: int, texH: int, destHeight: int)
    requires 0 <= d < destHeight && 1 <= texH
    ensures Clamp(Trunc(TexYf(d, texH, destHeight)), 0, texH - 1) == d * texH / destHeight
  {
    var q := d * texH / destHeight;
    var yf := (d * texH) as real / destHeight as real;
    DivBounds(d * texH, destHeight, texH);
    MulMonotone(d + 1, destHeight, texH);
    assert q * destHeight <= d * texH < (q + 1) * destHeight;
    assert q < texH by {
      if q >= texH {
        MulMonotone(texH, q, destHeight);
        assert false;
      }
    }
    RealDivFloor(d * texH, destHeight, q);
  }

  /** The real quotient of two naturals truncates to their integer quotient. */
  lemma RealDivFloor(n: int, m: int, q: int)
    requires 0 <= n && 0 < m && q * m <= n < (q + 1) * m
    ensures Trunc(n as real / m as real) == q
  {
    var x := n as real / m as real;
    var mr := m as real;
    RealQuotient(n as real, mr);
    CastProduct(q, m);
    CastProduct(q + 1, m);
    assert q as real <= x by {
      if x < q as real {
        RealScaleStrict(x, q as real, mr);
      }
    }
    assert x < q as real + 1.0 by {
      if q as real + 1.0 <= x {
        RealScale(q as real + 1.0, x, mr);
      }
    }
    assert 0 <= q by {
      if q < 0 {
        MulMonotone(q + 1, 0, m);
      }
    }
    var r := Trunc(x);
    assert r as real <= x < r as real + 1.0;
  }

  lemma RealQuotient(a: real, m: real)
    requires m != 0.0
    ensures (a / m) * m == a
  {
  }

  lemma CastProduct(a: int, b: int)
    ensures (a * b) as real == (a as real) * (b as real)
  {
  }

  lemma RealScaleStrict(a: real, b: real, m: real)
    requires a < b && 0.0 < m
    ensures a * m < b * m
  {
  }

  lemma RealScale(a: real, b: real, m: real)
    requires a <= b && 0.0 < m
    ensures a * m <= b * m
  {
  }

  /** `DarkenArgb(color, 0.8f)` on horizontal grid lines (`side == 1`): alpha is kept,
      and on such a line each colour channel `v` becomes `d` with `5d <= 4v < 5d + 5`;
      on vertical grid lines the colour is left as it is. */
  function Shade(c: Argb, side: int): (s: Argb)
    ensures Alpha(s) == Alpha(c)
    ensures side != 1 ==> s == c
    ensures side == 1 ==>
      5 * (Red(s) as bv16) <= 4 * (Red(c) as bv16) < 5 * (Red(s) as bv16) + 5 &&
      5 * (Green(s) as bv16) <= 4 * (Green(c) as bv16) < 5 * (Green(s) as bv16) + 5 &&
      5 * (Blue(s) as bv16) <= 4 * (Blue(c) as bv16) < 5 * (Blue(s) as bv16) + 5
  {
    if side == 1 then DarkenArgbScales(c); DarkenArgb(c) else c
  }

  /** What a wall run shows: a tile sampled at column `texXf`, or a flat colour. */
  datatype WallPaint = Textured(tex: Texture, texXf: real) | Flat(color: Argb)

  predicate PaintOk(p: WallPaint)
  {
    p.Textured? ==> IsImage(p.tex)
  }

  /** Row `d` of a run `destHeight` rows tall. */
  function WallPixel(p: WallPaint, side: int, d: int, destHeight: int): Argb
    requires PaintOk(p) && destHeight > 0
  {
    match p
    case Textured(t, xf) => Shade(SampleNearest(t, xf, TexYf(d, t.height, destHeight)), side)
    case Flat(c) => Shade(c, side)
  }

  /** The pixel `(x, y)` a frame ends with when column `x`'s wall run is `e` (no run at
      all when its ray found no wall): the run's colour inside it, the fill elsewhere. */
  function FramePixel(screenH: int, hit: bool, e: Extent, p: WallPaint, side: int, y: int): Argb
    requires PaintOk(p)
  {
    if hit && e.drawStart <= y <= e.drawEnd then WallPixel(p, side, y - e.drawStart, e.drawEnd - e.drawStart + 1)
    else Background(screenH, y)
  }

  /** The nearest branch of SampleTexture on a tile buffer. */
  method SampleTexture(pixels: array<Argb>, texW: int, texH: int, xf: real, yf: real) returns (c: Argb)
    requires IsImage(Texture(pixels[..], texW, texH))
    ensures c == SampleNearest(Texture(pixels[..], texW, texH), xf, yf)
  {
    var xi := Max(0, Min(texW - 1, Trunc(xf)));
    var yi := Max(0, Min(texH - 1, Trunc(yf)));
    c := pixels[Index(texW, texH, xi, yi)];
  }

  /** Writing pixel `(x, y)` leaves every other pixel's index alone. */
  lemma OtherPixels(w: int, h: int, x: int, y: int)
    requires 0 <= x < w && 0 <= y < h
    ensures forall xx, yy :: 0 <= xx < w && 0 <= yy < h && (xx != x || yy != y) ==>
      Index(w, h, xx, yy) != Index(w, h, x, y)
  {
    forall xx, yy | 0 <= xx < w && 0 <= yy < h && (xx != x || yy != y)
      ensures Index(w, h, xx, yy) != Index(w, h, x, y)
    {
      IndexOrder(w, h, xx, yy, x, y);
    }
  }

  /** The textured branch of a column: rows `drawStart .. drawEnd` of column `x` get the
      tile sampled at `texXf` and at the row's share of the tile height, darkened when
      `side == 1`; nothing else in the buffer changes. */
  method DrawTexturedColumn(fb: array<Argb>, screenW: int, screenH: int, x: int, e: Extent,
                            pixels: array<Argb>, texW: int, texH: int, texXf: real, side: int)
    requires fb != pixels && fb.Length == screenW * screenH && 0 <= x < screenW
    requires 0 <= e.drawStart && e.drawEnd < screenH
    requires IsImage(Texture(pixels[..], texW, texH))
    modifies fb
    ensures forall xx, yy :: 0 <= xx < screenW && 0 <= yy < screenH ==>
      fb[Index(screenW, screenH, xx, yy)] ==
        if xx == x && e.drawStart <= yy <= e.drawEnd
        then WallPixel(Textured(Texture(pixels[..], texW, texH), texXf), side, yy - e.drawStart, e.drawEnd - e.drawStart + 1)
        else old(fb[Index(screenW, screenH, xx, yy)])
  {
    ghost var t := Texture(pixels[..], texW, texH);
    var destHeight := e.drawEnd - e.drawStart + 1;
    if destHeight <= 0 {
      return;
    }
    var y := e.drawStart;
    while y <= e.drawEnd
      invariant e.drawStart <= y <= e.drawEnd + 1
      invariant forall xx, yy :: 0 <= xx < screenW && 0 <= yy < screenH ==>
        fb[Index(screenW, screenH, xx, yy)] ==
          if xx == x && e.drawStart <= yy < y
          then WallPixel(Textured(t, texXf), side, yy - e.drawStart, destHeight)
          else old(fb[Index(screenW, screenH, xx, yy)])
    {
      var d := y - e.drawStart;
      var texYf := TexYf(d, texH, destHeight);
      var color := SampleTexture(pixels, texW, texH, texXf, texYf);
      if side == 1 {
        color := DarkenArgb(color);
      }
      OtherPixels(screenW, screenH, x, y);
      fb[Index(screenW, screenH, x, y)] := color;
      y := y + 1;
    }
  }

  /** The palette branch of a column: rows `drawStart .. drawEnd` of column `x` get the
      flat colour, darkened when `side == 1`; nothing else in the buffer changes. */
  method DrawFlatColumn(fb: array<Argb>, screenW: int, screenH: int, x: int, e: Extent, col: Argb, side: int)
    requires fb.Length == screenW * screenH && 0 <= x < screenW
    requires 0 <= e.drawStart && e.drawEnd < screenH
    modifies fb
    ensures forall xx, yy :: 0 <= xx < screenW && 0 <= yy < screenH ==>
      fb[Index(screenW, screenH, xx, yy)] ==
        if xx == x && e.drawStart <= yy <= e.drawEnd
        then WallPixel(Flat(col), side, yy - e.drawStart, e.drawEnd - e.drawStart + 1)
        else old(fb[Index(screenW, screenH, xx, yy)])
  {
    var colorInt := col;
    if side == 1 {
      colorInt := DarkenArgb(colorInt);
    }
    assert colorInt == Shade(col, side);
    var y := e.drawStart;
    while y <= e.drawEnd
      invariant e.drawStart <= y <= Max(e.drawStart, e.drawEnd + 1)
      invariant forall xx, yy :: 0 <= xx < screenW && 0 <= yy < screenH ==>
        fb[Index(screenW, screenH, xx, yy)] ==
          if xx == x && e.drawStart <= yy < y
          then colorInt
          else old(fb[Index(screenW, screenH, xx, yy)])
    {
      OtherPixels(screenW, screenH, x, y);
      fb[Index(screenW, screenH, x, y)] := colorInt;
      y := y + 1;
    }
  }
}
