/** What RaycastForm's texture store computes, as functions on pixel values: border
    detection and trimming of a tile, and the representative colour shown on the minimap. */
module TextureSpec {
  import opened Numerics
  import opened Colors

  /** A tile: `pixels` row-major, `width` wide, `height` high. */
  datatype Texture = Texture(pixels: seq<Argb>, width: int, height: int)

  /** The shape every loaded tile has: at least one pixel each way, one entry per pixel. */
  predicate IsImage(t: Texture)
  {
    t.width >= 1 && t.height >= 1 && |t.pixels| == t.width * t.height
  }

  /** Flat index of pixel `(x, y)`, proved inside a `w * h` buffer. */
  function Index(w: int, h: int, x: int, y: int): (i: nat)
    requires 0 <= x < w && 0 <= y < h
    ensures i < w * h && i == y * w + x
  {
    RowMajorIndex(w, h, x, y);
    y * w + x
  }

  /** `px[y * w + x]`. */
  function Pixel(t: Texture, x: int, y: int): Argb
    requires IsImage(t) && 0 <= x < t.width && 0 <= y < t.height
  {
    t.pixels[Index(t.width, t.height, x, y)]
  }

  // ---------------------------------------------------------------- border lines

  /** Dark pixels among the first `n` of row `y`. */
  function DarkInRow(t: Texture, y: int, n: int): (k: nat)
    requires IsImage(t) && 0 <= y < t.height && 0 <= n <= t.width
    ensures k <= n
  {
    if n == 0 then 0
    else DarkInRow(t, y, n - 1) + (if IsDark(Pixel(t, n - 1, y)) then 1 else 0)
  }

  /** Dark pixels among the first `n` of column `x`. */
  function DarkInColumn(t: Texture, x: int, n: int): (k: nat)
    requires IsImage(t) && 0 <= x < t.width && 0 <= n <= t.height
    ensures k <= n
  {
    if n == 0 then 0
    else DarkInColumn(t, x, n - 1) + (if IsDark(Pixel(t, x, n - 1)) then 1 else 0)
  }

  /** A line is border when at least 90% of its pixels are dark:
      `(double)blackCount / len >= 0.9`, which is `10 * blackCount >= 9 * len`. */
  predicate IsBorderLine(dark: int, len: int)
  {
    10 * dark >= 9 * len
  }

  /** Row `y` is a border row. */
  predicate IsBorderRow(t: Texture, y: int)
    requires IsImage(t) && 0 <= y < t.height
  {
    IsBorderLine(DarkInRow(t, y, t.width), t.width)
  }

  /** Column `x` is a border column. */
  predicate IsBorderColumn(t: Texture, x: int)
    requires IsImage(t) && 0 <= x < t.width
  {
    IsBorderLine(DarkInColumn(t, x, t.height), t.height)
  }

  /** The border flags of the first `n` rows, top to bottom. */
  function BorderRowsUpTo(t: Texture, n: int): (b: seq<bool>)
    requires IsImage(t) && 0 <= n <= t.height
    ensures |b| == n
  {
    if n == 0 then [] else BorderRowsUpTo(t, n - 1) + [IsBorderRow(t, n - 1)]
  }

  /** The border flags of the first `n` columns, left to right. */
  function BorderColumnsUpTo(t: Texture, n: int): (b: seq<bool>)
    requires IsImage(t) && 0 <= n <= t.width
    ensures |b| == n
  {
    if n == 0 then [] else BorderColumnsUpTo(t, n - 1) + [IsBorderColumn(t, n - 1)]
  }

  /** The border flag of every row, top to bottom. */
  function BorderRows(t: Texture): (b: seq<bool>)
    requires IsImage(t)
    ensures |b| == t.height
  {
    BorderRowsUpTo(t, t.height)
  }

  /** The border flag of every column, left to right. */
  function BorderColumns(t: Texture): (b: seq<bool>)
    requires IsImage(t)
    ensures |b| == t.width
  {
    BorderColumnsUpTo(t, t.width)
  }

  lemma {:induction false} BorderRowsUpToAt(t: Texture, n: int, y: int)
    requires IsImage(t) && 0 <= y < n <= t.height
    ensures BorderRowsUpTo(t, n)[y] == IsBorderRow(t, y)
  {
    if y < n - 1 {
      BorderRowsUpToAt(t, n - 1, y);
    }
  }

  lemma {:induction false} BorderColumnsUpToAt(t: Texture, n: int, x: int)
    requires IsImage(t) && 0 <= x < n <= t.width
    ensures BorderColumnsUpTo(t, n)[x] == IsBorderColumn(t, x)
  {
    if x < n - 1 {
      BorderColumnsUpToAt(t, n - 1, x);
    }
  }

  /** Entry `y` of the row flags says whether row `y` is border. */
  lemma BorderRowAt(t: Texture, y: int)
    requires IsImage(t) && 0 <= y < t.height
    ensures BorderRows(t)[y] == IsBorderRow(t, y)
  {
    BorderRowsUpToAt(t, t.height, y);
  }

  /** Entry `x` of the column flags says whether column `x` is border. */
  lemma BorderColumnAt(t: Texture, x: int)
    requires IsImage(t) && 0 <= x < t.width
    ensures BorderColumns(t)[x] == IsBorderColumn(t, x)
  {
    BorderColumnsUpToAt(t, t.width, x);
  }

  /** Length of the longest run of `true` at the start of `s`. */
  function LeadingRun(s: seq<bool>): (n: nat)
    ensures n <= |s|
    ensures forall i :: 0 <= i < n ==> s[i]
    ensures n < |s| ==> !s[n]
  {
    if |s| == 0 || !s[0] then 0 else 1 + LeadingRun(s[1..])
  }

  /** Length of the longest run of `true` at the end of `s`. */
  function TrailingRun(s: seq<bool>): (n: nat)
    ensures n <= |s|
    ensures forall i :: |s| - n <= i < |s| ==> s[i]
    ensures n < |s| ==> !s[|s| - 1 - n]
  {
    if |s| == 0 || !s[|s| - 1] then 0 else 1 + TrailingRun(s[..|s| - 1])
  }

  /** A scan that stops at the first `false` from the start measures the leading run:
      any `n` with all of `s[..n]` true and `s[n]` false (or `n == |s|`) is that run. */
  lemma {:induction false} LeadingRunUnique(s: seq<bool>, n: int)
    requires 0 <= n <= |s|
    requires forall i :: 0 <= i < n ==> s[i]
    requires n < |s| ==> !s[n]
    ensures n == LeadingRun(s)
  {
    if n > 0 {
      LeadingRunUnique(s[1..], n - 1);
    }
  }

  /** The same for a scan from the end. */
  lemma {:induction false} TrailingRunUnique(s: seq<bool>, n: int)
    requires 0 <= n <= |s|
    requires forall i :: |s| - n <= i < |s| ==> s[i]
    requires n < |s| ==> !s[|s| - 1 - n]
    ensures n == TrailingRun(s)
  {
    if n > 0 {
      TrailingRunUnique(s[..|s| - 1], n - 1);
    }
  }

  // ---------------------------------------------------------------- crop amounts

  datatype Crop = Crop(left: int, right: int, top: int, bottom: int)

  const NoCrop := Crop(0, 0, 0, 0)

  /** "clamp crop to reasonable bounds": the left (top) crop takes what it found up to
      `w - 1` (`h - 1`), the right (bottom) crop what is left of that, so one column and
      one row always survive. */
  function ClampCrop(w: int, h: int, top: nat, bottom: nat, left: nat, right: nat): (c: Crop)
    requires w >= 1 && h >= 1
    ensures 0 <= c.left <= left && 0 <= c.right <= right
    ensures 0 <= c.top <= top && 0 <= c.bottom <= bottom
    ensures c.left == if left < w - 1 then left else w - 1
    ensures c.top == if top < h - 1 then top else h - 1
    ensures c.left + c.right == if left + right < w - 1 then left + right else w - 1
    ensures c.top + c.bottom == if top + bottom < h - 1 then top + bottom else h - 1
  {
    var cropLeft := Min(left, w - 1);
    var cropRight := Min(right, w - 1 - cropLeft);
    var cropTop := Min(top, h - 1);
    var cropBottom := Min(bottom, h - 1 - cropTop);
    Crop(cropLeft, cropRight, cropTop, cropBottom)
  }

  /** The crop RemoveBlackBordersFromTextures applies to a tile. */
  function CropOf(t: Texture): (c: Crop)
    requires IsImage(t)
    ensures c.left + c.right <= t.width - 1 && c.top + c.bottom <= t.height - 1
    ensures 0 <= c.left && 0 <= c.right && 0 <= c.top && 0 <= c.bottom
  {
    var rows := BorderRows(t);
    var columns := BorderColumns(t);
    ClampCrop(t.width, t.height, LeadingRun(rows), TrailingRun(rows), LeadingRun(columns), TrailingRun(columns))
  }

  // ---------------------------------------------------------------- cropping

  /** Pixels `x0 .. x0 + n - 1` of row `y`: one `Array.Copy` of the crop loop. */
  function RowSpan(t: Texture, y: int, x0: int, n: int): (r: seq<Argb>)
    requires IsImage(t) && 0 <= y < t.height && 0 <= x0 && 0 <= n && x0 + n <= t.width
    ensures |r| == n
    ensures forall x :: 0 <= x < n ==> r[x] == Pixel(t, x0 + x, y)
  {
    if n == 0 then []
    else
      var start := Index(t.width, t.height, x0, y);
      RowMajorIndex(t.width, t.height, x0 + n - 1, y);
      t.pixels[start .. start + n]
  }

  /** The first `k` rows of the cropped tile, `newW` pixels each, starting at row `c.top`
      and column `c.left` of `t`. */
  function CropRows(t: Texture, c: Crop, newW: int, k: int): (r: seq<Argb>)
    requires IsImage(t) && 0 <= c.left && 0 <= newW && c.left + newW <= t.width
    requires 0 <= c.top && 0 <= k && c.top + k <= t.height
  {
    if k == 0 then [] else CropRows(t, c, newW, k - 1) + RowSpan(t, c.top + k - 1, c.left, newW)
  }

  lemma {:induction false} CropRowsLength(t: Texture, c: Crop, newW: int, k: int)
    requires IsImage(t) && 0 <= c.left && 0 <= newW && c.left + newW <= t.width
    requires 0 <= c.top && 0 <= k && c.top + k <= t.height
    ensures |CropRows(t, c, newW, k)| == k * newW
  {
    if k > 0 {
      CropRowsLength(t, c, newW, k - 1);
      assert k * newW == (k - 1) * newW + newW;
    }
  }

  /** Pixel `(x, y)` of the cropped rows is pixel `(x + c.left, y + c.top)` of `t`. */
  lemma {:induction false} CropRowsAt(t: Texture, c: Crop, newW: int, k: int)
    requires IsImage(t) && 0 <= c.left && 0 <= newW && c.left + newW <= t.width
    requires 0 <= c.top && 0 <= k && c.top + k <= t.height
    ensures |CropRows(t, c, newW, k)| == k * newW
    ensures forall x, y :: 0 <= x < newW && 0 <= y < k ==>
      Index(newW, k, x, y) < k * newW && CropRows(t, c, newW, k)[Index(newW, k, x, y)] == Pixel(t, x + c.left, y + c.top)
  {
    if k > 0 {
      CropRowsAt(t, c, newW, k - 1);
      var prev := CropRows(t, c, newW, k - 1);
      var r := CropRows(t, c, newW, k);
      assert |r| == (k - 1) * newW + newW == k * newW;
      forall x, y | 0 <= x < newW && 0 <= y < k
        ensures r[Index(newW, k, x, y)] == Pixel(t, x + c.left, y + c.top)
      {
        if y < k - 1 {
          assert Index(newW, k, x, y) == Index(newW, k - 1, x, y);
        } else {
          assert Index(newW, k, x, y) == (k - 1) * newW + x;
        }
      }
    }
  }

  /** A crop that leaves at least one pixel each way. */
  predicate FitsIn(t: Texture, c: Crop)
  {
    0 <= c.left && 0 <= c.right && 0 <= c.top && 0 <= c.bottom &&
    c.left + c.right <= t.width - 1 && c.top + c.bottom <= t.height - 1
  }

  /** The new buffer of the crop loop: `newH` rows of `newW` pixels. */
  function Cropped(t: Texture, c: Crop): (r: Texture)
    requires IsImage(t) && FitsIn(t, c)
    ensures IsImage(r)
    ensures r.width == t.width - c.left - c.right && r.height == t.height - c.top - c.bottom
  {
    var newW := t.width - c.left - c.right;
    var newH := t.height - c.top - c.bottom;
    CropRowsLength(t, c, newW, newH);
    Texture(CropRows(t, c, newW, newH), newW, newH)
  }

  /** Pixel `(x, y)` of the cropped tile is pixel `(x + c.left, y + c.top)` of the tile. */
  lemma CroppedPixels(t: Texture, c: Crop)
    requires IsImage(t) && FitsIn(t, c)
    ensures forall x, y :: 0 <= x < t.width - c.left - c.right && 0 <= y < t.height - c.top - c.bottom ==>
      Pixel(Cropped(t, c), x, y) == Pixel(t, x + c.left, y + c.top)
  {
    var newW := t.width - c.left - c.right;
    var newH := t.height - c.top - c.bottom;
    CropRowsAt(t, c, newW, newH);
  }

  /** The crop step of RemoveBlackBordersFromTextures for a given crop: a zero crop keeps
      the tile as it is; the `newW <= 0 || newH <= 0` skip of the source is part of the
      guard but cannot fire (see CropKeepsOnePixel). */
  function ApplyCrop(t: Texture, c: Crop): (r: Texture)
    requires IsImage(t) && FitsIn(t, c)
    ensures IsImage(r)
    ensures r.width == t.width - c.left - c.right && r.height == t.height - c.top - c.bottom
  {
    var newW := t.width - c.left - c.right;
    var newH := t.height - c.top - c.bottom;
    if newW > 0 && newH > 0 && c != NoCrop then Cropped(t, c) else t
  }

  /** Pixel `(x, y)` after the crop step is pixel `(x + c.left, y + c.top)` before it. */
  lemma ApplyCropPixel(t: Texture, c: Crop, x: int, y: int)
    requires IsImage(t) && FitsIn(t, c)
    requires 0 <= x < t.width - c.left - c.right && 0 <= y < t.height - c.top - c.bottom
    ensures Pixel(ApplyCrop(t, c), x, y) == Pixel(t, x + c.left, y + c.top)
  {
    if c != NoCrop {
      CroppedPixels(t, c);
    }
  }

  /** RemoveBlackBordersFromTextures on one tile. */
  function Trimmed(t: Texture): (r: Texture)
    requires IsImage(t)
    ensures IsImage(r)
    ensures r.width == t.width - CropOf(t).left - CropOf(t).right
    ensures r.height == t.height - CropOf(t).top - CropOf(t).bottom
    ensures CropOf(t) == NoCrop ==> r == t
  {
    ApplyCrop(t, CropOf(t))
  }

  /** After trimming with crop `c = CropOf(t)`, pixel `(x, y)` is pixel
      `(x + cropLeft, y + cropTop)` of the tile before. */
  lemma TrimmedPixel(t: Texture, c: Crop, x: int, y: int)
    requires IsImage(t) && c == CropOf(t)
    requires 0 <= x < t.width - c.left - c.right && 0 <= y < t.height - c.top - c.bottom
    ensures Pixel(Trimmed(t), x, y) == Pixel(t, x + c.left, y + c.top)
  {
    ApplyCropPixel(t, c, x, y);
  }

  /** The clamped crop always leaves at least one pixel each way, so the source's skip for
      an empty result never fires on a loaded tile. */
  lemma CropKeepsOnePixel(t: Texture)
    requires IsImage(t)
    ensures t.width - CropOf(t).left - CropOf(t).right >= 1
    ensures t.height - CropOf(t).top - CropOf(t).bottom >= 1
  {
  }

  /** Trimming cuts only border lines: every row above the top crop and below the bottom
      crop, and every column left of the left crop and right of the right crop, is border. */
  lemma CropCutsOnlyBorders(t: Texture, c: Crop)
    requires IsImage(t) && c == CropOf(t)
    ensures forall y :: 0 <= y < c.top ==> IsBorderRow(t, y)
    ensures forall y :: t.height - c.bottom <= y < t.height ==> IsBorderRow(t, y)
    ensures forall x :: 0 <= x < c.left ==> IsBorderColumn(t, x)
    ensures forall x :: t.width - c.right <= x < t.width ==> IsBorderColumn(t, x)
  {
    var rows, columns := BorderRows(t), BorderColumns(t);
    assert c.top <= LeadingRun(rows) && c.bottom <= TrailingRun(rows);
    assert c.left <= LeadingRun(columns) && c.right <= TrailingRun(columns);
    forall y | 0 <= y < c.top || t.height - c.bottom <= y < t.height
      ensures IsBorderRow(t, y)
    {
      BorderRowAt(t, y);
    }
    forall x | 0 <= x < c.left || t.width - c.right <= x < t.width
      ensures IsBorderColumn(t, x)
    {
      BorderColumnAt(t, x);
    }
  }

  /** When nothing limits it, the top crop is the whole leading run of border rows: the
      row just below the crop is not border. The same holds at the other three edges. */
  lemma CropStopsAtContent(t: Texture, c: Crop)
    requires IsImage(t) && c == CropOf(t)
    ensures c.top < t.height - 1 ==> !IsBorderRow(t, c.top)
    ensures c.left < t.width - 1 ==> !IsBorderColumn(t, c.left)
    ensures c.top + c.bottom < t.height - 1 ==> !IsBorderRow(t, t.height - 1 - c.bottom)
    ensures c.left + c.right < t.width - 1 ==> !IsBorderColumn(t, t.width - 1 - c.right)
  {
    RowCropStops(t, c);
    ColumnCropStops(t, c);
  }

  /** The row half of CropStopsAtContent. */
  lemma RowCropStops(t: Texture, c: Crop)
    requires IsImage(t) && c == CropOf(t)
    ensures c.top < t.height - 1 ==> !IsBorderRow(t, c.top)
    ensures c.top + c.bottom < t.height - 1 ==> !IsBorderRow(t, t.height - 1 - c.bottom)
  {
    CropOfRows(t);
    ClampedRunsStop(BorderRows(t), t.height, c.top, c.bottom);
    if c.top < t.height - 1 {
      BorderRowAt(t, c.top);
    }
    if c.top + c.bottom < t.height - 1 {
      BorderRowAt(t, t.height - 1 - c.bottom);
    }
  }

  /** The column half of CropStopsAtContent. */
  lemma ColumnCropStops(t: Texture, c: Crop)
    requires IsImage(t) && c == CropOf(t)
    ensures c.left < t.width - 1 ==> !IsBorderColumn(t, c.left)
    ensures c.left + c.right < t.width - 1 ==> !IsBorderColumn(t, t.width - 1 - c.right)
  {
    CropOfColumns(t);
    ClampedRunsStop(BorderColumns(t), t.width, c.left, c.right);
    if c.left < t.width - 1 {
      BorderColumnAt(t, c.left);
    }
    if c.left + c.right < t.width - 1 {
      BorderColumnAt(t, t.width - 1 - c.right);
    }
  }

  /** The top and bottom crop as ClampCrop derives them from the border-row runs. */
  lemma CropOfRows(t: Texture)
    requires IsImage(t)
    ensures CropOf(t).top == Min(LeadingRun(BorderRows(t)), t.height - 1)
    ensures CropOf(t).bottom == Min(TrailingRun(BorderRows(t)), t.height - 1 - CropOf(t).top)
  {
  }

  /** The left and right crop as ClampCrop derives them from the border-column runs. */
  lemma CropOfColumns(t: Texture)
    requires IsImage(t)
    ensures CropOf(t).left == Min(LeadingRun(BorderColumns(t)), t.width - 1)
    ensures CropOf(t).right == Min(TrailingRun(BorderColumns(t)), t.width - 1 - CropOf(t).left)
  {
  }

  /** Leading and trailing runs clamped as ClampCrop clamps them end at a `false`
      wherever the clamp did not cut them short. */
  lemma ClampedRunsStop(s: seq<bool>, n: int, lead: int, trail: int)
    requires |s| == n >= 1 && lead == Min(LeadingRun(s), n - 1)
    requires trail == Min(TrailingRun(s), n - 1 - lead)
    ensures lead < n - 1 ==> 0 <= lead < n && !s[lead]
    ensures lead + trail < n - 1 ==> 0 <= n - 1 - trail < n && !s[n - 1 - trail]
  {
  }

  // ---------------------------------------------------------------- representative colour

  /** The side of the sampling window (`halfGrid = 2` on each side of the centre). */
  const WindowSize := 5

  /** The non-dark pixels among the first `n` positions of window row `row`, the row
      `h / 2 + row - 2`, positions left to right from column `w / 2 - 2`; positions
      outside the tile are skipped. */
  function RowSamples(t: Texture, row: int, n: int): (s: seq<Argb>)
    requires IsImage(t) && 0 <= n <= WindowSize
    ensures |s| <= n
    ensures forall i :: 0 <= i < |s| ==> !IsDark(s[i])
  {
    if n == 0 then []
    else
      var prev := RowSamples(t, row, n - 1);
      var sx := t.width / 2 + (n - 1) - 2;
      var sy := t.height / 2 + row - 2;
      if 0 <= sy < t.height && 0 <= sx < t.width && !IsDark(Pixel(t, sx, sy)) then prev + [Pixel(t, sx, sy)]
      else prev
  }

  /** A window position inside the tile holding a non-dark pixel adds that pixel to
      the row's samples, and so to the sums of whatever was taken before the row. */
  lemma RowSamplesGrow(t: Texture, row: int, n: int, sx: int, sy: int, taken: seq<Argb>)
    requires IsImage(t) && 0 <= n < WindowSize
    requires sx == t.width / 2 + n - 2 && sy == t.height / 2 + row - 2
    requires 0 <= sy < t.height && 0 <= sx < t.width && !IsDark(Pixel(t, sx, sy))
    ensures SumsOf(taken + RowSamples(t, row, n + 1)) ==
      AddSample(SumsOf(taken + RowSamples(t, row, n)), Pixel(t, sx, sy))
  {
    var prev := taken + RowSamples(t, row, n);
    assert taken + RowSamples(t, row, n + 1) == prev + [Pixel(t, sx, sy)];
    SumsSnoc(prev, Pixel(t, sx, sy));
  }

  /** A window position outside the tile, or holding a dark pixel, adds no sample. */
  lemma RowSamplesSkip(t: Texture, row: int, n: int, sx: int, sy: int)
    requires IsImage(t) && 0 <= n < WindowSize
    requires sx == t.width / 2 + n - 2 && sy == t.height / 2 + row - 2
    requires !(0 <= sy < t.height && 0 <= sx < t.width) || IsDark(Pixel(t, sx, sy))
    ensures RowSamples(t, row, n + 1) == RowSamples(t, row, n)
  {
  }

  /** The samples of the first `rows` window rows, top to bottom: the order in which the
      source's nested `oy`/`ox` loops accumulate them. */
  function WindowSamples(t: Texture, rows: int): (s: seq<Argb>)
    requires IsImage(t) && 0 <= rows <= WindowSize
    ensures |s| <= WindowSize * rows
    ensures forall i :: 0 <= i < |s| ==> !IsDark(s[i])
  {
    if rows == 0 then [] else WindowSamples(t, rows - 1) + RowSamples(t, rows - 1, WindowSize)
  }

  /** A window row that lies outside the tile contributes no samples. */
  lemma {:induction false} RowOutsideTile(t: Texture, row: int, n: int)
    requires IsImage(t) && 0 <= n <= WindowSize
    requires !(0 <= t.height / 2 + row - 2 < t.height)
    ensures RowSamples(t, row, n) == []
  {
    if n > 0 {
      RowOutsideTile(t, row, n - 1);
    }
  }

  datatype Channel = AlphaChannel | RedChannel | GreenChannel | BlueChannel

  function Value(c: Argb, ch: Channel): (v: int)
    ensures 0 <= v <= 255
  {
    match ch
    case AlphaChannel => Alpha(c) as int
    case RedChannel => Red(c) as int
    case GreenChannel => Green(c) as int
    case BlueChannel => Blue(c) as int
  }

  /** The running sums `asum`, `rsum`, `gsum`, `bsum`. */
  function Sum(s: seq<Argb>, ch: Channel): (total: int)
    ensures 0 <= total <= 255 * |s|
  {
    if s == [] then 0 else Sum(s[..|s| - 1], ch) + Value(s[|s| - 1], ch)
  }

  /** Adding one sample adds its channel value to the running sum. */
  lemma SumSnoc(s: seq<Argb>, c: Argb, ch: Channel)
    ensures Sum(s + [c], ch) == Sum(s, ch) + Value(c, ch)
  {
    assert (s + [c])[..|s|] == s;
  }

  /** The accumulators `asum`, `rsum`, `gsum`, `bsum` and `samples`. */
  datatype Sums = Sums(a: int, r: int, g: int, b: int, samples: int)

  /** The accumulators after taking the samples `s`. */
  function SumsOf(s: seq<Argb>): Sums
  {
    Sums(Sum(s, AlphaChannel), Sum(s, RedChannel), Sum(s, GreenChannel), Sum(s, BlueChannel), |s|)
  }

  /** `asum += a; rsum += r; gsum += g; bsum += b; samples++;` */
  function AddSample(acc: Sums, c: Argb): Sums
  {
    Sums(acc.a + Alpha(c) as int, acc.r + Red(c) as int, acc.g + Green(c) as int, acc.b + Blue(c) as int, acc.samples + 1)
  }

  /** Taking one more sample updates the accumulators as the loop body does. */
  lemma SumsSnoc(s: seq<Argb>, c: Argb)
    ensures SumsOf(s + [c]) == AddSample(SumsOf(s), c)
  {
    SumSnoc(s, c, AlphaChannel);
    SumSnoc(s, c, RedChannel);
    SumSnoc(s, c, GreenChannel);
    SumSnoc(s, c, BlueChannel);
  }

  /** `(int)(sum / samples)`. */
  function Mean(s: seq<Argb>, ch: Channel): (m: bv8)
    requires |s| > 0
    ensures m as int * |s| <= Sum(s, ch) < (m as int + 1) * |s|
  {
    DivBounds(Sum(s, ch), |s|, 255);
    ToByte(Sum(s, ch) / |s|)
  }

  /** GetTextureRepresentativeColor for a loaded tile: the channel-wise mean of the
      non-dark pixels of the window, or the centre pixel itself when there are none. */
  function Representative(t: Texture): (r: Argb)
    requires IsImage(t)
    ensures WindowSamples(t, WindowSize) == [] ==> r == Pixel(t, t.width / 2, t.height / 2)
    ensures WindowSamples(t, WindowSize) != [] ==> forall ch ::
      Value(r, ch) == Mean(WindowSamples(t, WindowSize), ch) as int
  {
    var s := WindowSamples(t, WindowSize);
    if |s| == 0 then
      var c := Pixel(t, t.width / 2, t.height / 2);
      SplitPack(c);
      FromArgb(Alpha(c), Red(c), Green(c), Blue(c))
    else
      FromArgb(Mean(s, AlphaChannel), Mean(s, RedChannel), Mean(s, GreenChannel), Mean(s, BlueChannel))
  }

  /** Pixel `(x, y)` lies in the tile and in the 5 x 5 window around its centre. */
  predicate InWindow(t: Texture, x: int, y: int)
  {
    0 <= x < t.width && 0 <= y < t.height &&
    t.width / 2 - 2 <= x <= t.width / 2 + 2 && t.height / 2 - 2 <= y <= t.height / 2 + 2
  }

  /** When every window pixel has colour `c`, so has every sample of a window row. */
  lemma {:induction false} RowSamplesUniform(t: Texture, row: int, n: int, c: Argb)
    requires IsImage(t) && 0 <= n <= WindowSize && 0 <= row < WindowSize
    requires forall x, y :: InWindow(t, x, y) ==> Pixel(t, x, y) == c
    ensures forall i :: 0 <= i < |RowSamples(t, row, n)| ==> RowSamples(t, row, n)[i] == c
  {
    if n > 0 {
      RowSamplesUniform(t, row, n - 1, c);
    }
  }

  /** When every window pixel has colour `c`, so has every sample of the window. */
  lemma {:induction false} WindowSamplesUniform(t: Texture, rows: int, c: Argb)
    requires IsImage(t) && 0 <= rows <= WindowSize
    requires forall x, y :: InWindow(t, x, y) ==> Pixel(t, x, y) == c
    ensures forall i :: 0 <= i < |WindowSamples(t, rows)| ==> WindowSamples(t, rows)[i] == c
  {
    if rows > 0 {
      WindowSamplesUniform(t, rows - 1, c);
      RowSamplesUniform(t, rows - 1, WindowSize, c);
    }
  }

  /** A window row whose pixels are all dark yields no samples. */
  lemma {:induction false} RowSamplesDark(t: Texture, row: int, n: int)
    requires IsImage(t) && 0 <= n <= WindowSize && 0 <= row < WindowSize
    requires forall x, y :: InWindow(t, x, y) ==> IsDark(Pixel(t, x, y))
    ensures RowSamples(t, row, n) == []
  {
    if n > 0 {
      RowSamplesDark(t, row, n - 1);
    }
  }

  /** A window whose pixels are all dark yields no samples. */
  lemma {:induction false} WindowSamplesDark(t: Texture, rows: int)
    requires IsImage(t) && 0 <= rows <= WindowSize
    requires forall x, y :: InWindow(t, x, y) ==> IsDark(Pixel(t, x, y))
    ensures WindowSamples(t, rows) == []
  {
    if rows > 0 {
      WindowSamplesDark(t, rows - 1);
      RowSamplesDark(t, rows - 1, WindowSize);
    }
  }

  /** The sum of `|s|` copies of one colour is `|s|` times its channel value. */
  lemma {:induction false} SumUniform(s: seq<Argb>, c: Argb, ch: Channel)
    requires forall i :: 0 <= i < |s| ==> s[i] == c
    ensures Sum(s, ch) == Value(c, ch) * |s|
  {
    if s != [] {
      var p, v := s[..|s| - 1], Value(c, ch);
      assert forall i :: 0 <= i < |p| ==> p[i] == c;
      SumUniform(p, c, ch);
      assert s[|s| - 1] == c;
      MulSucc(|p|, v);
    }
  }

  lemma MulSucc(n: int, v: int)
    ensures v * (n + 1) == v * n + v
  {
  }

  /** The centre pixel, when it is not dark, is always sampled. */
  lemma CentreSampled(t: Texture)
    requires IsImage(t) && !IsDark(Pixel(t, t.width / 2, t.height / 2))
    ensures |WindowSamples(t, WindowSize)| >= 1
  {
    assert |RowSamples(t, 2, 3)| >= 1;
    assert |RowSamples(t, 2, WindowSize)| >= 1;
    assert |WindowSamples(t, 3)| >= 1;
  }

  /** The mean of samples all equal to `c` is `c`'s channel value. */
  lemma MeanUniform(s: seq<Argb>, c: Argb, ch: Channel)
    requires |s| > 0 && forall i :: 0 <= i < |s| ==> s[i] == c
    ensures Mean(s, ch) as int == Value(c, ch)
  {
    var m, v, n := Mean(s, ch) as int, Value(c, ch), |s|;
    SumUniform(s, c, ch);
    assert m * n <= v * n < (m + 1) * n;
    BracketedQuotient(m, v, n);
  }

  /** A tile whose window shows one colour that is not dark is represented by exactly
      that colour. */
  lemma UniformWindowRepresentative(t: Texture, c: Argb)
    requires IsImage(t) && !IsDark(c)
    requires forall x, y :: InWindow(t, x, y) ==> Pixel(t, x, y) == c
    ensures Representative(t) == c
  {
    var s := WindowSamples(t, WindowSize);
    assert InWindow(t, t.width / 2, t.height / 2);
    CentreSampled(t);
    WindowSamplesUniform(t, WindowSize, c);
    forall ch {
      MeanUniform(s, c, ch);
    }
    SameChannels(Representative(t), c);
  }

  /** Two colours with the same four channel values are the same colour. */
  lemma SameChannels(a: Argb, b: Argb)
    requires forall ch :: Value(a, ch) == Value(b, ch)
    ensures a == b
  {
    ByteEq(Alpha(a), Alpha(b), Value(a, AlphaChannel), Value(b, AlphaChannel));
    ByteEq(Red(a), Red(b), Value(a, RedChannel), Value(b, RedChannel));
    ByteEq(Green(a), Green(b), Value(a, GreenChannel), Value(b, GreenChannel));
    ByteEq(Blue(a), Blue(b), Value(a, BlueChannel), Value(b, BlueChannel));
    calc {
      a;
      { SplitPack(a); }
      FromArgb(Alpha(a), Red(a), Green(a), Blue(a));
      FromArgb(Alpha(b), Red(b), Green(b), Blue(b));
      { SplitPack(b); }
      b;
    }
  }

  /** Two bytes with equal values are equal. */
  lemma ByteEq(x: bv8, y: bv8, vx: int, vy: int)
    requires vx == x as int && vy == y as int && vx == vy
    ensures x == y
  {
  }

  /** A tile whose window is all dark is represented by its centre pixel. */
  lemma DarkWindowRepresentative(t: Texture)
    requires IsImage(t)
    requires forall x, y :: InWindow(t, x, y) ==> IsDark(Pixel(t, x, y))
    ensures WindowSamples(t, WindowSize) == []
    ensures Representative(t) == Pixel(t, t.width / 2, t.height / 2)
  {
    WindowSamplesDark(t, WindowSize);
  }
}
