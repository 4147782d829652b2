# Raycaster model

A Dafny model of the two WinForms raycasters in `Graphics/`, with proofs about it.

**RaycastForm** is a grid raycaster that draws into a 32-bit ARGB frame buffer. Its model covers:
- the texture store: the atlas is sliced into tiles, the near-black seams are trimmed off every tile, and a representative colour is averaged for the minimap;
- the frame: the ceiling/floor fill, one digital-differential-analysis (DDA) ray walk per column, the column extent, and nearest-texel or palette wall runs darkened on horizontal grid lines;
- the player's collision-checked move.

**Form1** is the older renderer. Its model covers the key handler, the wall-slice rectangle arithmetic and the minimap bitmap.

Modules:
- `Numerics`: C#'s truncating casts, `%` and `/`, and `RaycastForm.Clamp`.
- `Colors`: channels, packing, darkening and the palette.
- `Grids`: both maps.
- `TextureSpec`: value-level specification of border trimming and of the representative colour.
- `TextureStore`: the loops of the texture code, proved against `TextureSpec`, and the `TextureSet` class holding the texture tables.
- `Dda`: the grid walk as a recursive function and as the source's loop.
- `Frame`: fill, extent, sampling and the two column painters.
- `RaycastFormModel`: the form's state, `TryMove` and the whole-frame composition.
- `Form1Model`: the Form1 model.

Floating-point quantities are exact reals. Every pixel buffer is row-major: pixel `(x, y)` of a `w`-wide buffer is at index `y * w + x`.

## Model

| member | source | states |
|---|---|---|
| Numerics.Clamp | Graphics/RaycastForm.cs:366-371 | The result lies in `[lo, hi]`, equals `v` when `v` is already inside, and is the point of the range nearest `v`. |
| Numerics.Trunc | Graphics/RaycastForm.cs:417-418 | `(int)x` truncates toward zero: for `x >= 0` it is the largest integer not above `x`; for negative `x` it is the smallest integer not below `x`. |
| Numerics.CsRem | Graphics/Form1.cs:210-216 | C#'s `%` takes the dividend's sign. It agrees with Euclidean `%` for non-negative dividends and lies in `(-n, 0]` for negative ones. |
| Numerics.CsDiv | Graphics/RaycastForm.cs:486-488 | C#'s integer `/` truncates toward zero; the bracketing inequalities for both signs of the dividend. |
| Colors.FromArgb | Graphics/RaycastForm.cs:588 | Packing four bytes with shifts of 24, 16, 8 and 0 gives a pixel whose four channels read back as those bytes. |
| Colors.SplitPack | Graphics/RaycastForm.cs:189-194 | Unpacking a pixel's channels and packing them again gives back the same pixel, so the representative-colour fallback returns the centre pixel unchanged. |
| Colors.DarkenArgbScales | Graphics/RaycastForm.cs:573-589 | Alpha is kept, and each colour channel `v` becomes `d` with `5d <= 4v < 5d + 5`: 80% rounded down, which never leaves 0..255. |
| Colors.PaletteColor | Graphics/RaycastForm.cs:519 | Ids inside the palette get their entry. The Magenta sentinel is returned exactly for ids past the palette, since no entry is Magenta. |
| Grids.RaycastMapShape | Graphics/RaycastForm.cs:25-40 | The map is 12 x 12, the spawn cell (3, 3) is open and the outer ring is wall. |
| Grids.Form1WorldShape | Graphics/Form1.cs:48-60 | The world is 10 x 10, and a cell is open exactly when both indices are in 1..8. |
| TextureSpec.Index | Graphics/RaycastForm.cs:223 | Row-major index `y * w + x` of an in-range pixel lies inside the `w * h` buffer. |
| TextureSpec.LeadingRun | Graphics/RaycastForm.cs:216-230 | The counted prefix is all border lines, and the line after it, if any, is not a border line. |
| TextureSpec.LeadingRunUnique | Graphics/RaycastForm.cs:216-230 | Any count with that property equals the one the `top++ ... else break` loop computes. |
| TextureSpec.TrailingRun | Graphics/RaycastForm.cs:232-246 | The counted suffix is all border lines, and the line before it, if any, is not a border line. |
| TextureSpec.TrailingRunUnique | Graphics/RaycastForm.cs:232-246 | Any count with that property equals the one the backward loop computes. |
| TextureSpec.ClampCrop | Graphics/RaycastForm.cs:280-284 | The four crops never exceed what was detected. The left crop is `min(left, w - 1)`, and left plus right is `min(left + right, w - 1)`; the same holds for top and bottom. |
| TextureSpec.CropOf | Graphics/RaycastForm.cs:216-284 | The crop of a tile is non-negative and leaves at least one column and one row. |
| TextureSpec.RowSpan | Graphics/RaycastForm.cs:295 | One `Array.Copy` takes `n` pixels of row `y` from column `x0` on. |
| TextureSpec.CropRowsAt | Graphics/RaycastForm.cs:292-296 | After `k` copied rows, pixel `(x, y)` of the new buffer is pixel `(x + cropLeft, y + cropTop)` of the tile. |
| TextureSpec.Cropped | Graphics/RaycastForm.cs:286-296 | The cropped tile is a well-formed image of `newW` by `newH` pixels. |
| TextureSpec.CroppedPixels | Graphics/RaycastForm.cs:292-296 | Every pixel of the cropped tile is the tile's pixel shifted by `(cropLeft, cropTop)`. |
| TextureSpec.ApplyCrop | Graphics/RaycastForm.cs:286-300 | The crop step gives a well-formed image of the cropped size. |
| TextureSpec.ApplyCropPixel | Graphics/RaycastForm.cs:286-300 | The crop step moves pixel `(x + cropLeft, y + cropTop)` to `(x, y)`, whether or not anything was cropped. |
| TextureSpec.Trimmed | Graphics/RaycastForm.cs:210-301 | Trimming a tile gives a well-formed image whose size is reduced by the crop, and a tile with nothing to crop stays as it is. |
| TextureSpec.TrimmedPixel | Graphics/RaycastForm.cs:292-299 | After trimming, pixel `(x, y)` is the tile's pixel `(x + cropLeft, y + cropTop)`. |
| TextureSpec.CropKeepsOnePixel | Graphics/RaycastForm.cs:281-288 | `newW >= 1` and `newH >= 1` always, so the skip for an empty result (`newW <= 0` or `newH <= 0`) never fires. |
| TextureSpec.CropCutsOnlyBorders | Graphics/RaycastForm.cs:216-284 | Every row and column the crop removes is a border line: at least 90% of its pixels have `r + g + b < 30`. |
| TextureSpec.CropStopsAtContent | Graphics/RaycastForm.cs:229-277 | Where the 1-pixel clamp does not stop it first, the crop stops at a line that is not a border line. |
| TextureSpec.RowCropStops | Graphics/RaycastForm.cs:216-246 | Unless the clamp stops it, the top crop stops at a non-border row, and so does the bottom crop. |
| TextureSpec.ColumnCropStops | Graphics/RaycastForm.cs:248-278 | Unless the clamp stops it, the left crop stops at a non-border column, and so does the right crop. |
| TextureSpec.ClampedRunsStop | Graphics/RaycastForm.cs:280-284 | For a leading run clamped to `n - 1` and a trailing run clamped to what is left, a run that the clamp did not cut ends at a line that is not a border line. |
| TextureSpec.BorderRowAt | Graphics/RaycastForm.cs:216-230 | Entry `y` of the row flags says whether row `y` is a border row. |
| TextureSpec.BorderColumnAt | Graphics/RaycastForm.cs:248-262 | Entry `x` of the column flags says whether column `x` is a border column. |
| TextureSpec.RowSamples | Graphics/RaycastForm.cs:168-183 | A window row yields at most 5 samples, none of them nearly black. |
| TextureSpec.WindowSamples | Graphics/RaycastForm.cs:164-184 | The window yields at most 25 samples, none of them nearly black. |
| TextureSpec.RowOutsideTile | Graphics/RaycastForm.cs:166-167 | A window row outside the tile contributes no samples. |
| TextureSpec.SumSnoc | Graphics/RaycastForm.cs:181 | Adding one sample adds its channel value to that channel's sum. |
| TextureSpec.SumsSnoc | Graphics/RaycastForm.cs:181-182 | One accumulation step updates all four sums and the count, as the loop body does. |
| TextureSpec.Mean | Graphics/RaycastForm.cs:197-200 | `(int)(sum / samples)` is the byte `m` with `m * samples <= sum < (m + 1) * samples`. |
| TextureSpec.Representative | Graphics/RaycastForm.cs:148-202 | With no usable samples, the result is the centre pixel. Otherwise each channel is the rounded-down mean of the samples' channel. |
| TextureSpec.CentreSampled | Graphics/RaycastForm.cs:160-184 | When the centre pixel is not nearly black, the window yields at least one sample, so the centre-pixel fallback is not taken. |
| TextureSpec.UniformWindowRepresentative | Graphics/RaycastForm.cs:160-201 | A tile whose 5 x 5 window shows one colour that is not nearly black is represented by exactly that colour. |
| TextureSpec.DarkWindowRepresentative | Graphics/RaycastForm.cs:179-195 | A tile whose window is all nearly black yields no samples and is represented by its centre pixel. |
| TextureSpec.WindowSamplesUniform | Graphics/RaycastForm.cs:164-184 | A window of one colour yields samples only of that colour. |
| TextureSpec.SumUniform | Graphics/RaycastForm.cs:181 | The sum of `n` equal samples is `n` times their value. |
| TextureSpec.MeanUniform | Graphics/RaycastForm.cs:197-200 | The mean of equal samples is their value. |
| TextureStore.CountDarkInRow | Graphics/RaycastForm.cs:220-228 | The loop's `blackCount` is the number of nearly black pixels in row `y`. |
| TextureStore.CountDarkInColumn | Graphics/RaycastForm.cs:252-260 | The loop's `blackCount` is the number of nearly black pixels in column `x`. |
| TextureStore.DetectTop | Graphics/RaycastForm.cs:216-230 | `top` is the length of the leading run of border rows. |
| TextureStore.DetectBottom | Graphics/RaycastForm.cs:232-246 | `bottom` is the length of the trailing run of border rows. |
| TextureStore.DetectLeft | Graphics/RaycastForm.cs:248-262 | `left` is the length of the leading run of border columns. |
| TextureStore.DetectRight | Graphics/RaycastForm.cs:264-278 | `right` is the length of the trailing run of border columns. |
| TextureStore.ArrayCopy | Graphics/RaycastForm.cs:295 | `Array.Copy` replaces exactly `length` destination pixels with the source span and keeps the rest. |
| TextureStore.CopyCropRowInto | Graphics/RaycastForm.cs:293-296 | One pass of the copy loop extends the copied prefix by the next cropped row. |
| TextureStore.CopyCrop | Graphics/RaycastForm.cs:292-296 | The new buffer holds exactly the cropped tile. |
| TextureStore.TrimTexture | Graphics/RaycastForm.cs:212-300 | Tile `t` after the loop body is `Trimmed` of the tile before it. With nothing to crop, the very same buffer is kept. |
| TextureStore.AtlasRows | Graphics/RaycastForm.cs:86 | `Math.Max(1, h * 4 / w)` is at least 1. |
| TextureStore.AtlasRowsAtMostHeight | Graphics/RaycastForm.cs:86-88 | For atlases at least 4 wide, the row count is at most the height, so tiles are at least one pixel tall. |
| TextureStore.SliceAtlas | Graphics/RaycastForm.cs:84-97 | There are 4 columns, `AtlasRows` rows and one rectangle per tile plus the unused slot 0. Rectangle `i` is tile `i - 1` in row-major order. |
| TextureStore.TileInsideAtlas | Graphics/RaycastForm.cs:87-95 | Every tile rectangle is non-empty and lies inside the atlas. |
| TextureStore.TilesDisjoint | Graphics/RaycastForm.cs:87-95 | Different tiles share no pixel. |
| TextureStore.TextureSet.NoAtlas | Graphics/RaycastForm.cs:78-82 | Without an atlas there are no texture slots, so every texture lookup falls back to the palette. |
| TextureStore.TextureSet.Load | Graphics/RaycastForm.cs:83-121 | After loading, slot `t >= 1` holds tile `t - 1` of the atlas, trimmed. |
| TextureStore.TextureSet.RemoveBlackBorders | Graphics/RaycastForm.cs:204-302 | Every slot `t >= 1` becomes `Trimmed` of itself. Untrimmed slots keep their buffer, and slot 0 and the slot count are unchanged. |
| TextureStore.TextureSet.TrimmedSlots | Graphics/RaycastForm.cs:204-302 | The loop over the slots builds tables in which entry `t >= 1` is slot `t` trimmed. It is the slot's own buffer when nothing is cropped. Entry 0 and the slot count are unchanged. |
| TextureStore.TextureSet.TrimEntry | Graphics/RaycastForm.cs:210-301 | One pass of the slot loop extends the trimmed prefix of the tables by slot `t` and leaves the other entries as they were. |
| TextureStore.TextureSet.RepresentativeColor | Graphics/RaycastForm.cs:148-202 | Magenta for indices outside `1 .. Count - 1`; otherwise the `Representative` of that slot's tile. |
| TextureStore.SampleWindow | Graphics/RaycastForm.cs:157-184 | The nested `oy`/`ox` loops leave the four sums and the count of `WindowSamples`. |
| TextureStore.SampleWindowLine | Graphics/RaycastForm.cs:164-184 | One `oy` pass adds that window row's samples to the sums. A row outside the tile adds nothing. |
| TextureStore.SamplePixel | Graphics/RaycastForm.cs:168-183 | One `ox` pass adds the pixel to the sums exactly when it is inside the tile and not nearly black. |
| TextureStore.SampleWindowRow | Graphics/RaycastForm.cs:168-183 | The `ox` loop over a row inside the tile adds that window row's samples to the sums. |
| Dda.DeltaDist | Graphics/RaycastForm.cs:422-423 | Always positive. For a non-zero direction it is exactly `1 / abs(dir)`. |
| Dda.Start | Graphics/RaycastForm.cs:417-446 | The walk starts in the player's cell `((int)x, (int)y)`, stepping by ±1 toward the ray's direction on each axis. |
| Dda.Advance | Graphics/RaycastForm.cs:454-465 | Exactly one coordinate moves by its step: x when `sideDistX < sideDistY` (then `side == 0`), y otherwise (then `side == 1`). |
| Dda.Walk | Graphics/RaycastForm.cs:452-473 | A hit is reported only on a map cell whose non-zero id is `texIndex`. A miss is reported only once the walker has left the map. |
| Dda.PassesBounded | Graphics/RaycastForm.cs:452-473 | From a map cell the loop makes fewer passes than there are cells left before the edges in the ray's direction. |
| Dda.WalkEndsWithinMapSize | Graphics/RaycastForm.cs:452-473 | From a map cell the walk makes fewer than `mapWidth + mapHeight` passes, whether or not the map is walled in. |
| Dda.CastRay | Graphics/RaycastForm.cs:448-473 | The `while (!hit)` loop with its `break` ends exactly where `Walk` does, with the same `side` and `texIndex`. It makes exactly `Passes` passes, so from a map cell it ends within `mapWidth + mapHeight` passes. |
| Frame.FillCeilingFloor | Graphics/RaycastForm.cs:391-405 | Rows above `screenH / 2` get LightSkyBlue and the rest DarkSlateGray, in every column. |
| Frame.ColumnExtent | Graphics/RaycastForm.cs:484-489 | The run always lies on screen. For `lineHeight >= 0` it contains the centre row, and its length is between `min(lineHeight, H)` and `min(lineHeight + 1, H)`. At `lineHeight == int.MinValue` the negation wraps to itself, as in C#, and the run is empty. |
| Frame.SampleNearest | Graphics/RaycastForm.cs:310-314 | The nearest texel is the tile pixel at the truncated coordinates clamped into the tile. |
| Frame.TexYf | Graphics/RaycastForm.cs:506-508 | The clamped texture row coordinate lies in `[0, texH - 1]`. |
| Frame.TexRowScales | Graphics/RaycastForm.cs:506-508 | Row `d` of a `destHeight`-row run samples tile row `d * texH / destHeight`: the tile is stretched evenly over the run. |
| Frame.Shade | Graphics/RaycastForm.cs:511-512 | Alpha is kept. On `side == 1` each colour channel `v` becomes `d` with `5d <= 4v < 5d + 5`; otherwise the colour is unchanged. |
| Frame.SampleTexture | Graphics/RaycastForm.cs:310-314 | The nearest branch reads the tile pixel `SampleNearest` names. |
| Frame.DrawTexturedColumn | Graphics/RaycastForm.cs:491-516 | Rows `drawStart .. drawEnd` of column `x` get the tile sampled at `texXf` and at the row's share of the tile height, darkened on `side == 1`. No other pixel changes. |
| Frame.DrawFlatColumn | Graphics/RaycastForm.cs:517-526 | Rows `drawStart .. drawEnd` of column `x` get the flat colour, darkened on `side == 1`. No other pixel changes. |
| RaycastFormModel.RaycastForm.constructor | Graphics/RaycastForm.cs:56-145 | The player starts at (3.5, 3.5) facing 0 in an open cell (field initialisers, lines 56-58), and the constructor allocates a frame buffer the size of the client area (lines 143-145). |
| RaycastFormModel.RaycastForm.TryMove | Graphics/RaycastForm.cs:719-730 | The player moves to `(nx, ny)` exactly when the cell `((int)nx, (int)ny)` is on the map and open. Otherwise nothing changes. The angle never changes. |
| RaycastFormModel.RaycastForm.PaintFor | Graphics/RaycastForm.cs:491-519 | A wall is painted from its tile when the store holds one for its id, else in its palette colour. |
| RaycastFormModel.RaycastForm.CloseWallFillsColumn | Graphics/RaycastForm.cs:484-489 | A wall at least as tall as the screen covers the whole column, from the run's first row at the top. |
| RaycastFormModel.RaycastForm.RenderFrame | Graphics/RaycastForm.cs:383-527 | The buffer is resized to the client area. Every pixel ends as the fill, or as the wall run of its column's ray. Player and textures are untouched. |
| RaycastFormModel.RaycastForm.DrawColumns | Graphics/RaycastForm.cs:391-527 | After the fill and the column loop, every pixel of the frame is `ExpectedPixel` of its column's ray. Only the buffer's pixels change. |
| RaycastFormModel.RaycastForm.DrawColumn | Graphics/RaycastForm.cs:410-526 | On a column holding the fill, one ray is cast and the column is drawn as `ExpectedPixel` says. Other columns are untouched. |
| RaycastFormModel.RaycastForm.DrawRun | Graphics/RaycastForm.cs:491-526 | The run of a hit is drawn from the tile when the store holds one for the id, and in the palette colour otherwise. Other columns are untouched. |
| RaycastFormModel.RaycastForm.MiniMapCellColor | Graphics/RaycastForm.cs:657-677 | Open cells are translucent gray. A wall with a tile gets the tile's representative colour; other walls get their palette colour (Magenta past the palette). |
| Form1Model.RotateRight | Graphics/Form1.cs:210 | A facing in `[0, 360)` stays there and advances 5 degrees modulo a full turn. |
| Form1Model.RotateLeft | Graphics/Form1.cs:216 | A facing in `[0, 360)` stays there (0 turns to 355) and goes back 5 degrees modulo a full turn. |
| Form1Model.RotationsCancel | Graphics/Form1.cs:210-216 | A left turn undoes a right turn, and vice versa. |
| Form1Model.StepStaysOnWorld | Graphics/Form1.cs:222-240 | From a walkable block, a step of at most 2 units per axis lands on the 10 x 10 world, so the unchecked `world[...]` lookup is in range. |
| Form1Model.Form1WorldWalledIn | Graphics/Form1.cs:48-60 | Form1's world is 10 x 10 and open exactly on the inner 8 x 8 blocks. |
| Form1Model.WalkableIsInterior | Graphics/Form1.cs:48-60 | In a walled-in world, a walkable position lies in the inner 8 x 8 blocks. |
| Form1Model.TurnEffects | Graphics/Form1.cs:207-217 | A turn key changes only the facing, and always changes it. |
| Form1Model.MoveEffects | Graphics/Form1.cs:219-246 | A move keeps the facing. It lands on `(x + dx, y + dy)` (forward) or `(x - dx, y - dy)` (back) exactly when that block is open, and otherwise the player stays put. |
| Form1Model.KeyKeepsPlayerOnOpenBlock | Graphics/Form1.cs:203-260 | In a walled-in world, every key keeps the player on an open block with a facing in `[0, 360)`. This includes R, since the start block is open. |
| Form1Model.TurnsCancel | Graphics/Form1.cs:207-217 | A right turn followed by a left turn, or a left followed by a right, restores the player. |
| Form1Model.StepBackReturns | Graphics/Form1.cs:219-246 | A step forward that was taken is undone by a step back. |
| Form1Model.BlockedStepKeepsPlayer | Graphics/Form1.cs:222-231 | A step forward into a wall changes nothing. |
| Form1Model.Form1.constructor | Graphics/Form1.cs:35-37 | The player starts at (35, 35) facing 90, on an open block. |
| Form1Model.Form1.KeyDown | Graphics/Form1.cs:203-260 | The new player state is `Pressed` of the old one: right and left only turn, up and down move exactly when the target block `world[(int)(x/10), (int)(y/10)]` is open, R restores (35, 35, 90), and other keys change nothing. The player stays on an open block with a facing in `[0, 360)`. |
| Form1Model.Form1.Turn | Graphics/Form1.cs:207-217 | The two turning cases give the state `Pressed` prescribes and keep the player on an open block. |
| Form1Model.Form1.Step | Graphics/Form1.cs:219-246 | The two moving cases give the state `Pressed` prescribes and keep the player on an open block. |
| Form1Model.Form1.MoveIfOpen | Graphics/Form1.cs:222-230 | The shared collision check gives the state `Moved` prescribes: the target is committed exactly when its block is open. The unchecked lookup is in range. |
| Form1Model.Form1.DrawMap | Graphics/Form1.cs:96-117 | Bitmap pixel `(x, y)` shows `world[y, x]`: Gray exactly when that block is open, else known colour `id + 30`. The player's block `((int)(x/10), (int)(y/10))` is then red. |
| Form1Model.Form1.DrawMapAligned | Graphics/Form1.cs:96-117 | Corrected minimap: pixel `(x, y)` shows `world[x, y]` (Gray exactly when open, else known colour `id + 30`), the block the moves and the ray march see at that position. The red pixel sits on an open block. |
| Form1Model.MinimapTransposesWalls | Graphics/Form1.cs:101-107 | The as-written minimap is right about which blocks are open but transposes the wall colours. Pixel (2, 0) shows id 1 where the world has id 9. |
| Form1Model.WallHeight | Graphics/Form1.cs:155-159 | `(100000 / rayLength) * 4` capped at 200 lies in `[0, 200]` and is even. |
| Form1Model.SliceAt | Graphics/Form1.cs:160-165 | The ceiling, wall and floor rectangles stack without gap or overlap from row 0 to row 200. The wall is centred on row 100 and all three are one pixel wide at `x`. |
| Form1Model.WallHeightShrinks | Graphics/Form1.cs:155-159 | A longer ray never draws a taller wall. |
| Form1Model.WallHeightRange | Graphics/Form1.cs:155-159 | Rays up to 2000 draw a full-height wall. Every ray a march in the 100 x 100-unit world can produce (at most 14143 long) draws a wall at least 28 rows tall; only rays longer than 100000, which cannot occur, draw none. |

## Left out

- **Image and bitmap I/O.** Loading `textures.jpg`, `LockBits`, `Marshal.Copy` and the stride-aware blit of the frame buffer are left out. `TextureSet.Load` takes the tiles' pixel sequences as input, in slot order.
- **Errors in the loading `try`.** When the file is missing, the store is `NoAtlas` (no slots). The `catch` path is not modelled: it nulls the atlas and the rectangles but keeps any pixel tables.
- **Narrow atlases.** `TextureSet.Load` requires an atlas at least 4 pixels wide. Narrower atlases give 0-wide tiles, and that load ends in the exception path above.
- **Slot 0.** It is `null` in the source and an empty buffer here. No lookup ever reads it, because every lookup requires `texIndex > 0`.
- **Jagged arrays.** The per-slot tables (`_texturePixels`, `_textureWidths`, `_textureHeights`) are sequence-valued fields that `RemoveBlackBorders` reassigns, not jagged arrays updated in place. The per-slot pixel buffers are still arrays, and the frame buffer is one array.
- **Float geometry.** Camera geometry is left out: `Math.Atan`, `Tan`, `Cos`, `Sin`, the field of view, `perpWallDist`, the hit point and `wallX`. `RenderFrame` takes each column's ray direction, `lineHeight` and `texXf` as given (`ColumnRay`). `Form1.KeyDown` takes the step `(cos, sin) * 2` as `(dx, dy)`, with `|dx|, |dy| <= 2`.
- **Doubles as reals.** `double` values are exact reals, so rounding in `sideDist` and `deltaDist` accumulation is not modelled. `1e30` is an exact constant.
- **Bilinear sampling.** It is left out (RaycastForm.cs:317-364), together with the `B` key that toggles it. Only the nearest branch (the default) is modelled.
- **RaycastForm key handler.** `OnKeyDown`'s turns change an unwrapped radian angle by `5 * PI / 180`, which needs floating point; its moves are `TryMove`, which is modelled.
- **Minimap drawing.** `DrawMiniMap`'s scaling, outlines, player dot and ray-hit lines are left out; only the cell colour choice is modelled (`MiniMapCellColor`). The FPS counter, labels and WinForms plumbing are left out too.
- **Form1's ray march.** The march (Form1.cs:126-151) steps by float increments of 0.01 with no bounds check and stops only because the world is walled in. The cosine correction goes with it. `SliceAt` takes the corrected `rayLength` as input, requiring `rayLength >= 1`: a march takes at least one step, and the correction factor `cos(beta)` is at least `cos(30°)`, so a length of at least 2 stays at least 1.
- Form1Model.Form1.KeyDown: the facing is an `int`. The source keeps it in a `float`, but it only ever holds whole degrees: it starts at 90 and changes by 5 modulo 360.
- Form1Model.StepBackReturns: holds for exact reals only. In the program the positions are doubles, so `(x + dx) - dx` comes back to `x` only up to rounding; a position one ulp above a block edge can have its step back refused. The same rounding applies to the position arithmetic of `Form1.KeyDown` (Form1.cs:222-243) and of `RaycastForm.TryMove`'s targets, which the model takes as exact.
- Colors.DarkenArgbScales: `(int)(v * 0.8f)` is modelled as `(4 * v) / 5`. For `v` in 0..255 the float product is less than `1e-5` away from `0.8 * v`. It is exactly `0.8 * v` when `v` is a multiple of 5; otherwise `0.8 * v` is at least 0.2 away from any integer. So truncation gives `(4 * v) / 5` either way. The source's clamps to 0..255 can never fire, so they are not modelled.
- **Truncation of negative coordinates.** `TryMove` truncates toward zero, as C# does: a target of -0.5 truncates to cell 0 and passes the `mx >= 0` test. The model keeps this behaviour. Here it is harmless, because the map's outer ring is wall.

## Findings

| source | as written | input that shows it | evidently intended | confidence | as-written member | corrected member |
|---|---|---|---|---|---|---|
| Graphics/Form1.cs:101-107 | The minimap pixel `(x, y)` reads `world[y, x]`, while moves (Form1.cs:226), the ray march (Form1.cs:141) and the player marker (Form1.cs:115-117) use `world[x, y]`. | Block `world[2, 0]` has id 9, but minimap pixel (2, 0) shows id 1 (known colour 31 instead of 39). | The minimap shows, at each position, the block the player walks and sees there. | medium; not executed | Form1Model.Form1.DrawMap, Form1Model.MinimapTransposesWalls | Form1Model.Form1.DrawMapAligned |
