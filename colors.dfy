/** 32-bit ARGB pixels as RaycastForm handles them: the bit pattern of a C# `int`,
    channels taken with shifts and masks, and the named colours the renderer uses. */
module Colors {
  type Argb = bv32

  function Alpha(c: Argb): bv8 { ((c >> 24) & 0xFF) as bv8 }
  function Red(c: Argb): bv8 { ((c >> 16) & 0xFF) as bv8 }
  function Green(c: Argb): bv8 { ((c >> 8) & 0xFF) as bv8 }
  function Blue(c: Argb): bv8 { (c & 0xFF) as bv8 }

  /** `(a << 24) | (r << 16) | (g << 8) | b`, also what `Color.FromArgb(a, r, g, b).ToArgb()` yields. */
  function FromArgb(a: bv8, r: bv8, g: bv8, b: bv8): (c: Argb)
    ensures Alpha(c) == a && Red(c) == r && Green(c) == g && Blue(c) == b
  {
    ((a as bv32) << 24) | ((r as bv32) << 16) | ((g as bv32) << 8) | (b as bv32)
  }

  /** Splitting a pixel into its channels and packing them again gives the pixel back. */
  lemma SplitPack(c: Argb)
    ensures FromArgb(Alpha(c), Red(c), Green(c), Blue(c)) == c
  {
  }

  /** A channel value known to be in 0..255, as a byte (counted up one by one, which
      keeps the solver away from integer-to-bit-vector conversion). */
  function ToByte(m: int): (b: bv8)
    requires 0 <= m <= 255
    ensures b as int == m
  {
    if m == 0 then 0 else ToByte(m - 1) + 1
  }

  /** Sum of the colour channels, the measure both "nearly black" tests use. */
  function ChannelSum(c: Argb): (s: int)
    ensures 0 <= s <= 765
  {
    Red(c) as int + Green(c) as int + Blue(c) as int
  }

  /** `r + g + b < 30`: the black threshold of RaycastForm's border trimming and
      representative-colour sampling. */
  const BlackThreshold := 30

  predicate IsDark(c: Argb)
  {
    ChannelSum(c) < BlackThreshold
  }

  /** Scale one channel by 0.8f and truncate; for 0..255 this is exactly `(4 * v) / 5`,
      which never leaves 0..255, so the source's clamps to that range are left out. */
  function DarkenChannel(v: bv8): bv8
  {
    ((v as bv16) * 4 / 5) as bv8
  }

  /** A darkened channel is 80% of the original, rounded down, and never brighter. */
  lemma DarkenChannelScales(v: bv8)
    ensures 5 * (DarkenChannel(v) as bv16) <= 4 * (v as bv16) < 5 * (DarkenChannel(v) as bv16) + 5
    ensures DarkenChannel(v) <= v
  {
  }

  /** RaycastForm.DarkenArgb with factor 0.8f. */
  function DarkenArgb(c: Argb): Argb
  {
    FromArgb(Alpha(c), DarkenChannel(Red(c)), DarkenChannel(Green(c)), DarkenChannel(Blue(c)))
  }

  /** Darkening keeps alpha and scales each colour channel to 80%, rounded down. */
  lemma DarkenArgbScales(c: Argb)
    ensures Alpha(DarkenArgb(c)) == Alpha(c)
    ensures 5 * (Red(DarkenArgb(c)) as bv16) <= 4 * (Red(c) as bv16) < 5 * (Red(DarkenArgb(c)) as bv16) + 5
    ensures 5 * (Green(DarkenArgb(c)) as bv16) <= 4 * (Green(c) as bv16) < 5 * (Green(DarkenArgb(c)) as bv16) + 5
    ensures 5 * (Blue(DarkenArgb(c)) as bv16) <= 4 * (Blue(c) as bv16) < 5 * (Blue(DarkenArgb(c)) as bv16) + 5
  {
    DarkenChannelScales(Red(c));
    DarkenChannelScales(Green(c));
    DarkenChannelScales(Blue(c));
  }

  // System.Drawing named colours, as `ToArgb()` returns them
  const Magenta: Argb := 0xFFFF00FF
  const LightSkyBlue: Argb := 0xFF87CEFA
  const DarkSlateGray: Argb := 0xFF2F4F4F

  /** RaycastForm._palette: id 0 unused (Black), 1 light gray, then SaddleBrown, DarkBlue,
      DarkOliveGreen, DarkRed, Orange, Purple, Teal, Yellow. */
  const Palette: seq<Argb> := [
    0xFF000000, 0xFFC8C8C8, 0xFF8B4513, 0xFF00008B, 0xFF556B2F,
    0xFF8B0000, 0xFFFFA500, 0xFF800080, 0xFF008080, 0xFFFFFF00
  ]

  /** `_palette.Length > id ? _palette[id] : Color.Magenta`: ids past the palette get the
      Magenta sentinel, and no palette entry is Magenta, so the sentinel marks exactly the
      unknown ids. */
  function PaletteColor(id: nat): (c: Argb)
    ensures c == Magenta <==> id >= |Palette|
    ensures id < |Palette| ==> c == Palette[id]
  {
    if |Palette| > id then Palette[id] else Magenta
  }
}
