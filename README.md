# Palette reduction with ordered dithering, in Dafny

This project models the palette-reduction engine of kdisplay. An RGBA frame is
quantised to a small palette. For each whole 4-byte pixel, the engine finds the
nearest and second-nearest palette colours by perceptual distance. It computes
the ratio of their distances (the *mix*). An ordered-dithering rule then picks
one of the two colours. That rule reads its threshold from a fixed 9-entry
dispersion table at index `|x - 3y| mod 9`. The model also covers how palettes
are built from hex strings and how the palette catalogue is displayed.

Modules, one per component:

- `Colors` (colors.dfy): bytes, `Rgb`, `Lab`, and `ColorSpace`. `ColorSpace`
  stands in for the `lab` and `delta_e` crates. Its three fields are arbitrary
  functions: `fromRgb`, `toRgb`, and a `delta` whose results are never negative.
- `HexColors` (hex.dfy): reading `RRGGBB` strings, as the closure in
  `Palette::new` does.
- `OrderedDither` (dither.dfy): `dither`, the dispersion table, and i32
  wrap-around of `x - y * 3`. `Wrap` (the release-build wrap of that
  difference) is part of `DitherIndex`, and `PicksMain` (the comparison
  `mix < threshold`, false for NaN) is part of `Dither`. The rows for
  `DitherIndex`, `Dither`, `WrapIsCongruent`, `WrapCongruent` and
  `WrapInRange` state their properties.
- `PaletteMatch` (palette.dfy): `Palette::new` and `Palette::find_closest`.
  `FindClosest` is the source's loop. It is proved against `Scan`, a
  declarative statement of what the loop keeps: the first entry at the least
  distance, and the first other entry at the least distance among the rest,
  with 101 as the sentinel. `ScanStep` proves that the loop's update rule
  turns the scan of a prefix into the scan of a prefix one entry longer.
- `Screens` (screen.dfy): the `Screen` class. Its `ApplyPaletteDithered`
  rewrites the `buffer` array in place. It is proved equal to `Dithered`,
  a function of the old buffer, and the lemmas about `Dithered` state the
  pass's properties.
- `PaletteCatalog` (catalog.dfy): `Display` for `JsonPalette` and
  `JsonPalettes`, and `JsonPalettes::len`.

Behaviour of the code that is easy to get wrong:

- A one-colour palette gives `mix = d / 101`, not 1. The alternative keeps the
  sentinel distance 101.
- A NaN mix (0/0) is not normalised to the closest colour. `NaN < threshold` is
  false, so `dither` returns the alternative. NaN arises only when two
  different palette entries both match the target exactly
  (`MixNaNIffTwoExactMatches`).
- Pixel `i` is at `x = i % width`, `y = i / width`.
- A chunk that is not a whole pixel cannot occur. `chunks_exact_mut(4)` never
  yields one, and bytes after the last whole pixel are left as they are.

## Model

| member | source | states |
|---|---|---|
| `HexColors.Channel` | src/main.rs:114-116 | channel k is read from characters 2k and 2k+1 as two hex digits (either case). It fails exactly when the string is too short or one of the two is not a hex digit, and the error names that pair |
| `HexColors.ParseColor` | src/main.rs:113-117 | a colour string parses exactly when its first six characters are hex digits. The result is the three two-digit values in order |
| `HexColors.ParseHexColor` | src/main.rs:114-116 | formatting any colour as six hex digits and parsing it back, whatever follows, gives that colour |
| `HexColors.TrailingCharactersIgnored` | src/main.rs:114-116 | characters after the sixth never change the parse |
| `PaletteMatch.ParseColors` | src/main.rs:109-120 | the strings parse in order: on success one colour per string, in input order. On failure the error is the first malformed string and the reason it failed |
| `PaletteMatch.NewPalette` | src/main.rs:109-121 | `Palette::new` succeeds exactly when every string is well formed. The palette then has one L*a*b* colour per string, in input order |
| `PaletteMatch.NewPaletteOfHexColors` | src/main.rs:109-121 | building a palette from formatted colours gives the L*a*b* forms of exactly those colours, in order |
| `PaletteMatch.Least` | src/main.rs:124-137 | the least of the sentinel 101 and every distance except the skipped entry's. It is at most each of them and equal to one of them or to the sentinel |
| `PaletteMatch.LeastUnique` | src/main.rs:124-137 | those three properties determine the least distance |
| `PaletteMatch.FirstIndexOf` | src/main.rs:128-133 | the first entry other than the skipped one at a given distance; strict `<` means earlier entries win ties |
| `PaletteMatch.Pick` | src/main.rs:124-137 | the entry kept for the least distance: the first one attaining it, or entry 0 when no distance beats the sentinel |
| `PaletteMatch.Scan` | src/main.rs:124-137 | after a scan: closest distance ≤ alternative distance ≤ 101. The closest distance is at most every distance, and the alternative distance is at most every other entry's. Each candidate is the first entry attaining its distance, or entry 0 at the sentinel |
| `PaletteMatch.ScanEmpty` | src/main.rs:124-125 | before any entry, both candidates are entry 0 at distance 101 |
| `PaletteMatch.ScanStepNearer` | src/main.rs:128-132 | a strictly nearer entry becomes the closest, and the old closest becomes the alternative |
| `PaletteMatch.ScanStepNearerAlternative` | src/main.rs:133-135 | an entry no nearer than the closest but strictly nearer than the alternative becomes the alternative |
| `PaletteMatch.ScanStepFarther` | src/main.rs:126-137 | an entry no nearer than the alternative changes nothing |
| `PaletteMatch.ScanStep` | src/main.rs:126-137 | the update rule of the loop body turns the scan of the first i entries into the scan of the first i+1 |
| `PaletteMatch.MixOf` | src/main.rs:141 | the f32 ratio closest/alternative: NaN exactly when the alternative distance is 0, otherwise a value in [0, 1] that times the alternative distance gives the closest distance |
| `PaletteMatch.ClosestMix` | src/main.rs:122-143 | both returned colours are `to_rgb` of palette entries, and a finite mix lies in [0, 1] |
| `PaletteMatch.FindClosest` | src/main.rs:122-143 | the loop over the palette returns exactly `ClosestMix` of the target's RGB (alpha plays no part) |
| `PaletteMatch.SingleEntry` | src/main.rs:124-141 | a one-colour palette returns that colour as closest and alternative, with mix d/101 (1 if d ≥ 101) |
| `PaletteMatch.MixNaNIffTwoExactMatches` | src/main.rs:127-141 | the mix is NaN exactly when two different entries are both at distance 0 |
| `PaletteMatch.ClosestIsNearest` | src/main.rs:126-132 | the closest entry is at least as near as every entry nearer than the sentinel |
| `OrderedDither.WrapIsCongruent` | src/main.rs:95 | i32 wrap-around changes the exact value by a multiple of 2^32 (the result is an i32 by its type) |
| `OrderedDither.WrapCongruent` | src/main.rs:95 | values congruent modulo 2^32 wrap to the same i32 |
| `OrderedDither.WrapInRange` | src/main.rs:95 | an exact difference that fits an i32 is kept unchanged |
| `OrderedDither.DitherIndex` | src/main.rs:95 | the index is in [0, 8] for every i32 x and y, negative ones included |
| `OrderedDither.Threshold` | src/main.rs:96 | every threshold lies in (0, 1] |
| `OrderedDither.Dither` | src/main.rs:88-102 | the result is one of the two colours; when they differ it is the main colour exactly when the mix is below the position's threshold |
| `OrderedDither.IndexOfDifference` | src/main.rs:95 | wrapping `y * 3` first and then `x - ...` gives the same index as wrapping the exact `x - 3y` |
| `OrderedDither.IndexWithoutOverflow` | src/main.rs:95 | without overflow the index is exactly `|x - 3y| mod 9` |
| `OrderedDither.DiagonalShift` | src/main.rs:95 | moving to (x+3, y+1) keeps the index and the decision |
| `OrderedDither.MirrorAboutDiagonal` | src/main.rs:95 | (6y - x, y) has the same index as (x, y): `unsigned_abs` mirrors the pattern about the line x = 3y |
| `OrderedDither.ThresholdAt` | src/main.rs:95-96 | where x - 3y does not overflow, the threshold is `DISPERSED[|x - 3y| mod 9] / 9` |
| `OrderedDither.NeighboursDisagree` | src/main.rs:95-101 | at mix 1/2, pixel (0, 0) takes the alternative and (1, 0) keeps the main colour |
| `OrderedDither.ZeroMixKeepsMain` | src/main.rs:86-98 | mix 0 picks the main colour at every position |
| `OrderedDither.FullMixPicksAlternative` | src/main.rs:86-101 | a mix of 1 or more picks the alternative at every position |
| `OrderedDither.NaNPicksAlternative` | src/main.rs:97-101 | a NaN mix always yields the alternative colour |
| `OrderedDither.MonotoneInMix` | src/main.rs:97 | lowering the mix never turns a main-colour pixel into an alternative one |
| `OrderedDither.DispersedIsPermutation` | src/main.rs:86 | the table holds each of 1..9 exactly once |
| `OrderedDither.WindowEntries` | src/main.rs:95-96 | the nine table entries (thresholds times 9) used by nine consecutive pixels of a row |
| `OrderedDither.IndexAlongRow` | src/main.rs:95 | on or to the right of the line x = 3y, the index rises by one per pixel modulo 9 |
| `OrderedDither.IndexAlongRowLeft` | src/main.rs:95 | on or to the left of the line x = 3y, the index falls by one per pixel modulo 9 |
| `OrderedDither.RotatedAt` | src/main.rs:86 | entry k of the table rotated by s is entry (s+k) mod 9 |
| `OrderedDither.WindowIsRotation` | src/main.rs:95-96 | a window on or to the right of x = 3y reads the table rotated by (x0 - 3y) mod 9 |
| `OrderedDither.WindowIsReversedRotation` | src/main.rs:95-96 | a window on or to the left of x = 3y reads the table rotated by (3y - x0 - 8) mod 9, backwards |
| `OrderedDither.RotationKeepsValues` | src/main.rs:86 | a rotated table holds the same values |
| `OrderedDither.WindowUsesEveryThreshold` | src/main.rs:85-96 | nine consecutive pixels of a row, all on or to the right of x = 3y or all on or to the left of it, use each threshold 1/9 .. 9/9 exactly once (a window that straddles the line is not covered) |
| `Screens.CoordinatesFit` | src/main.rs:41 | both coordinates of pixel i are at most i |
| `Screens.DitheredPixel` | src/main.rs:41-54 | a pixel's new colour is `to_rgb` of some palette entry |
| `Screens.DitheredByteAt` | src/main.rs:55 | bytes 0-2 of pixel i take its dithered R, G and B, and byte 3 keeps its old value |
| `Screens.Dithered` | src/main.rs:36-57 | the pass keeps the buffer length, every alpha byte, and every byte after the last whole pixel |
| `Screens.DitheredPixelAt` | src/main.rs:41-55 | pixel i becomes `dither(i % width, i / width, closest, alternative, mix)` of the lookup on its own original RGB, and its alpha is unchanged |
| `Screens.PixelsIndependent` | src/main.rs:37-55 | a pixel's result depends only on its own original bytes and its index, never on other pixels |
| `Screens.OnlyPaletteColors` | src/main.rs:46-55 | every rewritten pixel shows `to_rgb` of some palette colour |
| `Screens.DonePrefixStep` | src/main.rs:55 | writing one pixel's dithered colour and its own alpha extends the finished part by exactly that pixel |
| `Screens.DonePrefixComplete` | src/main.rs:37 | once every whole pixel is finished, the buffer is the dithered buffer |
| `Screens.Screen.constructor` | src/main.rs:29-33 | the screen holds the given width, buffer and palette |
| `Screens.Screen.ApplyPaletteDithered` | src/main.rs:36-57 | the buffer afterwards equals `Dithered` of its old contents |
| `PaletteCatalog.Decimal` | src/palettes.rs:22-24 | a count prints as decimal digits with no leading zero |
| `PaletteCatalog.DecimalRoundTrip` | src/palettes.rs:22-24 | reading the printed digits back gives the count |
| `PaletteCatalog.DecimalInjective` | src/palettes.rs:22-24 | different counts render differently |
| `PaletteCatalog.AuthorPart` | src/palettes.rs:16-20 | the author part is empty exactly when the author is "" or a single space. Otherwise it is " by " followed by the author |
| `PaletteCatalog.RenderPalette` | src/palettes.rs:21-25 | the rendering starts with the palette's name |
| `PaletteCatalog.RenderedCount` | src/palettes.rs:21-25 | after the name come the author part and " [", then digits that denote the number of colours, then " Colors]" at the end |
| `PaletteCatalog.RenderDistinguishesCounts` | src/palettes.rs:21-25 | two palettes with the same name and author render alike only if they have as many colours |
| `PaletteCatalog.Len` | src/palettes.rs:69-129 | `len`, the sum of the 28 category sizes, is the number of palettes in all categories laid end to end |
| `PaletteCatalog.LenBoundsEachCategory` | src/palettes.rs:69-129 | `len` is at least the size of every category |
| `PaletteCatalog.RenderPalettes` | src/palettes.rs:62-65 | the rendering is bracketed and ends with " Palettes]" |
| `PaletteCatalog.RenderedPaletteCount` | src/palettes.rs:62-65 | the digits in the catalogue's rendering denote `len` |

## Left out

- Lab conversion (`Lab::from_rgb`, `Lab::from_rgba`, `Lab::to_rgb`) and CIEDE2000 (`DE2000::new`) come from foreign floating-point crates. They are the arbitrary functions of `ColorSpace`, and the only property the model relies on is that distances are never negative.
- PaletteMatch.FindClosest: the target is `fromRgb` of the pixel's RGB. This relies on what the `lab` crate documents: that `Lab::from_rgba` ignores alpha.
- f32 arithmetic: distances, the sentinel, `mix` and thresholds are real numbers. Rounding in `d / 9.0` and in `closest_delta / alternative_delta` is not modelled. Of the special values, only the NaN that 0/0 produces is modelled; infinities cannot arise with non-negative distances.
- PaletteMatch.FindClosest: requires a non-empty palette. The source panics on `self.colors[0]` instead.
- PaletteMatch.ClosestMix: requires a non-empty palette. The source panics on `self.colors[0]` instead.
- Screens.Screen.ApplyPaletteDithered: requires `CanDither`. With at least one whole pixel, the width must be non-zero and the palette non-empty (the source panics otherwise). There may be at most 2^31 pixels, which stands in for the `try_into().unwrap()` of the coordinates into i32. The panic itself is not modelled.
- OrderedDither.Dither: `x - y * 3` wraps around as in a release build. A debug build panics on that overflow instead.
- HexColors.ParseColor: digits are read strictly. `u8::from_str_radix` also accepts a leading `+` (so `"+f"` parses as 15), which is not modelled. Lengths and slices count characters, not UTF-8 bytes. The two agree on every string that parses, and both reject every other string, though the reported reason may differ.
- PaletteMatch.ClosestIsNearest: the statement covers only entries nearer than the sentinel. When every distance is 101 or more, the source keeps entry 0, which need not be the nearest.
- `Screen::new`: resizing and RGBA conversion go through the `image` crate. The constructor takes the already converted buffer.
- `Screen::display` (file creation, mmap, memory locking) and `Screen::render` (the `image` crate) are I/O.
- `main`: image files, sleeping, printing and the endless palette-cycling loop are I/O and orchestration.
- `parse_palettes`: it reads a file and deserialises JSON.
- `Formatter` error propagation: the displays are modelled as the strings they write.
