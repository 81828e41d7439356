# emojsaic pixel pipeline, modelled in Dafny

emojsaic turns a raster image into a mosaic. It reads the RGBA bytes of the
decoded image, groups them into pixel records, reshapes those into a grid,
cuts the grid into square blocks of `STEP × STEP` pixels and averages each
block. Fully transparent pixels (alpha 0) are left out of the average. The
same alpha-aware average over a whole image gives each emoji of the palette
its representative colour. The palette entries are then indexed by name.

This project models that pure core of `src/index.ts` over unbounded integers
and sequences:

- `PixelGrid` (`pixel_grid.dfy`): `mapToPixes` (four bytes per pixel) and
  `mapToMatrix` (row-major reshape to `imgHeight × imgWidth`).
- `Rounding` (`rounding.dfy`): `Math.round(sum / count)` as exact integer
  arithmetic, `(2*sum + count) div (2*count)`. The division is a floor
  division, and the identity holds for every integer sum and positive count.
- `Averaging` (`averaging.dfy`): the block average of `calcAvg` and the
  whole-image average of `calcEmojiAvg`. Both share one reference definition,
  `BlockAverage`, and one model of their nested loops, `SumWindow`.
- `Mosaic` (`mosaic.dfy`): `createMosaicPixel`, the tiling at multiples of
  `STEP`. The reference `Mosaic` reads only the whole blocks, the first
  `w / step * step` columns and `h / step * step` rows, so it needs only
  those cells to exist.
- `Emoji` (`emoji.dfy`): the per-image step of `createEmojiDataList` and
  `createEmojiDict`.
- `Pixels`, `Wrappers`, `Arith`: the data model, `Option`, and small
  arithmetic facts.

Each operation has two forms. A pure recursive function is the reference
definition. Where the source loops with index arithmetic (`i += 4`, a running
`i`, `y += STEP`), a method repeats that loop, and its contract says it
computes exactly the reference.

Decisions:

- `STEP` is a constant 1 in the source. Here it is a parameter `step`, so
  blocks of any size are covered. The mosaic needs `step > 0`, because with 0
  the source loop never advances. A block average with `step == 0` reads no
  pixel, so it yields `None`.
- A block whose pixels all have alpha 0 makes the source divide 0 by 0. It
  produces `NaN` channels. Here such an average is `None`, and a mosaic cell
  is an `Option<Pixel>`, so one transparent block does not hide the others.
- A pixel takes part in an average when `a != Some(0)`. This copies the
  source's `p.a !== 0`, under which a missing alpha counts as opaque.
- When `mapToMatrix` gets fewer than `w*h` pixels, the source fills the
  missing cells with `undefined`, and averaging then fails on `p.a`. Here the
  grid is `None` in that case.
- `mapToPixes` turns only whole groups of four bytes into pixels. It drops
  1 to 3 trailing bytes, and `mapToMatrix` ignores pixels past `w*h`. So a
  buffer longer than `w*h*4` bytes is accepted.
- `Math.round` rounds halves towards +∞ (2.5 → 3, -2.5 → -2), not half away
  from zero and not half to even. The model rounds the same way.
- `src/index.ts` has no nearest-colour matcher and no glyph output. The
  palette stops at the name index of `createEmojiDict`.

## Model

| member | source | states |
|---|---|---|
| PixelGrid.MapToPixels | src/index.ts:24-36 | one pixel per whole 4 bytes (`data.length / 4`, rounded down); pixel `k` is `data[4k], data[4k+1], data[4k+2]` with alpha `data[4k+3]`; 1–3 trailing bytes make no pixel |
| PixelGrid.MapToPixelsLoop | src/index.ts:26-33 | the loop `i = 0, 4, 8, … while i <= length - 4` pushes exactly the pixels of `MapToPixels` |
| PixelGrid.MapToPixelsOfToBytes | src/index.ts:24-36 | re-splitting the RGBA bytes of byte-valued pixels gives those pixels back |
| PixelGrid.ToBytesOfMapToPixels | src/index.ts:24-36 | the pixels of a buffer re-encode to the buffer minus its trailing partial pixel |
| PixelGrid.MapToMatrix | src/index.ts:38-53 | a grid exists exactly when at least `w*h` pixels are given; it has `h` rows of `w` cells whose row-by-row cells are the first `w*h` pixels |
| PixelGrid.MapToMatrixAt | src/index.ts:41-50 | cell `(y, x)` is pixel `y*w + x` |
| PixelGrid.MapToMatrixLoop | src/index.ts:38-53 | the nested loops with the running index `i` produce exactly `MapToMatrix`, or `None` when a read runs past the pixels |
| PixelGrid.ReadRow | src/index.ts:43-47 | the inner loop yields the `w` pixels from index `i` on, and yields nothing exactly when they run past the end |
| PixelGrid.MapToMatrixOfFlatten | src/index.ts:38-53 | reshaping the flattened cells of a `w × h` grid gives the grid back |
| Rounding.RoundHalfUp | src/index.ts:72-76 | the result `q` is within a half of `s / c`: `q - 1/2 <= s/c < q + 1/2` (halves go up) |
| Rounding.RoundHalfUpUnique | src/index.ts:72-76 | at most one integer meets that rounding condition |
| Rounding.RoundHalfUpExact | src/index.ts:72-76 | the mean of `c` copies of `v` rounds to `v` |
| Rounding.RoundHalfUpWithin | src/index.ts:72-76 | a rounded mean of values in `lo..hi` stays in `lo..hi` |
| Rounding.RoundHalfUpHalves | src/index.ts:72-76 | 2.5 rounds to 3, -2.5 to -2, 127.5 to 128 |
| Averaging.Mean | src/index.ts:72-76 | no result exactly when the count is 0; otherwise every channel is its sum over the count rounded half up, and no alpha |
| Averaging.BlockAverage | src/index.ts:72-76 | an average carries no alpha channel |
| Averaging.BlockAverageNone | src/index.ts:55-77 | the average of a window is `None` exactly when every pixel in it has alpha 0 |
| Averaging.SumWindow | src/index.ts:56-70 | the nested loops total exactly the count and channel sums of the window's non-transparent pixels |
| Averaging.SumRow | src/index.ts:61-69 | the inner loop adds one row of the window to the running totals |
| Averaging.CalcAvg | src/index.ts:55-77 | `calcAvg(x, y)` is the average of the `step × step` window with top-left pixel `(x, y)` |
| Averaging.CalcEmojiAvg | src/index.ts:131-153 | `calcEmojiAvg` is the same alpha-aware, same-rounding average over the single window `[0, h) × [0, w)` |
| Averaging.TallyCountZero | src/index.ts:63-64 | no pixel is counted exactly when every pixel has alpha 0 |
| Averaging.BlockAverageIgnoresTransparent | src/index.ts:60-69 | two windows agree on their average when they agree, cell by cell, on which pixels take part and on those pixels' colours; so the average reads only its window and ignores the colour of alpha-0 pixels |
| Averaging.BlockAverageRepaintTransparent | src/index.ts:62-68 | repainting one alpha-0 pixel with any alpha-0 colour leaves the average unchanged |
| Averaging.BlockAverageUniform | src/index.ts:55-77 | a block of opaque pixels all of colour `(r, g, b)` averages to exactly `(r, g, b)` |
| Averaging.BlockAverageSingle | src/index.ts:55-77 | a 1×1 window over a counted pixel averages to that pixel's colour |
| Averaging.MeanWithin | src/index.ts:72-76 | when every channel sum lies between `count*lo` and `count*hi`, the rounded mean lies in `lo..hi` |
| Averaging.BlockAverageWithin | src/index.ts:55-77 | if every counted pixel has channels in `lo..hi` (bytes: 0..255), so does the average |
| Averaging.BlockAverageCheckerboard | src/index.ts:55-77 | a 2×2 black/white checkerboard averages to 127.5 per channel and rounds to `(128, 128, 128)` |
| Averaging.BlockAverageOneVisible | src/index.ts:60-76 | one opaque `(10, 20, 30)` pixel among three alpha-0 pixels, each of any colour, averages to `(10, 20, 30)` |
| Averaging.MeanUniform | src/index.ts:72-76 | a non-empty tally whose sums are the count times `(r, g, b)` rounds to exactly `(r, g, b)` |
| Mosaic.SpanWhole | src/index.ts:84-86 | the whole blocks that fit in `n` cells cover `n / step * step` of them, the cells the mosaic reads |
| Mosaic.Mosaic | src/index.ts:79-93 | the reference tiling of `createMosaicPixel`: one block row per whole block that fits in the height (`h / step` rows); the row widths and cell values are stated by `MosaicShape` and `MosaicCell` |
| Mosaic.MosaicShape | src/index.ts:79-93 | the mosaic has `h / step` rows of `w / step` cells; trailing partial blocks are dropped |
| Mosaic.MosaicRowWidth | src/index.ts:86-88 | every row of the mosaic has `w / step` cells |
| Mosaic.MosaicCell | src/index.ts:84-92 | cell `(r, c)` is the average of the block with top-left pixel `(c*step, r*step)`, which lies inside the `w × h` image and the grid |
| Mosaic.MosaicLine | src/index.ts:86-88 | the loop `x = 0, step, … while x <= w - step` yields one `calcAvg` per whole block of the row, left to right |
| Mosaic.CreateMosaicPixel | src/index.ts:84-92 | the nested loops stepping by `step` produce exactly `Mosaic`, row by row |
| Mosaic.MosaicUnitCell | src/index.ts:79-93 | with `step == 1`, the cell at `(y, x)` of a counted pixel is that pixel with alpha dropped |
| Mosaic.MosaicUnitStep | src/index.ts:79-93 | with `step == 1` and no alpha-0 pixel, the mosaic is the grid with alpha dropped |
| Emoji.EmojiDataOf | src/index.ts:160-165 | the bytes → pixels → grid → whole-image average chain gives an entry exactly when the image holds `w*h` pixels and one of them has non-zero alpha; the entry carries the name, and its colour is the rounded mean of the counted pixels among the first `w*h` of the buffer, a byte colour |
| Emoji.EmojiDataUniform | src/index.ts:131-165 | an image whose visible pixels all have colour `(r, g, b)`, with at least one visible, gets an entry of exactly `(r, g, b)`, whatever its alpha-0 pixels hold |
| Emoji.EmojiDict | src/index.ts:170-176 | the keys are exactly the names in the list, and every entry is stored under its own name |
| Emoji.EmojiDictLastWins | src/index.ts:172-174 | when a name repeats, the last entry with that name is the one stored |

## Left out

- `createMosaicPng` (src/index.ts:95-113): canvas drawing and PNG stream output are foreign library calls and I/O. Its `fillRect` passes end coordinates where sizes are expected, which is a rendering matter outside the pure core.
- `mosaTest` (src/index.ts:115-129) and `main` (src/index.ts:178-189): file reads and writes, JSON parsing and printing, and image decoding through the canvas library. An image enters the model as `Emoji.Image`, meaning its width, height and RGBA bytes.
- `createEmojiDataList` (src/index.ts:155-168): the asynchronous `Promise.all` over `Canvas.loadImage` and the progress log are I/O. Only the per-image computation it runs is modelled, as `Emoji.EmojiDataOf`.
- Floating point: channels, sums and averages are unbounded integers. `Math.round(s / c)` is modelled exactly as integer arithmetic. The rounding error of the floating division for very large sums is not modelled.
- Emoji.EmojiDict: a name equal to `__proto__` is an ordinary key here. A JavaScript object assignment would set the prototype instead. The key order of the resulting object is not modelled either, because a Dafny `map` has none.
