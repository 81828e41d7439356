/** The data model of the pixel pipeline: bytes, pixels and pixel grids. */
module Pixels {
  import opened Wrappers

  /** One element of the `Uint8ClampedArray` an image is decoded into. */
  type Byte = x: int | 0 <= x < 256

  /** A pixel record. Channels are plain integers; `a` is optional because
      averaged pixels carry no alpha channel at all. */
  datatype Pixel = Pixel(r: int, g: int, b: int, a: Option<int>)

  /** A grid of pixels, row-major: `m[y][x]` is the pixel in row `y`, column `x`. */
  type Grid = seq<seq<Pixel>>

  /** A pixel takes part in an average unless its alpha is exactly 0. A
      missing alpha is not 0, so such a pixel takes part too. */
  predicate Counts(p: Pixel) {
    p.a != Some(0)
  }

  /** Every channel of a pixel that takes part in averaging lies in `lo..hi`. */
  predicate ChannelsWithin(p: Pixel, lo: int, hi: int) {
    lo <= p.r <= hi && lo <= p.g <= hi && lo <= p.b <= hi
  }

  /** The same pixel with its alpha channel removed. */
  function DropAlpha(p: Pixel): Pixel {
    Pixel(p.r, p.g, p.b, None)
  }

  /** The rectangle of `bh` rows from `y` and `bw` columns from `x` lies
      inside `m`, so every cell of it can be read. */
  predicate InWindow(m: Grid, x: nat, y: nat, bw: nat, bh: nat) {
    y + bh <= |m| && forall i :: y <= i < y + bh ==> x + bw <= |m[i]|
  }

  /** `m` has exactly `h` rows of exactly `w` pixels each. */
  predicate IsGrid(m: Grid, w: nat, h: nat) {
    |m| == h && forall y :: 0 <= y < h ==> |m[y]| == w
  }
}
