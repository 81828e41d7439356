/** Tiling a pixel grid into blocks and averaging each block
    (`createMosaicPixel`). */
module Mosaic {
  import opened Wrappers
  import opened Pixels
  import opened Arith
  import opened Averaging

  /** One averaged pixel per block; `None` marks a fully transparent block,
      whose colour the program would compute as `NaN`. */
  type MosaicGrid = seq<seq<Option<Pixel>>>

  /** Shrinking a window keeps it inside the grid. */
  lemma {:induction false} InWindowShrink(m: Grid, x: nat, y: nat, bw: nat, bh: nat, x': nat, y': nat, bw': nat, bh': nat)
    requires InWindow(m, x, y, bw, bh)
    requires x <= x' && x' + bw' <= x + bw && y <= y' && y' + bh' <= y + bh
    ensures InWindow(m, x', y', bw', bh')
  {}

  /** The number of cells, out of `n`, covered by whole blocks of size
      `step` laid end to end from the first cell. */
  function Span(n: nat, step: nat): (s: nat)
    requires step > 0
    ensures s <= n
    decreases n
  {
    if n < step then 0 else step + Span(n - step, step)
  }

  /** The whole blocks of `n` cells cover `n / step * step` cells. */
  lemma {:induction false} SpanWhole(n: nat, step: nat)
    requires step > 0
    ensures Span(n, step) == n / step * step
    decreases n
  {
    if n >= step {
      SpanWhole(n - step, step);
      DivSub(n, step);
      MulSucc(n / step - 1, step);
    } else {
      DivSmall(n, step);
    }
  }

  /** Blocks of one cell cover every cell. */
  lemma {:induction false} SpanUnit(n: nat)
    ensures Span(n, 1) == n
  {
    if n > 0 {
      SpanUnit(n - 1);
    }
  }

  /** Laying one more whole block on the covered span. */
  lemma {:induction false} SpanNext(n: nat, step: nat)
    requires step > 0 && n >= step
    ensures Span(n, step) == step + Span(n - step, step)
  {}

  /** The whole blocks of `n` cells end where block `n / step` would start. */
  lemma {:induction false} SpanBlocks(n: nat, step: nat)
    requires step > 0
    ensures Span(n, step) == BlockStart(n / step, step)
  {
    SpanWhole(n, step);
    BlockStartProduct(n / step, step);
  }

  /** The values `f(0), f(step), f(2 * step), …` of the blocks that end at
      or before `x`, in order: the shape of both loops of
      `createMosaicPixel`, which push one value per whole block. */
  function Tiles<T>(f: nat -> T, step: nat, x: nat): seq<T>
    requires step > 0
    decreases x
  {
    if x < step then [] else Tiles(f, step, x - step) + [f(x - step)]
  }

  /** The first `k` blocks give `k` values. */
  lemma {:induction false} TilesLength<T>(f: nat -> T, step: nat, k: nat)
    requires step > 0
    ensures |Tiles(f, step, BlockStart(k, step))| == k
  {
    if k > 0 {
      assert BlockStart(k, step) == BlockStart(k - 1, step) + step;
      TilesLength(f, step, k - 1);
    }
  }

  /** Among the first `k` blocks, value `c` belongs to block `c`. */
  lemma {:induction false} TilesCell<T>(f: nat -> T, step: nat, k: nat, c: nat)
    requires step > 0 && c < k
    ensures c < |Tiles(f, step, BlockStart(k, step))|
    ensures Tiles(f, step, BlockStart(k, step))[c] == f(BlockStart(c, step))
  {
    var x := BlockStart(k - 1, step);
    assert BlockStart(k, step) == x + step;
    TilesLength(f, step, k - 1);
    if c < k - 1 {
      TilesCell(f, step, k - 1, c);
    }
  }

  /** The average of the `step × step` block whose top-left pixel is
      `(x, y)`. A block that leaves the grid has none; the tiling never asks
      for one, since the grid holds every whole block. */
  function BlockAt(m: Grid, y: nat, step: nat, x: nat): Option<Pixel> {
    if InWindow(m, x, y, step, step) then BlockAverage(m, x, y, step, step) else None
  }

  /** The blocks of the block row whose top edge is row `y`, by left edge. */
  function BlocksOfRow(m: Grid, y: nat, step: nat): nat -> Option<Pixel> {
    (x: nat) => BlockAt(m, y, step, x)
  }

  /** The averages of the blocks of the block row whose top edge is row `y`,
      left to right, for the blocks that end at or before column `x`. */
  function MosaicRow(m: Grid, y: nat, step: nat, x: nat): seq<Option<Pixel>>
    requires step > 0
  {
    Tiles(BlocksOfRow(m, y, step), step, x)
  }

  /** The block rows by top edge, each cut at the last whole block before
      column `w`. */
  function RowsOf(m: Grid, step: nat, w: nat): nat -> seq<Option<Pixel>>
    requires step > 0
  {
    (y: nat) => MosaicRow(m, y, step, Span(w, step))
  }

  /** The block rows, top to bottom, that end at or before row `y`. */
  function MosaicRows(m: Grid, step: nat, w: nat, y: nat): MosaicGrid
    requires step > 0
  {
    Tiles(RowsOf(m, step, w), step, y)
  }

  /** `createMosaicPixel`: block origins at multiples of `step`, as many
      whole blocks as fit; trailing partial blocks at the right and bottom
      edges are dropped. Only the cells of whole blocks are read, so the
      grid must hold those. There is one block row per whole block that
      fits in the height; `MosaicShape` and `MosaicCell` state the rest. */
  function Mosaic(m: Grid, w: nat, h: nat, step: nat): (t: MosaicGrid)
    requires step > 0 && InWindow(m, 0, 0, Span(w, step), Span(h, step))
    ensures |t| == h / step
  {
    SpanBlocks(h, step);
    TilesLength(RowsOf(m, step, w), step, h / step);
    MosaicRows(m, step, w, Span(h, step))
  }

  /** Row `r` of the mosaic has `w / step` cells. */
  lemma {:induction false} MosaicRowWidth(m: Grid, w: nat, h: nat, step: nat, r: nat)
    requires step > 0 && InWindow(m, 0, 0, Span(w, step), Span(h, step)) && r < h / step
    ensures r < |Mosaic(m, w, h, step)| && |Mosaic(m, w, h, step)[r]| == w / step
  {
    SpanBlocks(w, step);
    SpanBlocks(h, step);
    TilesCell(RowsOf(m, step, w), step, h / step, r);
    TilesLength(BlocksOfRow(m, BlockStart(r, step), step), step, w / step);
  }

  /** The mosaic has `h / step` rows of `w / step` cells. */
  lemma {:induction false} MosaicShape(m: Grid, w: nat, h: nat, step: nat)
    requires step > 0 && InWindow(m, 0, 0, Span(w, step), Span(h, step))
    ensures |Mosaic(m, w, h, step)| == h / step
    ensures forall r :: 0 <= r < h / step ==> |Mosaic(m, w, h, step)[r]| == w / step
  {
    SpanBlocks(h, step);
    TilesLength(RowsOf(m, step, w), step, h / step);
    forall r | 0 <= r < h / step
      ensures |Mosaic(m, w, h, step)[r]| == w / step
    {
      MosaicRowWidth(m, w, h, step, r);
    }
  }

  /** Cell `(r, c)` of the mosaic is the average of the whole block whose
      top-left pixel is `(c * step, r * step)`, which lies inside the
      `w × h` image and the grid. */
  lemma {:induction false} MosaicCell(m: Grid, w: nat, h: nat, step: nat, r: nat, c: nat)
    requires step > 0 && InWindow(m, 0, 0, Span(w, step), Span(h, step))
    requires r < h / step && c < w / step
    ensures c * step + step <= w && r * step + step <= h
    ensures InWindow(m, c * step, r * step, step, step)
    ensures r < |Mosaic(m, w, h, step)| && c < |Mosaic(m, w, h, step)[r]|
    ensures Mosaic(m, w, h, step)[r][c] == BlockAverage(m, c * step, r * step, step, step)
  {
    var x, y := BlockStart(c, step), BlockStart(r, step);
    SpanBlocks(w, step);
    SpanBlocks(h, step);
    BlockStartBefore(c, w / step, step);
    BlockStartBefore(r, h / step, step);
    InWindowShrink(m, 0, 0, Span(w, step), Span(h, step), x, y, step, step);
    TilesCell(RowsOf(m, step, w), step, h / step, r);
    TilesCell(BlocksOfRow(m, y, step), step, w / step, c);
    BlockStartProduct(c, step);
    BlockStartProduct(r, step);
  }

  /** The inner loop of `createMosaicPixel` for the block row whose top
      edge is row `y`: `x` from 0 while `x <= w - step`, stepping by `step`,
      pushing one `calcAvg` result per block. */
  method MosaicLine(m: Grid, y: nat, w: nat, step: nat) returns (line: seq<Option<Pixel>>)
    requires step > 0 && InWindow(m, 0, y, Span(w, step), step)
    ensures line == MosaicRow(m, y, step, Span(w, step))
  {
    line := [];
    var x := 0;
    while x <= w - step
      invariant x <= w && x + Span(w - x, step) == Span(w, step)
      invariant line == MosaicRow(m, y, step, x)
      decreases w - x
    {
      SpanNext(w - x, step);
      InWindowShrink(m, 0, y, Span(w, step), step, x, y, step, step);
      var p := CalcAvg(m, x, y, step);
      line := line + [p];
      x := x + step;
    }
  }

  /** The loops of `createMosaicPixel`: `y` from 0 while `y <= h - step`,
      stepping by `step`, pushing one line of averaged blocks per step. */
  method CreateMosaicPixel(m: Grid, w: nat, h: nat, step: nat) returns (mosaic: MosaicGrid)
    requires step > 0 && InWindow(m, 0, 0, Span(w, step), Span(h, step))
    ensures mosaic == Mosaic(m, w, h, step)
  {
    mosaic := [];
    var y := 0;
    while y <= h - step
      invariant y <= h && y + Span(h - y, step) == Span(h, step)
      invariant mosaic == MosaicRows(m, step, w, y)
      decreases h - y
    {
      SpanNext(h - y, step);
      InWindowShrink(m, 0, 0, Span(w, step), Span(h, step), 0, y, Span(w, step), step);
      var line := MosaicLine(m, y, w, step);
      mosaic := mosaic + [line];
      y := y + step;
    }
  }

  /** With blocks of one pixel, the cell of an opaque pixel is that pixel
      with its alpha channel dropped. */
  lemma {:induction false} MosaicUnitCell(m: Grid, w: nat, h: nat, y: nat, x: nat)
    requires IsGrid(m, w, h) && y < h && x < w && Counts(m[y][x])
    ensures InWindow(m, 0, 0, Span(w, 1), Span(h, 1))
    ensures y < |Mosaic(m, w, h, 1)| && x < |Mosaic(m, w, h, 1)[y]|
    ensures Mosaic(m, w, h, 1)[y][x] == Some(DropAlpha(m[y][x]))
  {
    SpanUnit(w);
    SpanUnit(h);
    assert w / 1 == w && h / 1 == h;
    MosaicCell(m, w, h, 1, y, x);
    assert x * 1 == x && y * 1 == y;
    BlockAverageSingle(m, x, y);
  }

  /** With blocks of one pixel and no fully transparent pixel, the mosaic is
      the grid itself with the alpha channel dropped. */
  lemma {:induction false} MosaicUnitStep(m: Grid, w: nat, h: nat)
    requires IsGrid(m, w, h)
    requires forall y, x :: 0 <= y < h && 0 <= x < w ==> Counts(m[y][x])
    ensures InWindow(m, 0, 0, Span(w, 1), Span(h, 1))
    ensures |Mosaic(m, w, h, 1)| == h
    ensures forall y :: 0 <= y < h ==> |Mosaic(m, w, h, 1)[y]| == w
    ensures forall y, x :: 0 <= y < h && 0 <= x < w ==> Mosaic(m, w, h, 1)[y][x] == Some(DropAlpha(m[y][x]))
  {
    SpanUnit(w);
    SpanUnit(h);
    assert w / 1 == w && h / 1 == h;
    MosaicShape(m, w, h, 1);
    forall y, x | 0 <= y < h && 0 <= x < w
      ensures Mosaic(m, w, h, 1)[y][x] == Some(DropAlpha(m[y][x]))
    {
      MosaicUnitCell(m, w, h, y, x);
    }
  }
}
