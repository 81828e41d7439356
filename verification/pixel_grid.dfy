/** Building a pixel grid from the flat RGBA bytes of a decoded image
    (`mapToPixes` and `mapToMatrix`). */
module PixelGrid {
  import opened Wrappers
  import opened Pixels
  import opened Arith

  /** The pixel stored at byte offset `i`: red, green, blue and alpha in
      that order. */
  function PixelAt(data: seq<Byte>, i: nat): Pixel
    requires i + 4 <= |data|
  {
    Pixel(data[i], data[i + 1], data[i + 2], Some(data[i + 3]))
  }

  /** Four bytes per pixel, in order; 1 to 3 trailing bytes make no pixel. */
  function MapToPixels(data: seq<Byte>): (ps: seq<Pixel>)
    ensures |ps| == |data| / 4
    ensures forall k :: 0 <= k < |ps| ==>
              ps[k] == Pixel(data[4 * k], data[4 * k + 1], data[4 * k + 2], Some(data[4 * k + 3]))
    decreases |data|
  {
    if |data| < 4 then [] else [PixelAt(data, 0)] + MapToPixels(data[4..])
  }

  /** The loop of `mapToPixes`: `i` runs over 0, 4, 8, ... while
      `i <= data.length - 4`, pushing one pixel per step. */
  method MapToPixelsLoop(data: seq<Byte>) returns (ps: seq<Pixel>)
    ensures ps == MapToPixels(data)
  {
    ps := [];
    var i := 0;
    while i <= |data| - 4
      invariant 0 <= i <= |data| && i % 4 == 0
      invariant |ps| == i / 4
      invariant forall k :: 0 <= k < |ps| ==> ps[k] == PixelAt(data, 4 * k)
    {
      ps := ps + [PixelAt(data, i)];
      i := i + 4;
    }
  }

  /** A pixel that could have come out of an RGBA byte buffer. */
  predicate IsBytePixel(p: Pixel) {
    && 0 <= p.r < 256 && 0 <= p.g < 256 && 0 <= p.b < 256
    && p.a.Some? && 0 <= p.a.value < 256
  }

  /** The RGBA bytes of a sequence of pixels: the buffer a canvas holds. */
  function ToBytes(ps: seq<Pixel>): (data: seq<Byte>)
    requires forall k :: 0 <= k < |ps| ==> IsBytePixel(ps[k])
    ensures |data| == 4 * |ps|
  {
    if |ps| == 0 then []
    else
      var p := ps[0];
      assert IsBytePixel(p);
      [p.r as Byte, p.g as Byte, p.b as Byte, p.a.value as Byte] + ToBytes(ps[1..])
  }

  /** Splitting the bytes of a pixel sequence gives the pixels back. */
  lemma {:induction false} MapToPixelsOfToBytes(ps: seq<Pixel>)
    requires forall k :: 0 <= k < |ps| ==> IsBytePixel(ps[k])
    ensures MapToPixels(ToBytes(ps)) == ps
  {
    if |ps| > 0 {
      var data := ToBytes(ps);
      assert data[4..] == ToBytes(ps[1..]);
      MapToPixelsOfToBytes(ps[1..]);
    }
  }

  /** Re-encoding the pixels of a buffer gives back the buffer without its
      trailing partial pixel. */
  lemma {:induction false} ToBytesOfMapToPixels(data: seq<Byte>)
    ensures forall k :: 0 <= k < |MapToPixels(data)| ==> IsBytePixel(MapToPixels(data)[k])
    ensures ToBytes(MapToPixels(data)) == data[..|data| / 4 * 4]
    decreases |data|
  {
    if |data| >= 4 {
      ToBytesOfMapToPixels(data[4..]);
      assert MapToPixels(data)[1..] == MapToPixels(data[4..]);
      assert data[..|data| / 4 * 4] == data[..4] + data[4..][..|data[4..]| / 4 * 4];
    }
  }

  /** The first `h` rows of `w` pixels each, cut from `pixels` in order;
      row `y` starts at pixel `BlockStart(y, w)`, that is `y * w`. */
  function Rows(pixels: seq<Pixel>, w: nat, h: nat): (m: Grid)
    requires BlockStart(h, w) <= |pixels|
    ensures IsGrid(m, w, h)
  {
    if h == 0 then []
    else Rows(pixels, w, h - 1) + [pixels[BlockStart(h - 1, w) .. BlockStart(h, w)]]
  }

  /** Cell `(y, x)` of the reshaped grid is the pixel `x` places after the
      start of row `y`. */
  lemma {:induction false} RowsCell(pixels: seq<Pixel>, w: nat, h: nat, y: nat, x: nat)
    requires BlockStart(h, w) <= |pixels| && y < h && x < w
    ensures BlockStart(y, w) + x < |pixels| && Rows(pixels, w, h)[y][x] == pixels[BlockStart(y, w) + x]
  {
    BlockStartBefore(y, h, w);
    if y < h - 1 {
      RowsCell(pixels, w, h - 1, y, x);
    }
  }

  /** `mapToMatrix`: `h` rows of `w` pixels, read in order from `pixels`.
      When fewer than `w * h` pixels are supplied, the program fills the
      missing cells with `undefined`, which fails as soon as the cell is
      averaged; here that grid is `None`. Pixels past `w * h` are unused. */
  function MapToMatrix(pixels: seq<Pixel>, w: nat, h: nat): (r: Option<Grid>)
    ensures r.Some? <==> w * h <= |pixels|
    ensures r.Some? ==> IsGrid(r.value, w, h) && Flatten(r.value) == pixels[..w * h]
  {
    BlockStartProduct(h, w);
    if |pixels| < w * h then None
    else
      FlattenRows(pixels, w, h);
      Some(Rows(pixels, w, h))
  }

  /** Cell `(y, x)` of the grid is pixel `y * w + x`. */
  lemma {:induction false} MapToMatrixAt(pixels: seq<Pixel>, w: nat, h: nat, y: nat, x: nat)
    requires w * h <= |pixels| && y < h && x < w
    ensures y * w + x < |pixels| && MapToMatrix(pixels, w, h).value[y][x] == pixels[y * w + x]
  {
    BlockStartProduct(h, w);
    BlockStartProduct(y, w);
    RowsCell(pixels, w, h, y, x);
  }

  /** The loops of `mapToMatrix`, with the running index `i` that counts
      cells read so far. Reading past the end of `pixels` ends with `None`. */
  method MapToMatrixLoop(pixels: seq<Pixel>, w: nat, h: nat) returns (r: Option<Grid>)
    ensures r == MapToMatrix(pixels, w, h)
  {
    BlockStartProduct(h, w);
    var matrix: Grid := [];
    var i := 0;
    var y := 0;
    while y < h
      invariant 0 <= y <= h
      invariant i == BlockStart(y, w) && i <= |pixels|
      invariant matrix == Rows(pixels, w, y)
    {
      var line := ReadRow(pixels, i, w);
      if line.None? {
        BlockStartBefore(y, h, w);
        return None;
      }
      matrix := matrix + [line.value];
      i := i + w;
      y := y + 1;
    }
    r := Some(matrix);
  }

  /** The inner loop of `mapToMatrix`: the `w` pixels from index `i` on,
      or `None` when that runs past the end of `pixels`. */
  method ReadRow(pixels: seq<Pixel>, i: nat, w: nat) returns (line: Option<seq<Pixel>>)
    requires i <= |pixels|
    ensures line.Some? <==> i + w <= |pixels|
    ensures line.Some? ==> line.value == pixels[i .. i + w]
  {
    var row: seq<Pixel> := [];
    var x := 0;
    while x < w
      invariant 0 <= x <= w && i + x <= |pixels|
      invariant row == pixels[i .. i + x]
    {
      if i + x >= |pixels| {
        return None;
      }
      row := row + [pixels[i + x]];
      x := x + 1;
    }
    line := Some(row);
  }

  /** The cells of a grid, row after row. */
  function Flatten(m: Grid): (cells: seq<Pixel>)
  {
    if |m| == 0 then [] else Flatten(m[..|m| - 1]) + m[|m| - 1]
  }

  /** Reshaping and then flattening gives back the pixels that were used. */
  lemma {:induction false} FlattenRows(pixels: seq<Pixel>, w: nat, h: nat)
    requires BlockStart(h, w) <= |pixels|
    ensures Flatten(Rows(pixels, w, h)) == pixels[..BlockStart(h, w)]
  {
    if h > 0 {
      var m := Rows(pixels, w, h);
      var s, e := BlockStart(h - 1, w), BlockStart(h, w);
      assert m[..h - 1] == Rows(pixels, w, h - 1);
      FlattenRows(pixels, w, h - 1);
      assert pixels[..e] == pixels[..s] + pixels[s .. e];
    }
  }

  /** A `w`-wide grid of height `h` has `BlockStart(h, w)`, that is `w * h`,
      cells. */
  lemma {:induction false} FlattenLength(m: Grid, w: nat, h: nat)
    requires IsGrid(m, w, h)
    ensures |Flatten(m)| == BlockStart(h, w)
  {
    if h > 0 {
      FlattenLength(m[..h - 1], w, h - 1);
    }
  }

  /** In the flattened cells of a `w`-wide grid, cell `(y, x)` sits `x`
      places after the start of row `y`. */
  lemma {:induction false} FlattenCell(m: Grid, w: nat, h: nat, y: nat, x: nat)
    requires IsGrid(m, w, h) && y < h && x < w
    ensures BlockStart(y, w) + x < |Flatten(m)| && Flatten(m)[BlockStart(y, w) + x] == m[y][x]
  {
    var top := m[..h - 1];
    FlattenLength(top, w, h - 1);
    FlattenLength(m, w, h);
    assert Flatten(m) == Flatten(top) + m[h - 1];
    if y < h - 1 {
      BlockStartBefore(y, h - 1, w);
      FlattenCell(top, w, h - 1, y, x);
      assert top[y] == m[y];
    }
  }

  /** Flattening a `w`-wide grid of height `h` and reshaping it again gives
      back the grid. */
  lemma {:induction false} MapToMatrixOfFlatten(m: Grid, w: nat, h: nat)
    requires IsGrid(m, w, h)
    ensures MapToMatrix(Flatten(m), w, h) == Some(m)
  {
    FlattenLength(m, w, h);
    BlockStartProduct(h, w);
    var cells := Flatten(m);
    var g := Rows(cells, w, h);
    forall y | 0 <= y < h
      ensures g[y] == m[y]
    {
      forall x | 0 <= x < w
        ensures g[y][x] == m[y][x]
      {
        FlattenCell(m, w, h, y, x);
        RowsCell(cells, w, h, y, x);
      }
    }
    assert g == m;
  }
}
