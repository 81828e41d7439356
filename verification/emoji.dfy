/** The palette side: one average colour per emoji image
    (`createEmojiDataList`, `calcEmojiAvg`) and the name index
    (`createEmojiDict`). */
module Emoji {
  import opened Wrappers
  import opened Pixels
  import opened PixelGrid
  import opened Averaging

  /** A palette entry: an emoji's name and its average colour. */
  datatype EmojiData = EmojiData(name: string, r: int, g: int, b: int)

  /** A decoded image: its size and the canvas's RGBA bytes, row-major. */
  datatype Image = Image(width: nat, height: nat, data: seq<Byte>)

  /** Reading a whole `w`-wide grid window by window visits its cells in
      the same order as flattening it. */
  lemma {:induction false} WindowCellsWhole(m: Grid, w: nat, k: nat)
    requires k <= |m| && forall y :: 0 <= y < |m| ==> |m[y]| == w
    ensures InWindow(m, 0, 0, w, k)
    ensures WindowCells(m, 0, 0, w, k) == Flatten(m[..k])
  {
    if k > 0 {
      WindowCellsWhole(m, w, k - 1);
      assert m[..k][..k - 1] == m[..k - 1];
      assert m[k - 1][0 .. w] == m[k - 1];
    }
  }

  /** The whole-image window of a reshaped grid visits exactly the pixels
      that were used, in order. */
  lemma {:induction false} WholeWindow(pixels: seq<Pixel>, w: nat, h: nat)
    requires w * h <= |pixels|
    ensures InWindow(MapToMatrix(pixels, w, h).value, 0, 0, w, h)
    ensures WindowCells(MapToMatrix(pixels, w, h).value, 0, 0, w, h) == pixels[..w * h]
  {
    var m := MapToMatrix(pixels, w, h).value;
    WindowCellsWhole(m, w, h);
    assert m[..h] == m;
  }

  /** Some pixel among the first `n` of a buffer is visible exactly when
      the tally of those pixels counts one. */
  lemma {:induction false} VisiblePixel(data: seq<Byte>, n: nat)
    requires n <= |data| / 4
    ensures (exists k :: 0 <= k < n && data[4 * k + 3] != 0) <==> TallyOf(MapToPixels(data)[..n]).count > 0
  {
    var cells := MapToPixels(data)[..n];
    TallyCountZero(cells);
    forall k | 0 <= k < n
      ensures 4 * k + 3 < |data| && (Counts(cells[k]) <==> data[4 * k + 3] != 0)
    {
      assert cells[k] == MapToPixels(data)[k];
    }
  }

  /** The per-image step of `createEmojiDataList`: bytes to pixels, pixels
      to a `width` by `height` grid, the whole-image average, tagged with
      the name. There is no entry when the image holds fewer than
      `width * height` pixels or when every one of them is fully
      transparent. For such an all-transparent image the program still
      builds an entry, with `NaN` channels; here it is `None`. Otherwise the entry has the given name, and its colour
      is the rounded mean of the first `width * height` pixels of the
      buffer that take part, a byte colour. */
  function EmojiDataOf(name: string, img: Image): (e: Option<EmojiData>)
    ensures e.Some? <==>
              && img.width * img.height <= |img.data| / 4
              && exists k :: 0 <= k < img.width * img.height && img.data[4 * k + 3] != 0
    ensures e.Some? ==> e.value.name == name
    ensures e.Some? ==>
              Mean(TallyOf(MapToPixels(img.data)[..img.width * img.height]))
                == Some(Pixel(e.value.r, e.value.g, e.value.b, None))
    ensures e.Some? ==> 0 <= e.value.r < 256 && 0 <= e.value.g < 256 && 0 <= e.value.b < 256
  {
    var w, h := img.width, img.height;
    var pixels := MapToPixels(img.data);
    match MapToMatrix(pixels, w, h)
    case None => None
    case Some(m) =>
      WholeWindow(pixels, w, h);
      ToBytesOfMapToPixels(img.data);
      VisiblePixel(img.data, w * h);
      ByteChannels(m, w, h, pixels);
      BlockAverageWithin(m, 0, 0, w, h, 0, 255);
      BlockAverageNone(m, 0, 0, w, h);
      match BlockAverage(m, 0, 0, w, h)
      case None => None
      case Some(p) => Some(EmojiData(name, p.r, p.g, p.b))
  }

  /** An image whose visible pixels all have the colour `(r, g, b)`, one of
      them at least, gets an entry of exactly that colour, whatever the
      colour of its fully transparent pixels. */
  lemma {:induction false} EmojiDataUniform(name: string, img: Image, r: int, g: int, b: int)
    requires img.width * img.height <= |img.data| / 4
    requires exists k :: 0 <= k < img.width * img.height && img.data[4 * k + 3] != 0
    requires forall k :: 0 <= k < img.width * img.height && img.data[4 * k + 3] != 0 ==>
               img.data[4 * k] == r && img.data[4 * k + 1] == g && img.data[4 * k + 2] == b
    ensures EmojiDataOf(name, img) == Some(EmojiData(name, r, g, b))
  {
    var n := img.width * img.height;
    var cells := MapToPixels(img.data)[..n];
    forall k | 0 <= k < n
      ensures Counts(cells[k]) ==> cells[k].r == r && cells[k].g == g && cells[k].b == b
    {
      assert cells[k] == MapToPixels(img.data)[k];
    }
    TallyOfVisibleUniform(cells, r, g, b);
    VisiblePixel(img.data, n);
    MeanUniform(TallyOf(cells), r, g, b);
  }

  /** Every pixel of a grid built from bytes has byte channels. */
  lemma {:induction false} ByteChannels(m: Grid, w: nat, h: nat, pixels: seq<Pixel>)
    requires forall k :: 0 <= k < |pixels| ==> IsBytePixel(pixels[k])
    requires w * h <= |pixels|
    requires InWindow(m, 0, 0, w, h) && WindowCells(m, 0, 0, w, h) == pixels[..w * h]
    ensures forall i, j :: 0 <= i < h && 0 <= j < w ==> Counts(m[i][j]) ==> ChannelsWithin(m[i][j], 0, 255)
  {
    var cells := WindowCells(m, 0, 0, w, h);
    assert forall k :: 0 <= k < |cells| ==> cells[k] == pixels[k] && IsBytePixel(cells[k]);
    WindowAll(m, 0, 0, w, h, p => Counts(p) ==> ChannelsWithin(p, 0, 255));
  }

  /** The entry with index `i` is the last one in the list with its name. */
  predicate LastWithName(data: seq<EmojiData>, i: nat)
    requires i < |data|
  {
    forall j :: i < j < |data| ==> data[j].name != data[i].name
  }

  /** `createEmojiDict`: the entries indexed by name, assigned in list
      order. The keys are exactly the names in the list, every entry sits
      under its own name, and when a name repeats the last entry with that
      name wins. */
  function EmojiDict(data: seq<EmojiData>): (d: map<string, EmojiData>)
    ensures d.Keys == set i | 0 <= i < |data| :: data[i].name
    ensures forall k :: k in d ==> d[k].name == k
  {
    if |data| == 0 then map[]
    else
      var n := |data| - 1;
      var front := data[..n];
      assert (set i | 0 <= i < |data| :: data[i].name) == (set i | 0 <= i < n :: front[i].name) + {data[n].name};
      EmojiDict(front)[data[n].name := data[n]]
  }

  /** When a name repeats, the entry stored under it is the last one in
      the list with that name. */
  lemma {:induction false} EmojiDictLastWins(data: seq<EmojiData>, i: nat)
    requires i < |data| && LastWithName(data, i)
    ensures data[i].name in EmojiDict(data) && EmojiDict(data)[data[i].name] == data[i]
  {
    var n := |data| - 1;
    if i < n {
      var front := data[..n];
      assert data[n].name != data[i].name;
      assert front[i] == data[i];
      assert LastWithName(front, i) by {
        forall j | i < j < |front| ensures front[j].name != front[i].name {
          assert front[j] == data[j];
        }
      }
      EmojiDictLastWins(front, i);
    }
  }
}
