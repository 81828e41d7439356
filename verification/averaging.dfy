/** The alpha-aware block average of `calcAvg` and `calcEmojiAvg`. */
module Averaging {
  import opened Wrappers
  import opened Pixels
  import opened Rounding

  /** The running totals kept by the averaging loops: how many pixels took
      part, and the sums of their red, green and blue channels. */
  datatype Tally = Tally(count: nat, sumR: int, sumG: int, sumB: int)

  /** One step of the loop body: a pixel takes part unless its alpha is 0. */
  function Include(t: Tally, p: Pixel): Tally {
    if Counts(p) then Tally(t.count + 1, t.sumR + p.r, t.sumG + p.g, t.sumB + p.b) else t
  }

  /** The totals over a sequence of pixels, visited in order. */
  function TallyOf(ps: seq<Pixel>): Tally {
    if |ps| == 0 then Tally(0, 0, 0, 0) else Include(TallyOf(ps[..|ps| - 1]), ps[|ps| - 1])
  }

  /** The cells of the window with `bh` rows from `y` and `bw` columns from
      `x`, row after row, in the order the loops visit them. */
  function WindowCells(m: Grid, x: nat, y: nat, bw: nat, bh: nat): (cells: seq<Pixel>)
    requires InWindow(m, x, y, bw, bh)
  {
    if bh == 0 then [] else WindowCells(m, x, y, bw, bh - 1) + m[y + bh - 1][x .. x + bw]
  }

  /** The averaged pixel of a tally, or `None` (the program's `NaN`) when
      no pixel took part. Each channel is its sum divided by the count and
      rounded as `Math.round` does, with the same rule for all three; the
      result has no alpha. */
  function Mean(t: Tally): (r: Option<Pixel>)
    ensures r.None? <==> t.count == 0
    ensures r.Some? ==> r.value.a == None
    ensures r.Some? ==> 2 * t.count * r.value.r <= 2 * t.sumR + t.count < 2 * t.count * (r.value.r + 1)
    ensures r.Some? ==> 2 * t.count * r.value.g <= 2 * t.sumG + t.count < 2 * t.count * (r.value.g + 1)
    ensures r.Some? ==> 2 * t.count * r.value.b <= 2 * t.sumB + t.count < 2 * t.count * (r.value.b + 1)
  {
    if t.count == 0 then None
    else
      Some(Pixel(RoundHalfUp(t.sumR, t.count), RoundHalfUp(t.sumG, t.count), RoundHalfUp(t.sumB, t.count), None))
  }

  /** The average over a `bw` by `bh` window, alpha-aware and rounded as
      `Mean` does. */
  function BlockAverage(m: Grid, x: nat, y: nat, bw: nat, bh: nat): (r: Option<Pixel>)
    requires InWindow(m, x, y, bw, bh)
    ensures r.Some? ==> r.value.a == None
  {
    Mean(TallyOf(WindowCells(m, x, y, bw, bh)))
  }

  /** A window has no average exactly when every pixel in it is fully
      transparent. */
  lemma {:induction false} BlockAverageNone(m: Grid, x: nat, y: nat, bw: nat, bh: nat)
    requires InWindow(m, x, y, bw, bh)
    ensures BlockAverage(m, x, y, bw, bh).None? <==>
              forall i, j :: y <= i < y + bh && x <= j < x + bw ==> !Counts(m[i][j])
  {
    var cells := WindowCells(m, x, y, bw, bh);
    TallyCountZero(cells);
    WindowAll(m, x, y, bw, bh, p => !Counts(p));
    assert BlockAverage(m, x, y, bw, bh) == Mean(TallyOf(cells));
  }

  /** The nested loops shared by `calcAvg` and `calcEmojiAvg`: row `i` from
      `y`, column `j` from `x`, adding every pixel whose alpha is not 0. */
  method SumWindow(m: Grid, x: nat, y: nat, bw: nat, bh: nat) returns (t: Tally)
    requires InWindow(m, x, y, bw, bh)
    ensures t == TallyOf(WindowCells(m, x, y, bw, bh))
  {
    t := Tally(0, 0, 0, 0);
    var i := y;
    while i < y + bh
      invariant y <= i <= y + bh
      invariant t == TallyOf(WindowCells(m, x, y, bw, i - y))
    {
      t := SumRow(m[i][x .. x + bw], t, WindowCells(m, x, y, bw, i - y));
      assert WindowCells(m, x, y, bw, i + 1 - y) == WindowCells(m, x, y, bw, i - y) + m[i][x .. x + bw];
      i := i + 1;
    }
  }

  /** The inner loop: adds the pixels of one row of the window, left to
      right, to the totals `t` of the pixels `seen` before it. */
  method SumRow(row: seq<Pixel>, t: Tally, ghost seen: seq<Pixel>) returns (t': Tally)
    requires t == TallyOf(seen)
    ensures t' == TallyOf(seen + row)
  {
    t' := t;
    var j := 0;
    assert seen + row[..0] == seen;
    while j < |row|
      invariant 0 <= j <= |row|
      invariant t' == TallyOf(seen + row[..j])
    {
      TallyOfSnoc(seen + row[..j], row[j]);
      assert seen + row[..j + 1] == seen + row[..j] + [row[j]];
      var p := row[j];
      if p.a != Some(0) {
        t' := Tally(t'.count + 1, t'.sumR + p.r, t'.sumG + p.g, t'.sumB + p.b);
      }
      j := j + 1;
    }
    assert row[..|row|] == row;
  }

  /** `calcAvg`: the average of the `step` by `step` block whose top-left
      pixel is `(x, y)`. */
  method CalcAvg(m: Grid, x: nat, y: nat, step: nat) returns (r: Option<Pixel>)
    requires InWindow(m, x, y, step, step)
    ensures r == BlockAverage(m, x, y, step, step)
  {
    var t := SumWindow(m, x, y, step, step);
    r := Mean(t);
  }

  /** `calcEmojiAvg`: the average over the whole `w` by `h` image. */
  method CalcEmojiAvg(m: Grid, w: nat, h: nat) returns (r: Option<Pixel>)
    requires InWindow(m, 0, 0, w, h)
    ensures r == BlockAverage(m, 0, 0, w, h)
  {
    var t := SumWindow(m, 0, 0, w, h);
    r := Mean(t);
  }

  // Facts about tallies

  /** No pixel is counted exactly when every pixel is fully transparent. */
  lemma {:induction false} TallyCountZero(ps: seq<Pixel>)
    ensures TallyOf(ps).count == 0 <==> forall k :: 0 <= k < |ps| ==> !Counts(ps[k])
  {
    if |ps| > 0 {
      var front := ps[..|ps| - 1];
      TallyCountZero(front);
      assert forall k :: 0 <= k < |front| ==> front[k] == ps[k];
    }
  }

  /** Two pixels are interchangeable for averaging: both take part or both
      are skipped, and when they take part their colours agree. The colour
      of a fully transparent pixel is irrelevant. */
  predicate Interchangeable(p: Pixel, q: Pixel) {
    Counts(p) == Counts(q) && (Counts(p) ==> p.r == q.r && p.g == q.g && p.b == q.b)
  }

  lemma {:induction false} TallyOfInterchangeable(ps: seq<Pixel>, qs: seq<Pixel>)
    requires |ps| == |qs|
    requires forall k :: 0 <= k < |ps| ==> Interchangeable(ps[k], qs[k])
    ensures TallyOf(ps) == TallyOf(qs)
  {
    if |ps| > 0 {
      var n := |ps| - 1;
      TallyOfInterchangeable(ps[..n], qs[..n]);
    }
  }

  /** Every counted pixel of `ps` has the colour `(r, g, b)` and none is
      transparent: the sums are the count times the colour. */
  lemma {:induction false} TallyOfUniform(ps: seq<Pixel>, r: int, g: int, b: int)
    requires forall k :: 0 <= k < |ps| ==> Counts(ps[k]) && ps[k].r == r && ps[k].g == g && ps[k].b == b
    ensures TallyOf(ps) == Tally(|ps|, |ps| * r, |ps| * g, |ps| * b)
  {
    if |ps| > 0 {
      var n := |ps| - 1;
      TallyOfUniform(ps[..n], r, g, b);
      assert n * r + r == |ps| * r;
      assert n * g + g == |ps| * g;
      assert n * b + b == |ps| * b;
    }
  }

  /** When the channels of every counted pixel lie in `lo..hi`, every sum
      lies between `count * lo` and `count * hi`. */
  lemma {:induction false} TallyOfWithin(ps: seq<Pixel>, lo: int, hi: int)
    requires forall k :: 0 <= k < |ps| ==> Counts(ps[k]) ==> ChannelsWithin(ps[k], lo, hi)
    ensures var t := TallyOf(ps);
      && t.count * lo <= t.sumR <= t.count * hi
      && t.count * lo <= t.sumG <= t.count * hi
      && t.count * lo <= t.sumB <= t.count * hi
  {
    if |ps| > 0 {
      var n := |ps| - 1;
      TallyOfWithin(ps[..n], lo, hi);
      var c := TallyOf(ps[..n]).count;
      assert (c + 1) * lo == c * lo + lo && (c + 1) * hi == c * hi + hi;
    }
  }

  /** When every counted pixel of `ps` has the colour `(r, g, b)`, whatever
      the colour of the skipped ones, each sum is the count times that
      colour's channel. */
  lemma {:induction false} TallyOfVisibleUniform(ps: seq<Pixel>, r: int, g: int, b: int)
    requires forall k :: 0 <= k < |ps| ==> Counts(ps[k]) ==> ps[k].r == r && ps[k].g == g && ps[k].b == b
    ensures var t := TallyOf(ps);
      t.sumR == t.count * r && t.sumG == t.count * g && t.sumB == t.count * b
  {
    if |ps| > 0 {
      var n := |ps| - 1;
      TallyOfVisibleUniform(ps[..n], r, g, b);
      var c := TallyOf(ps[..n]).count;
      assert (c + 1) * r == c * r + r && (c + 1) * g == c * g + g && (c + 1) * b == c * b + b;
    }
  }

  /** A non-empty tally whose sums are the count times `(r, g, b)` has
      exactly that colour as its mean. */
  lemma {:induction false} MeanUniform(t: Tally, r: int, g: int, b: int)
    requires t.count > 0
    requires t.sumR == t.count * r && t.sumG == t.count * g && t.sumB == t.count * b
    ensures Mean(t) == Some(Pixel(r, g, b, None))
  {
    RoundHalfUpExact(r, t.count);
    RoundHalfUpExact(g, t.count);
    RoundHalfUpExact(b, t.count);
  }

  // Facts about windows

  /** A property holds of every cell of the window, as visited, exactly
      when it holds of every cell `(i, j)` inside the window. */
  lemma {:induction false} WindowAll(m: Grid, x: nat, y: nat, bw: nat, bh: nat, P: Pixel -> bool)
    requires InWindow(m, x, y, bw, bh)
    ensures (forall k :: 0 <= k < |WindowCells(m, x, y, bw, bh)| ==> P(WindowCells(m, x, y, bw, bh)[k]))
        <==> (forall i, j :: y <= i < y + bh && x <= j < x + bw ==> P(m[i][j]))
  {
    if bh > 0 {
      WindowAll(m, x, y, bw, bh - 1, P);
      var top := WindowCells(m, x, y, bw, bh - 1);
      var row := m[y + bh - 1][x .. x + bw];
      var cells := top + row;
      assert cells == WindowCells(m, x, y, bw, bh);
      if forall k :: 0 <= k < |cells| ==> P(cells[k]) {
        assert forall k :: 0 <= k < |top| ==> P(top[k]) by {
          forall k | 0 <= k < |top| ensures P(top[k]) { assert cells[k] == top[k]; }
        }
        forall i, j | y <= i < y + bh && x <= j < x + bw
          ensures P(m[i][j])
        {
          if i == y + bh - 1 {
            assert cells[|top| + (j - x)] == m[i][j];
          }
        }
      }
      if forall i, j :: y <= i < y + bh && x <= j < x + bw ==> P(m[i][j]) {
        assert forall i, j :: y <= i < y + bh - 1 && x <= j < x + bw ==> P(m[i][j]);
        forall k | 0 <= k < |cells|
          ensures P(cells[k])
        {
          if k >= |top| {
            assert cells[k] == m[y + bh - 1][x + (k - |top|)];
          } else {
            assert cells[k] == top[k];
          }
        }
      }
    }
  }

  /** Cell by cell interchangeable windows give interchangeable cell
      sequences. */
  lemma {:induction false} WindowCellsInterchangeable(m: Grid, m': Grid, x: nat, y: nat, bw: nat, bh: nat)
    requires InWindow(m, x, y, bw, bh) && InWindow(m', x, y, bw, bh)
    requires forall i, j :: y <= i < y + bh && x <= j < x + bw ==> Interchangeable(m[i][j], m'[i][j])
    ensures |WindowCells(m, x, y, bw, bh)| == |WindowCells(m', x, y, bw, bh)|
    ensures forall k :: 0 <= k < |WindowCells(m, x, y, bw, bh)| ==>
              Interchangeable(WindowCells(m, x, y, bw, bh)[k], WindowCells(m', x, y, bw, bh)[k])
  {
    if bh > 0 {
      WindowCellsInterchangeable(m, m', x, y, bw, bh - 1);
      var top, top' := WindowCells(m, x, y, bw, bh - 1), WindowCells(m', x, y, bw, bh - 1);
      var i := y + bh - 1;
      var cells, cells' := top + m[i][x .. x + bw], top' + m'[i][x .. x + bw];
      forall k | 0 <= k < |cells|
        ensures Interchangeable(cells[k], cells'[k])
      {
        if k >= |top| {
          assert cells[k] == m[i][x + (k - |top|)];
          assert cells'[k] == m'[i][x + (k - |top|)];
        } else {
          assert cells[k] == top[k] && cells'[k] == top'[k];
        }
      }
    }
  }

  // Properties of the block average

  /** The average ignores the colour of fully transparent pixels and reads
      nothing outside its window: windows that agree, cell by cell, on
      which pixels take part and on the colour of those that do have the
      same average. */
  lemma {:induction false} BlockAverageIgnoresTransparent(m: Grid, m': Grid, x: nat, y: nat, bw: nat, bh: nat)
    requires InWindow(m, x, y, bw, bh) && InWindow(m', x, y, bw, bh)
    requires forall i, j :: y <= i < y + bh && x <= j < x + bw ==> Interchangeable(m[i][j], m'[i][j])
    ensures BlockAverage(m, x, y, bw, bh) == BlockAverage(m', x, y, bw, bh)
  {
    WindowCellsInterchangeable(m, m', x, y, bw, bh);
    TallyOfInterchangeable(WindowCells(m, x, y, bw, bh), WindowCells(m', x, y, bw, bh));
  }

  /** Repainting one fully transparent pixel, with any colour and any
      alpha-0 value, leaves the average unchanged. */
  lemma {:induction false} BlockAverageRepaintTransparent(m: Grid, x: nat, y: nat, bw: nat, bh: nat, i: nat, j: nat, p: Pixel)
    requires InWindow(m, x, y, bw, bh)
    requires i < |m| && j < |m[i]| && !Counts(m[i][j]) && !Counts(p)
    ensures InWindow(m[i := m[i][j := p]], x, y, bw, bh)
    ensures BlockAverage(m[i := m[i][j := p]], x, y, bw, bh) == BlockAverage(m, x, y, bw, bh)
  {
    var m' := m[i := m[i][j := p]];
    assert forall i', j' :: y <= i' < y + bh && x <= j' < x + bw ==> Interchangeable(m'[i'][j'], m[i'][j']);
    BlockAverageIgnoresTransparent(m', m, x, y, bw, bh);
  }

  /** A block whose pixels are all visible and all of colour `(r, g, b)`
      averages to exactly that colour. */
  lemma {:induction false} BlockAverageUniform(m: Grid, x: nat, y: nat, bw: nat, bh: nat, r: int, g: int, b: int)
    requires InWindow(m, x, y, bw, bh) && bw > 0 && bh > 0
    requires forall i, j :: y <= i < y + bh && x <= j < x + bw ==>
               Counts(m[i][j]) && m[i][j].r == r && m[i][j].g == g && m[i][j].b == b
    ensures BlockAverage(m, x, y, bw, bh) == Some(Pixel(r, g, b, None))
  {
    var cells := WindowCells(m, x, y, bw, bh);
    WindowAll(m, x, y, bw, bh, p => Counts(p) && p.r == r && p.g == g && p.b == b);
    TallyOfUniform(cells, r, g, b);
    var n := |cells|;
    // The top-left cell lies in the window and is counted, so the tally is not empty.
    assert Counts(m[y][x]);
    assert n > 0;
    RoundHalfUpExact(r, n);
    RoundHalfUpExact(g, n);
    RoundHalfUpExact(b, n);
  }

  /** A one-pixel block of a visible pixel averages to that pixel without
      its alpha channel. */
  lemma {:induction false} BlockAverageSingle(m: Grid, x: nat, y: nat)
    requires InWindow(m, x, y, 1, 1) && Counts(m[y][x])
    ensures BlockAverage(m, x, y, 1, 1) == Some(DropAlpha(m[y][x]))
  {
    var p := m[y][x];
    BlockAverageUniform(m, x, y, 1, 1, p.r, p.g, p.b);
  }

  /** If every visible pixel of the block has its channels in `lo..hi`,
      so has the average; with bytes, the average is a byte colour. */
  lemma {:induction false} BlockAverageWithin(m: Grid, x: nat, y: nat, bw: nat, bh: nat, lo: int, hi: int)
    requires InWindow(m, x, y, bw, bh)
    requires forall i, j :: y <= i < y + bh && x <= j < x + bw ==> Counts(m[i][j]) ==> ChannelsWithin(m[i][j], lo, hi)
    ensures BlockAverage(m, x, y, bw, bh).Some? ==> ChannelsWithin(BlockAverage(m, x, y, bw, bh).value, lo, hi)
  {
    var cells := WindowCells(m, x, y, bw, bh);
    var inRange := (p: Pixel) => Counts(p) ==> ChannelsWithin(p, lo, hi);
    WindowAll(m, x, y, bw, bh, inRange);
    assert forall k :: 0 <= k < |cells| ==> inRange(cells[k]);
    TallyOfWithin(cells, lo, hi);
    MeanWithin(TallyOf(cells), lo, hi);
  }

  /** The mean of sums that lie between `count * lo` and `count * hi` has
      its channels in `lo..hi`. */
  lemma {:induction false} MeanWithin(t: Tally, lo: int, hi: int)
    requires t.count * lo <= t.sumR <= t.count * hi
    requires t.count * lo <= t.sumG <= t.count * hi
    requires t.count * lo <= t.sumB <= t.count * hi
    ensures Mean(t).Some? ==> ChannelsWithin(Mean(t).value, lo, hi)
  {
    if t.count > 0 {
      RoundHalfUpWithin(t.sumR, t.count, lo, hi);
      RoundHalfUpWithin(t.sumG, t.count, lo, hi);
      RoundHalfUpWithin(t.sumB, t.count, lo, hi);
    }
  }

  /** Black and white in a checkerboard average to 127.5 in every
      channel, which rounds up to 128. */
  lemma {:induction false} BlockAverageCheckerboard()
    ensures var black, white := Pixel(0, 0, 0, Some(255)), Pixel(255, 255, 255, Some(255));
      BlockAverage([[black, white], [white, black]], 0, 0, 2, 2) == Some(Pixel(128, 128, 128, None))
  {
    var black, white := Pixel(0, 0, 0, Some(255)), Pixel(255, 255, 255, Some(255));
    var m := [[black, white], [white, black]];
    assert WindowCells(m, 0, 0, 2, 1) == [black, white];
    assert WindowCells(m, 0, 0, 2, 2) == [black, white, white, black];
    CheckerboardTally(black, white);
    RoundHalfUpHalves();
  }

  lemma {:induction false} CheckerboardTally(black: Pixel, white: Pixel)
    requires black == Pixel(0, 0, 0, Some(255)) && white == Pixel(255, 255, 255, Some(255))
    ensures TallyOf([black, white, white, black]) == Tally(4, 510, 510, 510)
  {
    TallyOfSnoc([], black);
    assert [] + [black] == [black];
    TallyOfSnoc([black], white);
    assert [black] + [white] == [black, white];
    TallyOfSnoc([black, white], white);
    assert [black, white] + [white] == [black, white, white];
    TallyOfSnoc([black, white, white], black);
    assert [black, white, white] + [black] == [black, white, white, black];
  }

  /** Visiting one more pixel adds it to the totals. */
  lemma {:induction false} TallyOfSnoc(ps: seq<Pixel>, p: Pixel)
    ensures TallyOf(ps + [p]) == Include(TallyOf(ps), p)
  {
    assert (ps + [p])[..|ps|] == ps;
  }

  /** One visible pixel `(10, 20, 30)` among three fully transparent ones,
      each of any colour, averages to that pixel. */
  lemma {:induction false} BlockAverageOneVisible(h1: Pixel, h2: Pixel, h3: Pixel)
    requires !Counts(h1) && !Counts(h2) && !Counts(h3)
    ensures var seen := Pixel(10, 20, 30, Some(255));
      BlockAverage([[seen, h1], [h2, h3]], 0, 0, 2, 2) == Some(Pixel(10, 20, 30, None))
  {
    var seen, hidden := Pixel(10, 20, 30, Some(255)), Pixel(0, 0, 0, Some(0));
    var m, m' := [[seen, h1], [h2, h3]], [[seen, hidden], [hidden, hidden]];
    assert forall i, j :: 0 <= i < 2 && 0 <= j < 2 ==> Interchangeable(m[i][j], m'[i][j]);
    BlockAverageIgnoresTransparent(m, m', 0, 0, 2, 2);
    assert WindowCells(m', 0, 0, 2, 1) == [seen, hidden];
    assert WindowCells(m', 0, 0, 2, 2) == [seen, hidden, hidden, hidden];
    TallyOfSnoc([], seen);
    assert [] + [seen] == [seen];
    TallyOfSnoc([seen], hidden);
    assert [seen] + [hidden] == [seen, hidden];
    TallyOfSnoc([seen, hidden], hidden);
    assert [seen, hidden] + [hidden] == [seen, hidden, hidden];
    TallyOfSnoc([seen, hidden, hidden], hidden);
    assert [seen, hidden, hidden] + [hidden] == [seen, hidden, hidden, hidden];
    RoundHalfUpExact(10, 1);
    RoundHalfUpExact(20, 1);
    RoundHalfUpExact(30, 1);
  }
}
