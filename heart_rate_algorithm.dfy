/**
 * The signal-accumulation part of the rPPG pipeline: read a packed BGRA frame into a grid
 * of (R, G, B) pixels, average each channel over the grid, push the average onto the
 * window set, and select the green channel of the newest window.
 */
module HeartRateAlgorithm {
  import opened Wrappers
  import opened BgraFrame
  import opened MatrixSums
  import opened WindowSet

  /** One frame average: the mean red, green and blue values, in that order. */
  type Sample = seq<real>

  /** (x, y) is a pixel of a `width` by `height` image. */
  predicate IsPixel(x: int, y: int, width: int, height: int)
  {
    0 <= x < width && 0 <= y < height
  }

  /** Index (i, j) lies inside a grid of `rows` rows and `cols` columns. */
  predicate InGrid(i: int, j: int, rows: int, cols: int)
  {
    0 <= i < rows && 0 <= j < cols
  }

  /**
   * `extractRGB` stores pixel (x, y) at `frameRGB[x][y]` of a grid with `height` rows and
   * `width` columns, so its writes are in bounds only for square frames (or frames with
   * no pixels at all).
   */
  predicate TransposedWriteFits(width: int, height: int)
  {
    width == height || width == 0 || height == 0
  }

  lemma TransposedWriteInBounds(width: nat, height: nat)
    ensures (forall x, y :: IsPixel(x, y, width, height) ==> InGrid(x, y, height, width))
            <==> TransposedWriteFits(width, height)
  {
    if !TransposedWriteFits(width, height) {
      if width > height {
        assert IsPixel(width - 1, 0, width, height) && !InGrid(width - 1, 0, height, width);
      } else {
        assert IsPixel(0, height - 1, width, height) && !InGrid(0, height - 1, height, width);
      }
    }
  }

  /**
   * `extractRGB`: allocates a `height` by `width` grid of empty cells and stores, for each
   * pixel (x, y), the triple (R, G, B) read from bytes +2, +1, +0 of the pixel at cell
   * [x, y] (transposed). The reads are exactly the bytes `PixelAt` names.
   */
  method ExtractRgb(frame: Frame) returns (frameRgb: array2<seq<Byte>>)
    requires Readable(frame)
    requires TransposedWriteFits(frame.width, frame.height)
    ensures fresh(frameRgb)
    ensures frameRgb.Length0 == frame.height && frameRgb.Length1 == frame.width
    ensures forall x, y :: IsPixel(x, y, frame.width, frame.height) ==>
              frameRgb[x, y] == PixelAt(frame, x, y)
  {
    var data := frame.data.value;
    var width, height, linesize := frame.width, frame.height, frame.linesize;
    frameRgb := new seq<Byte>[height, width]((_, _) => []);
    var y := 0;
    while y < height
      invariant 0 <= y <= height
      invariant forall x', y' :: IsPixel(x', y', width, y) ==> frameRgb[x', y'] == PixelAt(frame, x', y')
    {
      var x := 0;
      while x < width
        invariant 0 <= x <= width
        invariant forall x', y' :: IsPixel(x', y', width, y) ==> frameRgb[x', y'] == PixelAt(frame, x', y')
        invariant forall x' :: 0 <= x' < x ==> frameRgb[x', y] == PixelAt(frame, x', y)
      {
        OffsetBelowLast(frame, x, y, 2);
        var offset := y * linesize + x * 4;
        assert offset == Offset(frame, x, y, 0);
        var b := data[offset];
        var g := data[offset + 1];
        var r := data[offset + 2];
        assert [r, g, b] == PixelAt(frame, x, y);
        frameRgb[x, y] := [r, g, b];
        x := x + 1;
      }
      y := y + 1;
    }
  }

  /** Channel c of the first n cells of row i of the grid. */
  ghost function ChannelRow(rgb: array2<seq<Byte>>, c: nat, i: nat, n: nat): (r: seq<int>)
    reads rgb
    requires IsRgbGrid(rgb) && c < 3 && i < rgb.Length0 && n <= rgb.Length1
    ensures |r| == n
  {
    if n == 0 then [] else
      assert InGrid(i, n - 1, rgb.Length0, rgb.Length1);
      ChannelRow(rgb, c, i, n - 1) + [rgb[i, n - 1][c]]
  }

  /** Channel c of the first n rows of the grid. */
  ghost function ChannelRows(rgb: array2<seq<Byte>>, c: nat, n: nat): (m: seq<seq<int>>)
    reads rgb
    requires IsRgbGrid(rgb) && c < 3 && n <= rgb.Length0
    ensures |m| == n
  {
    if n == 0 then [] else ChannelRows(rgb, c, n - 1) + [ChannelRow(rgb, c, n - 1, rgb.Length1)]
  }

  /** Channel c of every cell of the grid, as a `Length0` by `Length1` integer grid. */
  ghost function Channel(rgb: array2<seq<Byte>>, c: nat): (m: seq<seq<int>>)
    reads rgb
    requires IsRgbGrid(rgb) && c < 3
  {
    ChannelRows(rgb, c, rgb.Length0)
  }

  lemma {:induction false} ChannelRowAt(rgb: array2<seq<Byte>>, c: nat, i: nat, n: nat, j: nat)
    requires IsRgbGrid(rgb) && c < 3 && i < rgb.Length0 && j < n <= rgb.Length1
    ensures ChannelRow(rgb, c, i, n)[j] == rgb[i, j][c]
  {
    if j < n - 1 {
      ChannelRowAt(rgb, c, i, n - 1, j);
    }
  }

  lemma {:induction false} ChannelRowsAt(rgb: array2<seq<Byte>>, c: nat, n: nat, i: nat)
    requires IsRgbGrid(rgb) && c < 3 && i < n <= rgb.Length0
    ensures ChannelRows(rgb, c, n)[i] == ChannelRow(rgb, c, i, rgb.Length1)
  {
    if i < n - 1 {
      ChannelRowsAt(rgb, c, n - 1, i);
    }
  }

  /**
   * a * b, as the number of cells counted in a rows of b cells. It is written
   * as repeated addition so that the proof about the loops' count stays linear.
   */
  function Times(a: nat, b: nat): nat
  {
    if a == 0 then 0 else Times(a - 1, b) + b
  }

  lemma {:induction false} TimesIsProduct(a: nat, b: nat)
    ensures Times(a, b) == a * b
  {
    if a > 0 {
      TimesIsProduct(a - 1, b);
      MulAddOne(a - 1, b);
    }
  }

  lemma RowSumStep(rgb: array2<seq<Byte>>, c: nat, i: nat, j: nat)
    requires IsRgbGrid(rgb) && c < 3 && i < rgb.Length0 && j < rgb.Length1
    ensures c < |rgb[i, j]|
    ensures RowSum(ChannelRow(rgb, c, i, j + 1)) == RowSum(ChannelRow(rgb, c, i, j)) + rgb[i, j][c]
  {
    assert InGrid(i, j, rgb.Length0, rgb.Length1);
    RowSumAppend(ChannelRow(rgb, c, i, j), rgb[i, j][c]);
  }

  lemma GridSumStep(rgb: array2<seq<Byte>>, c: nat, i: nat)
    requires IsRgbGrid(rgb) && c < 3 && i < rgb.Length0
    ensures GridSum(ChannelRows(rgb, c, i + 1))
            == GridSum(ChannelRows(rgb, c, i)) + RowSum(ChannelRow(rgb, c, i, rgb.Length1))
  {
    GridSumAppend(ChannelRows(rgb, c, i), ChannelRow(rgb, c, i, rgb.Length1));
  }

  /** The running totals of `averageRGB`: the red, green and blue sums and the cell count. */
  datatype Sums = Sums(r: int, g: int, b: int, count: int)

  /** (i, j) is a position of `averageRGB`'s loops: a cell, the end of a row, or the end of the grid. */
  predicate LoopPosition(i: int, j: int, rows: int, cols: int)
  {
    (0 <= i < rows && 0 <= j <= cols) || (i == rows && j == 0)
  }

  /**
   * The totals once `averageRGB` has visited, one cell at a time, the rows before row i and
   * the first j cells of row i.
   */
  ghost function SumsAt(rgb: array2<seq<Byte>>, i: nat, j: nat): Sums
    reads rgb
    requires IsRgbGrid(rgb) && LoopPosition(i, j, rgb.Length0, rgb.Length1)
    decreases i, j
  {
    if j == 0 then
      if i == 0 then Sums(0, 0, 0, 0) else SumsAt(rgb, i - 1, rgb.Length1)
    else
      assert InGrid(i, j - 1, rgb.Length0, rgb.Length1);
      var t, cell := SumsAt(rgb, i, j - 1), rgb[i, j - 1];
      Sums(t.r + cell[0], t.g + cell[1], t.b + cell[2], t.count + 1)
  }

  /** Channel c of the totals. */
  function Total(t: Sums, c: nat): int
    requires c < 3
  {
    if c == 0 then t.r else if c == 1 then t.g else t.b
  }

  /** At position (i, j) the count is the number of cells visited: i rows and j more cells. */
  lemma {:induction false} CountAt(rgb: array2<seq<Byte>>, i: nat, j: nat)
    requires IsRgbGrid(rgb) && LoopPosition(i, j, rgb.Length0, rgb.Length1)
    ensures SumsAt(rgb, i, j).count == Times(i, rgb.Length1) + j
    decreases i, j
  {
    if j > 0 {
      CountAt(rgb, i, j - 1);
    } else if i > 0 {
      CountAt(rgb, i - 1, rgb.Length1);
    }
  }

  /** At the start of row i the channel totals are the channel sums of rows 0 to i - 1. */
  lemma {:induction false} RowStartTotals(rgb: array2<seq<Byte>>, i: nat, c: nat)
    requires IsRgbGrid(rgb) && i <= rgb.Length0 && c < 3
    ensures Total(SumsAt(rgb, i, 0), c) == GridSum(ChannelRows(rgb, c, i))
    decreases i, 0
  {
    if i > 0 {
      CellTotals(rgb, i - 1, rgb.Length1, c);
      GridSumStep(rgb, c, i - 1);
    }
  }

  /** Within row i, the channel totals add the channel sums of the first j cells. */
  lemma {:induction false} CellTotals(rgb: array2<seq<Byte>>, i: nat, j: nat, c: nat)
    requires IsRgbGrid(rgb) && i < rgb.Length0 && j <= rgb.Length1 && c < 3
    ensures Total(SumsAt(rgb, i, j), c) == GridSum(ChannelRows(rgb, c, i)) + RowSum(ChannelRow(rgb, c, i, j))
    decreases i, j + 1
  {
    if j == 0 {
      RowStartTotals(rgb, i, c);
    } else {
      var t := SumsAt(rgb, i, j - 1);
      assert InGrid(i, j - 1, rgb.Length0, rgb.Length1);
      var cell := rgb[i, j - 1];
      assert SumsAt(rgb, i, j) == Sums(t.r + cell[0], t.g + cell[1], t.b + cell[2], t.count + 1);
      assert Total(SumsAt(rgb, i, j), c) == Total(t, c) + cell[c];
      CellTotals(rgb, i, j - 1, c);
      RowSumStep(rgb, c, i, j - 1);
    }
  }

  /** Dividing the final totals by the count gives the three channel means of the grid. */
  lemma AverageOfTotals(rgb: array2<seq<Byte>>)
    requires IsRgbGrid(rgb)
    ensures var t := SumsAt(rgb, rgb.Length0, 0);
      && t.count > 0
      && [t.r as real / t.count as real, t.g as real / t.count as real, t.b as real / t.count as real]
         == GridAverage(rgb)
  {
    RowStartTotals(rgb, rgb.Length0, 0);
    RowStartTotals(rgb, rgb.Length0, 1);
    RowStartTotals(rgb, rgb.Length0, 2);
    CountAt(rgb, rgb.Length0, 0);
    TimesIsProduct(rgb.Length0, rgb.Length1);
    ChannelShape(rgb, 0);
    ChannelShape(rgb, 1);
    ChannelShape(rgb, 2);
  }

  /** A non-empty grid whose every cell holds at least the three channels R, G, B. */
  ghost predicate IsRgbGrid(rgb: array2<seq<Byte>>)
    reads rgb
  {
    && rgb.Length0 > 0 && rgb.Length1 > 0
    && (forall i, j :: InGrid(i, j, rgb.Length0, rgb.Length1) ==> |rgb[i, j]| >= 3)
  }

  /** The mean of channels 0, 1 and 2 over all cells of the grid. */
  ghost function GridAverage(rgb: array2<seq<Byte>>): Sample
    reads rgb
    requires IsRgbGrid(rgb)
  {
    ChannelShape(rgb, 0);
    ChannelShape(rgb, 1);
    ChannelShape(rgb, 2);
    [Mean(Channel(rgb, 0)), Mean(Channel(rgb, 1)), Mean(Channel(rgb, 2))]
  }

  /** `Channel` is the grid of channel-c values, cell by cell. */
  lemma ChannelShape(rgb: array2<seq<Byte>>, c: nat)
    requires IsRgbGrid(rgb) && c < 3
    ensures |Channel(rgb, c)| == rgb.Length0 && Rectangular(Channel(rgb, c), rgb.Length1)
    ensures forall i, j :: InGrid(i, j, rgb.Length0, rgb.Length1) ==> Channel(rgb, c)[i][j] == rgb[i, j][c]
  {
    var m := Channel(rgb, c);
    forall i | 0 <= i < |m| ensures |m[i]| == rgb.Length1 {
      ChannelRowsAt(rgb, c, rgb.Length0, i);
    }
    forall i, j | InGrid(i, j, rgb.Length0, rgb.Length1) ensures m[i][j] == rgb[i, j][c] {
      ChannelRowsAt(rgb, c, rgb.Length0, i);
      ChannelRowAt(rgb, c, i, rgb.Length1, j);
    }
  }

  /** Channel c (0 = red, 1 = green, 2 = blue) of the frame in image order: row y, column x. */
  ghost function ImageChannel(f: Frame, c: nat): (m: seq<seq<int>>)
    requires Readable(f) && c < 3
    ensures |m| == f.height && Rectangular(m, f.width)
    ensures EntriesWithin(m, 0, 0xFF)
  {
    seq(f.height, y requires 0 <= y < f.height =>
      seq(f.width, x requires 0 <= x < f.width => PixelAt(f, x, y)[c] as int))
  }

  /** The mean red, green and blue values over all pixels of a frame with pixels. */
  ghost function FrameAverage(f: Frame): (avg: Sample)
    requires Readable(f) && f.width > 0 && f.height > 0
  {
    [Mean(ImageChannel(f, 0)), Mean(ImageChannel(f, 1)), Mean(ImageChannel(f, 2))]
  }

  /** The mean of one channel of a grid of bytes lies between 0 and 255. */
  lemma ChannelMeanInByteRange(rgb: array2<seq<Byte>>, c: nat)
    requires IsRgbGrid(rgb) && c < 3
    ensures NonEmptyGrid(Channel(rgb, c)) && 0.0 <= Mean(Channel(rgb, c)) <= 255.0
  {
    ChannelShape(rgb, c);
    var m := Channel(rgb, c);
    assert |m[0]| == rgb.Length1;
    forall i, j | 0 <= i < |m| && 0 <= j < |m[i]| ensures 0 <= m[i][j] <= 0xFF {
      assert InGrid(i, j, rgb.Length0, rgb.Length1);
    }
    MeanWithin(m, 0, 0xFF);
  }

  /** Each of the three channel averages of a grid of bytes lies between 0 and 255. */
  lemma GridAverageInByteRange(rgb: array2<seq<Byte>>)
    requires IsRgbGrid(rgb)
    ensures |GridAverage(rgb)| == 3
    ensures forall c :: 0 <= c < 3 ==> 0.0 <= GridAverage(rgb)[c] <= 255.0
  {
    ChannelMeanInByteRange(rgb, 0);
    ChannelMeanInByteRange(rgb, 1);
    ChannelMeanInByteRange(rgb, 2);
  }

  /** Each channel average of a frame lies between 0 and 255. */
  lemma FrameAverageInByteRange(f: Frame)
    requires Readable(f) && f.width > 0 && f.height > 0
    ensures |FrameAverage(f)| == 3
    ensures forall c :: 0 <= c < 3 ==> 0.0 <= FrameAverage(f)[c] <= 255.0
  {
    MeanWithin(ImageChannel(f, 0), 0, 0xFF);
    MeanWithin(ImageChannel(f, 1), 0, 0xFF);
    MeanWithin(ImageChannel(f, 2), 0, 0xFF);
  }

  /** A frame whose pixels all have one colour averages to that colour. */
  lemma UniformFrameAverage(f: Frame, colour: seq<Byte>)
    requires Readable(f) && f.width > 0 && f.height > 0
    requires forall x, y :: IsPixel(x, y, f.width, f.height) ==> PixelAt(f, x, y) == colour
    ensures |colour| == 3
    ensures FrameAverage(f) == [colour[0] as real, colour[1] as real, colour[2] as real]
  {
    assert PixelAt(f, 0, 0) == colour;
    forall c | 0 <= c < 3 ensures Mean(ImageChannel(f, c)) == colour[c] as real {
      var m := ImageChannel(f, c);
      forall i, j | 0 <= i < |m| && 0 <= j < |m[i]| ensures m[i][j] == colour[c] {
        assert PixelAt(f, j, i) == colour;
      }
      MeanUniform(m, colour[c]);
    }
  }

  lemma ExtractedChannelMean(frame: Frame, rgb: array2<seq<Byte>>, c: nat)
    requires Readable(frame) && frame.width == frame.height && frame.width > 0 && c < 3
    requires rgb.Length0 == frame.height && rgb.Length1 == frame.width
    requires forall x, y :: IsPixel(x, y, frame.width, frame.height) ==> rgb[x, y] == PixelAt(frame, x, y)
    ensures IsRgbGrid(rgb) && NonEmptyGrid(Channel(rgb, c))
    ensures Mean(Channel(rgb, c)) == Mean(ImageChannel(frame, c))
  {
    forall i, j | InGrid(i, j, rgb.Length0, rgb.Length1) ensures |rgb[i, j]| >= 3 {
      assert IsPixel(i, j, frame.width, frame.height);
    }
    var m, g := ImageChannel(frame, c), Channel(rgb, c);
    ChannelShape(rgb, c);
    var t := Transpose(m, frame.width);
    forall x | 0 <= x < frame.width ensures t[x] == g[x] {
      forall y | 0 <= y < frame.height ensures t[x][y] == g[x][y] {
        assert IsPixel(x, y, frame.width, frame.height);
        assert InGrid(x, y, rgb.Length0, rgb.Length1);
      }
    }
    assert t == g;
    MeanTranspose(m);
  }

  /**
   * The grid `extractRGB` builds holds a square frame transposed, which does not change a
   * mean: its channel averages are the frame's own.
   */
  lemma ExtractedGridAverage(frame: Frame, rgb: array2<seq<Byte>>)
    requires Readable(frame) && frame.width == frame.height && frame.width > 0
    requires rgb.Length0 == frame.height && rgb.Length1 == frame.width
    requires forall x, y :: IsPixel(x, y, frame.width, frame.height) ==> rgb[x, y] == PixelAt(frame, x, y)
    ensures IsRgbGrid(rgb) && GridAverage(rgb) == FrameAverage(frame)
  {
    forall i, j | InGrid(i, j, rgb.Length0, rgb.Length1) ensures |rgb[i, j]| >= 3 {
      assert IsPixel(i, j, frame.width, frame.height);
    }
    ExtractedChannelMean(frame, rgb, 0);
    ExtractedChannelMean(frame, rgb, 1);
    ExtractedChannelMean(frame, rgb, 2);
  }

  /**
   * `green`: the green component (element 1) of each sample, in order.
   */
  method Green(framesRgb: seq<Sample>) returns (framesG: seq<real>)
    requires forall i :: 0 <= i < |framesRgb| ==> |framesRgb[i]| >= 2
    ensures |framesG| == |framesRgb|
    ensures forall i :: 0 <= i < |framesRgb| ==> framesG[i] == framesRgb[i][1]
  {
    framesG := [];
    var i := 0;
    while i < |framesRgb|
      invariant 0 <= i <= |framesRgb|
      invariant |framesG| == i
      invariant forall k :: 0 <= k < i ==> framesG[k] == framesRgb[k][1]
    {
      framesG := framesG + [framesRgb[i][1]];
      i := i + 1;
    }
  }

  /** Every sample stored in a window set has three channels, as every `averageRGB` result does. */
  ghost predicate ThreeChannels(ws: seq<seq<Sample>>)
  {
    forall k, i :: 0 <= k < |ws| && 0 <= i < |ws[k]| ==> |ws[k][i]| == 3
  }

  /** A push of a three-channel sample keeps every stored sample three channels wide. */
  lemma StepKeepsThreeChannels(ws: seq<seq<Sample>>, s: Sample, size: int, stride: int, max: int)
    requires CanPush(ws, size, stride)
    requires ThreeChannels(ws) && |s| == 3
    ensures ThreeChannels(Step(ws, s, size, stride, max))
  {
    if ws != [] {
      var n, last := |ws|, Last(ws);
      var g := Grow(ws, s, size, stride);
      var w := if |last| == size then last[|last| - stride..] + [s] else last + [s];
      assert g == ws[..n - 1] + [if |last| == size then last else w] + (if |last| == size then [w] else []);
      forall i | 0 <= i < |w| ensures |w[i]| == 3 {
        if i < |w| - 1 {
          if |last| == size {
            assert w[i] == last[|last| - stride + i];
          } else {
            assert w[i] == last[i];
          }
        }
      }
      assert ThreeChannels(g) by {
        forall k, i | 0 <= k < |g| && 0 <= i < |g[k]| ensures |g[k][i]| == 3 {
          if k < n - 1 {
            assert g[k] == ws[k];
          } else if k == n - 1 && |last| == size {
            assert g[k] == ws[n - 1];
          } else {
            assert g[k] == w;
          }
        }
      }
      if |g| > max {
        assert ThreeChannels(g[1..]) by {
          forall k, i | 0 <= k < |g[1..]| && 0 <= i < |g[1..][k]| ensures |g[1..][k][i]| == 3 {
            assert g[1..][k] == g[k + 1];
          }
        }
      }
    }
  }

  /** The window parameters keep the set in shape, and it is in shape and within the cap. */
  ghost predicate ShapedWindows(ws: seq<seq<Sample>>, size: int, stride: int, max: int)
  {
    ValidConfig(size, stride, max) && WellFormed(ws, size, stride) && |ws| <= max
  }

  /**
   * A push keeps a window set in shape and within the cap, and a push of a three-channel
   * sample keeps every stored sample three channels wide.
   */
  lemma StepKeepsShape(ws: seq<seq<Sample>>, s: Sample, size: int, stride: int, max: int)
    requires CanPush(ws, size, stride)
    ensures ShapedWindows(ws, size, stride, max) ==> ShapedWindows(Step(ws, s, size, stride, max), size, stride, max)
    ensures ThreeChannels(ws) && |s| == 3 ==> ThreeChannels(Step(ws, s, size, stride, max))
  {
    if ShapedWindows(ws, size, stride, max) {
      StepPreservesWellFormed(ws, s, size, stride, max);
      StepWithinCap(ws, s, size, stride, max);
    }
    if ThreeChannels(ws) && |s| == 3 {
      StepKeepsThreeChannels(ws, s, size, stride, max);
    }
  }

  /** Every sample of the last window, if there is one, has a green entry (index 1). */
  ghost predicate GreenInLast(ws: seq<seq<Sample>>)
  {
    ws != [] ==> forall k :: 0 <= k < |Last(ws)| ==> |Last(ws)[k]| >= 2
  }

  /**
   * A push that leaves a window, of a sample with a green entry, leaves a last window
   * whose samples all have a green entry, as `green(windows.back())` needs.
   */
  lemma StepLeavesGreenWindow(ws: seq<seq<Sample>>, s: Sample, size: int, stride: int, max: int)
    requires CanPush(ws, size, stride) && KeepsAWindow(ws, size, max)
    requires GreenInLast(ws) && |s| >= 2
    ensures Step(ws, s, size, stride, max) != []
    ensures GreenInLast(Step(ws, s, size, stride, max))
  {
    var r := Step(ws, s, size, stride, max);
    StepNonEmptyIff(ws, s, size, stride, max);
    if ws == [] {
      assert Last(r) == [s];
    } else if |Last(ws)| == size {
      StepRollsOver(ws, s, size, stride, max);
      var seed := Last(ws)[size - stride..];
      assert Last(r) == seed + [s];
      forall k | 0 <= k < |Last(r)| ensures |Last(r)[k]| >= 2 {
        if k < |seed| {
          assert Last(r)[k] == Last(ws)[size - stride + k];
        }
      }
    } else {
      StepAppendsToPartial(ws, s, size, stride, max);
      assert Last(r) == Last(ws) + [s];
      forall k | 0 <= k < |Last(r)| ensures |Last(r)[k]| >= 2 {
        if k < |Last(ws)| {
          assert Last(r)[k] == Last(ws)[k];
        }
      }
    }
  }

  /**
   * The per-frame averaging state: the window set and its parameters (the window length,
   * the number of samples a new window takes over from the previous one, and the cap on
   * the number of windows kept).
   */
  class MovingAvg {
    const windowSize: int
    const windowStride: int
    const maxNumWindows: int
    var windows: seq<seq<Sample>>

    /** The parameters keep the window set in shape, and it is in shape and within the cap. */
    ghost predicate Shaped()
      reads this
    {
      ShapedWindows(windows, windowSize, windowStride, maxNumWindows)
    }

    /** The window set is in shape and every stored sample is a three-channel average. */
    ghost predicate Valid()
      reads this
    {
      Shaped() && ThreeChannels(windows)
    }

    /**
     * What `calculateHeartRate` needs of the state: `updateWindows` can take its stride
     * from a full last window, a window is left for `windows.back()`, and the samples that
     * stay in that window have a green entry for `green`.
     */
    ghost predicate ReadyForFrame()
      reads this
    {
      && CanPush(windows, windowSize, windowStride)
      && KeepsAWindow(windows, windowSize, maxNumWindows)
      && GreenInLast(windows)
    }

    /** A valid averaging state is always ready for the next frame. */
    lemma ValidIsReady()
      requires Valid()
      ensures ReadyForFrame()
    {
      if windows != [] {
        assert Last(windows) == windows[|windows| - 1];
      }
    }

    constructor (windowSize: int, windowStride: int, maxNumWindows: int)
      ensures this.windowSize == windowSize && this.windowStride == windowStride
      ensures this.maxNumWindows == maxNumWindows
      ensures windows == []
      ensures ValidConfig(windowSize, windowStride, maxNumWindows) ==> Valid()
    {
      this.windowSize := windowSize;
      this.windowStride := windowStride;
      this.maxNumWindows := maxNumWindows;
      windows := [];
    }

    /**
     * `averageRGB`: the mean of each of channels 0, 1 and 2 over the `Length0` rows and
     * the `Length1` columns of the grid.
     */
    method AverageRgb(rgb: array2<seq<Byte>>) returns (avg: Sample)
      requires rgb.Length0 > 0 && rgb.Length1 > 0
      requires forall i, j :: InGrid(i, j, rgb.Length0, rgb.Length1) ==> |rgb[i, j]| >= 3
      ensures IsRgbGrid(rgb) && avg == GridAverage(rgb)
    {
      assert IsRgbGrid(rgb);
      var sumR: int, sumG: int, sumB: int := 0, 0, 0;
      var count: int := 0;
      var i := 0;
      while i < rgb.Length0
        invariant 0 <= i <= rgb.Length0
        invariant Sums(sumR, sumG, sumB, count) == SumsAt(rgb, i, 0)
      {
        var j := 0;
        while j < rgb.Length1
          invariant 0 <= j <= rgb.Length1
          invariant Sums(sumR, sumG, sumB, count) == SumsAt(rgb, i, j)
        {
          assert InGrid(i, j, rgb.Length0, rgb.Length1);
          var cell := rgb[i, j];
          sumR := sumR + cell[0];
          sumG := sumG + cell[1];
          sumB := sumB + cell[2];
          count := count + 1;
          j := j + 1;
        }
        i := i + 1;
      }
      AverageOfTotals(rgb);
      avg := [sumR as real / count as real, sumG as real / count as real, sumB as real / count as real];
    }

    /**
     * The body of `updateWindows` on the window set `ws`: start the first window, add the
     * sample to a partial last window or open a new window that takes over the last
     * `stride` samples of a full one, and drop the oldest window beyond the cap.
     */
    static method PushSample(ws: seq<seq<Sample>>, frameAvg: Sample, size: int, stride: int, max: int)
      returns (r: seq<seq<Sample>>)
      requires CanPush(ws, size, stride)
      ensures r == Step(ws, frameAvg, size, stride, max)
    {
      if ws == [] {
        return [[frameAvg]];
      }
      r := ws;
      var last := r[|r| - 1];
      if |last| == size {
        var window := last[|last| - stride..];
        window := window + [frameAvg];
        r := r + [window];
      } else {
        r := r[..|r| - 1];
        last := last + [frameAvg];
        r := r + [last];
      }
      if |r| > max {
        r := r[1..];
      }
    }

    /**
     * `updateWindows`: push one sample onto the window set (see `WindowSet.Step`); a set in
     * shape stays in shape and within the cap, and pushing a three-channel sample onto a
     * valid set keeps it valid.
     */
    method UpdateWindows(frameAvg: Sample)
      requires CanPush(windows, windowSize, windowStride)
      modifies this
      ensures windows == Step(old(windows), frameAvg, windowSize, windowStride, maxNumWindows)
      ensures old(Shaped()) ==> Shaped()
      ensures old(Valid()) && |frameAvg| == 3 ==> Valid()
    {
      StepKeepsShape(windows, frameAvg, windowSize, windowStride, maxNumWindows);
      windows := PushSample(windows, frameAvg, windowSize, windowStride, maxNumWindows);
    }

    /**
     * `calculateHeartRate`: extract the frame, average it, push exactly that one sample,
     * select the green channel of the newest window when `ppg` is 0, and return 0.0 (no
     * estimator is wired in).
     */
    method CalculateHeartRate(frame: Frame, preFilter: int, ppg: int, postFilter: int) returns (hr: real)
      requires Readable(frame) && frame.width == frame.height && frame.width > 0
      requires Valid() || (CanPush(windows, windowSize, windowStride)
        && (ppg == 0 ==> KeepsAWindow(windows, windowSize, maxNumWindows) && GreenInLast(windows)))
      modifies this
      ensures windows == Step(old(windows), FrameAverage(frame), windowSize, windowStride, maxNumWindows)
      ensures hr == 0.0
      ensures old(Shaped()) ==> Shaped()
      ensures old(Valid()) ==> Valid()
    {
      if Valid() {
        ValidIsReady();
      }
      var frameRgb := ExtractRgb(frame);
      ExtractedGridAverage(frame, frameRgb);
      var avg := AverageRgb(frameRgb);
      assert avg == FrameAverage(frame) && |avg| == 3 by {
        FrameAverageInByteRange(frame);
      }
      ghost var ws := windows;
      UpdateWindows(avg);
      var ppgSignal: seq<real> := [];
      if ppg == 0 {
        assert windows != [] && GreenInLast(windows) by {
          StepLeavesGreenWindow(ws, avg, windowSize, windowStride, maxNumWindows);
        }
        var newest := windows[|windows| - 1];
        assert newest == Last(windows);
        ppgSignal := Green(newest);
      }
      hr := 0.0;
    }
  }
}
