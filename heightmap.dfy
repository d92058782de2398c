/**
 * The height map: a row-major grid of samples whose width and height are
 * powers of two, addressed with wrap-around, and the whole-grid sweeps
 * that edit it in place.
 */
module HeightMaps {
  import opened Grid
  import opened Circles
  import opened Smoothing
  import opened Fading
  import opened Pixels

  /** Why initialisation refused its dimensions; the width is checked first. */
  datatype DimensionError = WidthNotPowerOfTwo | HeightNotPowerOfTwo

  datatype Outcome = Pass | Fail(error: DimensionError)

  /** Clamping of a sample to [0, 1]: values inside are kept, others go to the nearer end. */
  function Clamp01(v: real): (r: real)
    ensures 0.0 <= r <= 1.0
    ensures (0.0 <= v <= 1.0) == (r == v)
  {
    if v < 0.0 then 0.0 else if v > 1.0 then 1.0 else v
  }

  class HeightMap {
    var samples: array<real>
    var width: int
    var height: int

    /** Both dimensions are powers of two and there is one sample per cell. */
    ghost predicate Valid()
      reads this
    {
      IsPowerOfTwo(width) && IsPowerOfTwo(height) && samples.Length == width * height
    }

    /** A new instance before initialisation: no samples and zero dimensions. */
    constructor ()
      ensures samples.Length == 0 && width == 0 && height == 0
    {
      samples := new real[0];
      width, height := 0, 0;
    }

    /** The sample of cell (x, y); both coordinates wrap around, and inside the grid rows are `width` samples apart. */
    function Get(x: int, y: int): (v: real)
      reads this, samples
      requires Valid()
      ensures 0 <= x < width && 0 <= y < height ==> x + y * width < samples.Length && v == samples[x + y * width]
    {
      assert 0 <= x < width && 0 <= y < height ==> ToIndex(width, height, x, y) == x + y * width by {
        if 0 <= x < width && 0 <= y < height {
          ToIndexInBounds(width, height, x, y);
        }
      }
      samples[ToIndex(width, height, x, y)]
    }

    /** Reading one full width to the right, or one full height up, reads the same cell. */
    lemma GetWraps(x: int, y: int)
      requires Valid()
      ensures Get(x + width, y) == Get(x, y)
      ensures Get(x, y + height) == Get(x, y)
    {
      PowerOfTwoParity(width);
      PowerOfTwoParity(height);
      ToIndexWrapsX(width, height, x, y);
      ToIndexWrapsY(width, height, x, y);
    }

    /** Stores `value` unclamped in cell (x, y); no other cell changes. */
    method Set(x: int, y: int, value: real)
      requires Valid()
      modifies samples
      ensures samples[..] == old(samples[..])[ToIndex(width, height, x, y) := value]
      ensures Get(x, y) == value
    {
      samples[ToIndex(width, height, x, y)] := value;
    }

    /** The sample at linear index i: on a valid map, that of cell (i mod width, i div width). */
    function GetLinear(i: int): (v: real)
      reads this, samples
      requires 0 <= i < samples.Length
      ensures Valid() ==> v == Get(i % width, i / width)
    {
      assert Valid() ==> samples[i] == Get(i % width, i / width) by {
        if Valid() {
          PowerOfTwoParity(width);
          PowerOfTwoParity(height);
          IndexToCell(width, height, i);
        }
      }
      samples[i]
    }

    /** Stores `value` clamped to [0, 1] at linear index i; no other sample changes. */
    method SetLinear(i: int, value: real)
      requires 0 <= i < samples.Length
      modifies samples
      ensures samples[..] == old(samples[..])[i := Clamp01(value)]
      ensures 0.0 <= GetLinear(i) <= 1.0
      ensures (0.0 <= value <= 1.0) == (GetLinear(i) == value)
    {
      samples[i] := Clamp01(value);
    }

    /**
     * Takes the given dimensions and a fresh all-zero sample array if both
     * are powers of two; otherwise fails, checking the width first, and
     * changes nothing.
     */
    method Init(w: int, h: int) returns (outcome: Outcome)
      modifies this
      ensures outcome == if !IsPowerOfTwo(w) then Fail(WidthNotPowerOfTwo)
                         else if !IsPowerOfTwo(h) then Fail(HeightNotPowerOfTwo)
                         else Pass
      ensures outcome.Fail? ==> width == old(width) && height == old(height) && samples == old(samples)
      ensures outcome.Pass? ==> Valid() && width == w && height == h && fresh(samples)
      ensures outcome.Pass? ==> samples.Length == w * h && forall i :: 0 <= i < samples.Length ==> samples[i] == 0.0
      ensures outcome.Pass? ==> forall x, y :: Get(x, y) == 0.0
    {
      if !IsPowerOfTwo(w) {
        return Fail(WidthNotPowerOfTwo);
      }
      if !IsPowerOfTwo(h) {
        return Fail(HeightNotPowerOfTwo);
      }
      width := w;
      height := h;
      samples := new real[w * h](_ => 0.0);
      outcome := Pass;
    }

    /**
     * Exports the samples as opaque grey pixels, row after row; the samples
     * are only read.
     */
    method GetTexture() returns (texture: Texture)
      requires Valid()
      ensures texture.width == width && texture.height == height
      ensures |texture.pixels| == width * height
      ensures forall x, y :: 0 <= x < width && 0 <= y < height ==>
                0 <= PixelIndex(width, x, y) < |texture.pixels| &&
                texture.pixels[PixelIndex(width, x, y)] == Grey(Get(x, y))
      ensures forall i :: 0 <= i < |texture.pixels| ==> texture.pixels[i] == Grey(samples[i])
    {
      var colors := new Color[width * height](_ => Color(0.0, 0.0, 0.0, 0.0));
      var y := 0;
      while y < height
        invariant 0 <= y <= height
        invariant forall i :: 0 <= i < colors.Length && i < y * width ==> colors[i] == Grey(samples[i])
      {
        ExportRow(colors, y);
        y := y + 1;
      }
      RowsCovered(width, height, y);
      texture := Texture(width, height, colors[..]);
      forall x, y | 0 <= x < width && 0 <= y < height
        ensures 0 <= PixelIndex(width, x, y) < |texture.pixels|
        ensures texture.pixels[PixelIndex(width, x, y)] == Grey(Get(x, y))
      {
        PixelIndexIsCellIndex(width, height, x, y);
      }
    }

    /** Writes the grey pixels of row y, left to right, after those of the rows below it. */
    method ExportRow(colors: array<Color>, y: int)
      requires Valid() && colors.Length == width * height && 0 <= y < height
      requires forall i :: 0 <= i < colors.Length && i < y * width ==> colors[i] == Grey(samples[i])
      modifies colors
      ensures forall i :: 0 <= i < colors.Length && i < (y + 1) * width ==> colors[i] == Grey(samples[i])
      ensures forall i :: (y + 1) * width <= i < colors.Length ==> colors[i] == old(colors[i])
    {
      ghost var start := y * width;
      var x := 0;
      while x < width
        invariant 0 <= x <= width
        invariant forall i :: 0 <= i < colors.Length && i < start + x ==> colors[i] == Grey(samples[i])
        invariant forall i :: start + width <= i < colors.Length ==> colors[i] == old(colors[i])
      {
        var sample := Get(x, y);
        PixelIndexIsCellIndex(width, height, x, y);
        assert PixelIndex(width, x, y) == start + x;
        colors[PixelIndex(width, x, y)] := Grey(sample);
        x := x + 1;
      }
      assert start + width == (y + 1) * width;
    }

    /**
     * Replaces dimensions and samples with those of a texture, each sample
     * being its pixel's grey level. The dimensions are not checked, so the
     * map is valid afterwards exactly when the texture's are powers of two
     * and its pixels fill them.
     */
    method SetFromTexture(texture: Texture, grayscale: Color -> real)
      modifies this
      ensures fresh(samples) && samples.Length == |texture.pixels|
      ensures width == texture.width && height == texture.height
      ensures forall i :: 0 <= i < samples.Length ==> samples[i] == grayscale(texture.pixels[i])
      ensures Valid() <==> IsPowerOfTwo(texture.width) && IsPowerOfTwo(texture.height)
                           && |texture.pixels| == texture.width * texture.height
    {
      var pixels := texture.pixels;
      samples := new real[|pixels|];
      width := texture.width;
      height := texture.height;
      var i := 0;
      while i < |pixels|
        invariant 0 <= i <= |pixels|
        invariant fresh(samples) && samples.Length == |pixels|
        invariant width == texture.width && height == texture.height
        invariant forall j :: 0 <= j < i ==> samples[j] == grayscale(pixels[j])
      {
        samples[i] := grayscale(pixels[i]);
        i := i + 1;
      }
    }

    /** Adds `weight` to every cell strictly inside the circle of `radius` around (h, k). */
    method AddCircle(radius: real, weight: real, h: int, k: int)
      requires Valid()
      modifies samples
      ensures samples[..] == Circled(old(samples[..]), width, radius, weight, h, k)
    {
      ghost var s := samples[..];
      ghost var target := Circled(s, width, radius, weight, h, k);
      ghost var n := 0;
      var y := 0;
      while y < height
        invariant 0 <= y <= height && n == y * width
        invariant samples[..] == Spliced(target, s, n)
      {
        var x := 0;
        while x < width
          invariant 0 <= x <= width && n == y * width + x
          invariant samples[..] == Spliced(target, s, n)
        {
          ToIndexInBounds(width, height, x, y);
          CellOf(width, x, y);
          SplicedStep(target, s, n);
          if InCircle(radius, h, k, x, y) {
            Set(x, y, Get(x, y) + weight);
          }
          x := x + 1;
          n := n + 1;
        }
        assert y * width + width == (y + 1) * width;
        y := y + 1;
      }
      SplicedEnds(target, s, n);
    }

    /** Each block's top-left cell becomes the mean of the block. */
    method SmoothAverage()
      requires Valid()
      modifies samples
      ensures samples[..] == Smoothed(old(samples[..]), width, height, Average)
    {
      SmoothBlocks(Average);
    }

    /** Each block's top-left cell becomes the maximum of the block. */
    method SmoothHigh()
      requires Valid()
      modifies samples
      ensures samples[..] == Smoothed(old(samples[..]), width, height, High)
    {
      SmoothBlocks(High);
    }

    /** Each block's top-left cell becomes the minimum of the block. */
    method SmoothLow()
      requires Valid()
      modifies samples
      ensures samples[..] == Smoothed(old(samples[..]), width, height, Low)
    {
      SmoothBlocks(Low);
    }

    /**
     * The sweep shared by the three block filters: blocks in row-major
     * order, each corner written once from four reads of unfiltered cells.
     */
    method SmoothBlocks(filter: Filter)
      requires Valid()
      modifies samples
      ensures samples[..] == Smoothed(old(samples[..]), width, height, filter)
    {
      ghost var s := samples[..];
      SweptToEnds(s, width, height, filter, 0);
      var y := 0;
      while y < height
        invariant 0 <= y <= height + 1 && y % 2 == 0
        invariant samples[..] == SweptTo(s, width, height, filter, 0, y)
      {
        SmoothRow(filter, y, s);
        EvenStep(y);
        y := y + 2;
      }
      SweptToEnds(s, width, height, filter, y);
    }

    /**
     * One row of blocks, left to right: with the rows below y final, the
     * sweep leaves rows y and y + 1 final as well.
     */
    method SmoothRow(filter: Filter, y: int, ghost s: seq<real>)
      requires Valid() && |s| == samples.Length
      requires 0 <= y < height && y % 2 == 0
      requires samples[..] == SweptTo(s, width, height, filter, 0, y)
      modifies samples
      ensures samples[..] == SweptTo(s, width, height, filter, 0, y + 2)
    {
      var x := 0;
      while x < width
        invariant 0 <= x <= width + 1 && x % 2 == 0
        invariant samples[..] == SweptTo(s, width, height, filter, x, y)
      {
        SweepBlock(s, width, height, filter, x, y);
        FilterBlock(filter, x, y);
        EvenStep(x);
        x := x + 2;
      }
      SweepRowEnd(s, width, height, filter, x, y);
    }

    /**
     * One block: reads (x, y), (x, y + 1), (x + 1, y), (x + 1, y + 1) and
     * writes the filter of the four into (x, y); nothing else changes.
     */
    method FilterBlock(filter: Filter, x: int, y: int)
      requires Valid()
      modifies samples
      ensures samples[..] == old(samples[..])[ToIndex(width, height, x, y) := BlockValue(old(samples[..]), width, height, filter, x, y)]
    {
      var a := Get(x, y);
      var b := Get(x, y + 1);
      var c := Get(x + 1, y);
      var d := Get(x + 1, y + 1);
      Set(x, y, Aggregate(filter, a, b, c, d));
    }

    /**
     * Fades the four border bands `distance` lines deep: bottom rows, top
     * rows, left columns, right columns, in that order. `sin` gives the
     * sine of an integer column for the bottom band's ripple.
     */
    method FadeEdges(distance: int, sin: int -> real)
      requires Valid()
      modifies samples
      ensures samples[..] == EdgesFaded(old(samples[..]), width, height, distance, sin)
    {
      FadeBand(Bottom, distance, sin, 0, distance);
      FadeBand(Top, distance, sin, height - distance, height);
      FadeBand(Left, distance, sin, 0, distance);
      FadeBand(Right, distance, sin, width - distance, width);
    }

    /** One band of the fade: lines lo to hi - 1 in order. */
    method FadeBand(band: Band, distance: int, sin: int -> real, lo: int, hi: int)
      requires Valid()
      requires lo < hi ==> distance > 0
      modifies samples
      ensures samples[..] == Faded(old(samples[..]), width, height, band, distance, sin, lo, hi)
    {
      ghost var s := samples[..];
      var line := lo;
      while line < hi
        invariant line == lo || lo < line <= hi
        invariant samples[..] == Faded(s, width, height, band, distance, sin, lo, line)
      {
        FadeLine(band, distance, sin, line);
        line := line + 1;
      }
    }

    /** One line of a band: each cell of the line in order, multiplied by its factor. */
    method FadeLine(band: Band, distance: int, sin: int -> real, line: int)
      requires Valid() && distance > 0
      modifies samples
      ensures samples[..] == LineScaled(old(samples[..]), width, height, band, distance, sin, line)
    {
      ghost var before := samples[..];
      var length := LineLength(width, height, band);
      LinePartlyScaledStart(before, width, height, band, distance, sin, line);
      var pos := 0;
      while pos < length
        invariant 0 <= pos <= length
        invariant samples[..] == LinePartlyScaled(before, width, height, band, distance, sin, line, pos)
      {
        LinePartlyScaledStep(before, width, height, band, distance, sin, line, pos);
        ghost var j := LineCell(width, height, band, line, pos);
        if band.IsRowBand() {
          assert ToIndex(width, height, pos, line) == j;
          Set(pos, line, ScaledSample(Get(pos, line), width, height, band, distance, sin, line, pos));
        } else {
          assert ToIndex(width, height, line, pos) == j;
          Set(line, pos, ScaledSample(Get(line, pos), width, height, band, distance, sin, line, pos));
        }
        pos := pos + 1;
      }
      LinePartlyScaledEnd(before, width, height, band, distance, sin, line);
    }
  }

  /**
   * Exporting to a texture and importing it back restores the grid, for a
   * grey level that reads a grey pixel as its channel value.
   */
  method ExportThenImport(map_: HeightMap, grayscale: Color -> real)
    requires map_.Valid()
    requires forall v :: grayscale(Grey(v)) == v
    modifies map_
    ensures map_.Valid() && map_.width == old(map_.width) && map_.height == old(map_.height)
    ensures map_.samples[..] == old(map_.samples[..])
  {
    var texture := map_.GetTexture();
    map_.SetFromTexture(texture, grayscale);
  }

  /**
   * The round trip for a grey level that is a weighted sum of the three
   * channels with weights summing to 1, as a luminance formula is.
   */
  method ExportThenImportWeighted(map_: HeightMap, wr: real, wg: real, wb: real)
    requires map_.Valid() && wr + wg + wb == 1.0
    modifies map_
    ensures map_.Valid() && map_.width == old(map_.width) && map_.height == old(map_.height)
    ensures map_.samples[..] == old(map_.samples[..])
  {
    var grayscale := (c: Color) => wr * c.r + wg * c.g + wb * c.b;
    forall v
      ensures grayscale(Grey(v)) == v
    {
      GreyLevel(v, wr, wg, wb);
    }
    ExportThenImport(map_, grayscale);
  }
}
