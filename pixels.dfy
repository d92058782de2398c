/**
 * The pixel buffer a height map is exported to and imported from: opaque
 * grey colours laid out row after row.
 */
module Pixels {
  import opened Grid

  /** An RGBA colour with real channels. */
  datatype Color = Color(r: real, g: real, b: real, a: real)

  /** The opaque grey of a sample: red, green and blue all equal to it, alpha 1. */
  function Grey(v: real): Color
  {
    Color(v, v, v, 1.0)
  }

  /**
   * A grey level that weighs the three channels with weights summing to 1
   * reads a grey back as its sample.
   */
  lemma GreyLevel(v: real, wr: real, wg: real, wb: real)
    requires wr + wg + wb == 1.0
    ensures wr * Grey(v).r + wg * Grey(v).g + wb * Grey(v).b == v
  {
    assert wr * v + wg * v + wb * v == (wr + wg + wb) * v;
  }

  /** A texture's dimensions and its pixels, row after row. */
  datatype Texture = Texture(width: int, height: int, pixels: seq<Color>)

  /** Pixel index of (x, y) in a row-major image: rows are `width` pixels apart. */
  function PixelIndex(width: int, x: int, y: int): int
  {
    y * width + x
  }

  /**
   * Pixel index of (x, y) as the export loop computes it: rows taken
   * `height` pixels apart, which is the right stride only on square maps.
   */
  function PixelIndexAsWritten(width: int, height: int, x: int, y: int): (i: int)
    ensures width == height ==> i == PixelIndex(width, x, y)
  {
    y * height + x
  }

  /**
   * On a map wider than it is high, the stride as written sends cells
   * (0, 1) and (height, 0), both inside the grid and distinct, to the same
   * pixel; with the width as stride their pixels differ.
   */
  lemma AsWrittenStrideCollides(width: int, height: int)
    requires IsPowerOfTwo(width) && IsPowerOfTwo(height) && width > height >= 2
    ensures 0 <= height < width && 0 <= 1 < height
    ensures PixelIndexAsWritten(width, height, 0, 1) == PixelIndexAsWritten(width, height, height, 0)
    ensures PixelIndex(width, 0, 1) != PixelIndex(width, height, 0)
  {
  }

  /**
   * On a map higher than it is wide, the stride as written sends the last
   * cell (width - 1, height - 1) past the end of the width * height pixels.
   */
  lemma AsWrittenStrideOverruns(width: int, height: int)
    requires IsPowerOfTwo(width) && IsPowerOfTwo(height) && height > width
    ensures PixelIndexAsWritten(width, height, width - 1, height - 1) >= width * height
  {
    PowerOfTwoParity(width);
    var h, w := height, width;
    assert (h - 1) * h + (w - 1) - w * h == (h - 1) * (h - w) - 1;
    MultipleAwayFromZero(h - w, h - 1);
  }

  /**
   * With the width as row stride, the pixel of every cell inside the grid
   * is that cell's sample index, so distinct cells get distinct pixels and
   * every pixel gets a cell.
   */
  lemma PixelIndexIsCellIndex(width: int, height: int, x: int, y: int)
    requires 0 <= x < width && 0 <= y < height
    ensures PixelIndex(width, x, y) == ToIndex(width, height, x, y)
    ensures 0 <= PixelIndex(width, x, y) < width * height
  {
    ToIndexInBounds(width, height, x, y);
  }
}
