/**
 * Edge fading: four passes, bottom, top, left and right, each multiplying
 * the cells of a band of lines (rows or columns) near one edge by a ramp
 * that grows by 1/distance per line inward. The bottom and left ramps are 0
 * on the outermost line; the top and right ramps are already 1/distance there.
 * The bottom ramp is further multiplied by a sine ripple along the row.
 */
module Fading {
  import opened Grid

  datatype Band = Bottom | Top | Left | Right {
    /** Bottom and top bands are made of rows, left and right bands of columns. */
    predicate IsRowBand() {
      this == Bottom || this == Top
    }
  }

  /** Sample index i lies on line `line` of the band: that row, or that column, after wrapping. */
  predicate OnLine(width: int, height: int, band: Band, i: int, line: int)
    requires width > 0 && height > 0
  {
    if band.IsRowBand() then i / width == line % height else i % width == line % width
  }

  /** Where sample index i lies along a line of the band: its column on a row, its row on a column. */
  function Along(width: int, band: Band, i: int): int
    requires width > 0
  {
    if band.IsRowBand() then i % width else i / width
  }

  /** The number of cells on one line of the band. */
  function LineLength(width: int, height: int, band: Band): int
  {
    if band.IsRowBand() then width else height
  }

  /** The sample index of the cell at position `pos` on line `line` of the band. */
  function LineCell(width: int, height: int, band: Band, line: int, pos: int): int
    requires width > 0 && height > 0
  {
    if band.IsRowBand() then ToIndex(width, height, pos, line) else ToIndex(width, height, line, pos)
  }

  /** The bottom band's ripple, sin(x) / 2 + 0.5, for a given sine of the column. */
  function Ripple(sin: int -> real, x: int): (r: real)
    ensures -1.0 <= sin(x) <= 1.0 ==> 0.0 <= r <= 1.0
  {
    sin(x) / 2.0 + 0.5
  }

  /** The factor a band's pass applies to the cell at position `pos` of line `line`. */
  function Factor(width: int, height: int, band: Band, distance: int, sin: int -> real, line: int, pos: int): real
    requires distance > 0
  {
    match band
    case Bottom => (line as real / distance as real) * Ripple(sin, pos)
    case Top => (height as real - line as real) / distance as real
    case Left => line as real / distance as real
    case Right => (width as real - line as real) / distance as real
  }

  /**
   * The ramps: the bottom and left factors are 0 on line 0, and on every
   * line of its band each factor lies in [0, 1] (the bottom one for a sine
   * in [-1, 1]).
   */
  lemma FactorInUnit(width: int, height: int, band: Band, distance: int, sin: int -> real, line: int, pos: int)
    requires distance > 0
    ensures (band == Bottom || band == Left) && line == 0 ==> Factor(width, height, band, distance, sin, line, pos) == 0.0
    ensures band == Bottom && 0 <= line <= distance && -1.0 <= sin(pos) <= 1.0
            ==> 0.0 <= Factor(width, height, band, distance, sin, line, pos) <= 1.0
    ensures band == Top && height - distance <= line <= height ==> 0.0 <= Factor(width, height, band, distance, sin, line, pos) <= 1.0
    ensures band == Left && 0 <= line <= distance ==> 0.0 <= Factor(width, height, band, distance, sin, line, pos) <= 1.0
    ensures band == Right && width - distance <= line <= width ==> 0.0 <= Factor(width, height, band, distance, sin, line, pos) <= 1.0
  {
    match band
    case Bottom =>
      if 0 <= line <= distance && -1.0 <= sin(pos) <= 1.0 {
        RampInUnit(line, distance);
        ProductInUnit(line as real / distance as real, Ripple(sin, pos));
      }
    case Top =>
      if height - distance <= line <= height {
        RampInUnit(height - line, distance);
      }
    case Left =>
      if 0 <= line <= distance {
        RampInUnit(line, distance);
      }
    case Right =>
      if width - distance <= line <= width {
        RampInUnit(width - line, distance);
      }
  }

  /**
   * The outermost line of each band: 0 for the bottom and left passes, but
   * 1 / distance for the top and right passes, whose ramps start one line
   * beyond the grid.
   */
  lemma OuterLineFactors(width: int, height: int, distance: int, sin: int -> real, pos: int)
    requires distance > 0
    ensures Factor(width, height, Bottom, distance, sin, 0, pos) == 0.0
    ensures Factor(width, height, Left, distance, sin, 0, pos) == 0.0
    ensures Factor(width, height, Top, distance, sin, height - 1, pos) == 1.0 / distance as real
    ensures Factor(width, height, Right, distance, sin, width - 1, pos) == 1.0 / distance as real
  {
    assert height as real - (height - 1) as real == 1.0;
    assert width as real - (width - 1) as real == 1.0;
  }

  /** k / d lies in [0, 1] for 0 <= k <= d. */
  lemma RampInUnit(k: int, d: int)
    requires 0 <= k <= d && d > 0
    ensures 0.0 <= k as real / d as real <= 1.0
  {
  }

  /** The product of two non-negative reals is non-negative. */
  lemma NonNegativeProduct(a: real, b: real)
    requires 0.0 <= a && 0.0 <= b
    ensures 0.0 <= a * b
  {
  }

  /** The product of two numbers in [0, 1] is in [0, 1]. */
  lemma ProductInUnit(a: real, b: real)
    requires 0.0 <= a <= 1.0 && 0.0 <= b <= 1.0
    ensures 0.0 <= a * b <= 1.0
  {
    NonNegativeProduct(a, b);
    NonNegativeProduct(a, 1.0 - b);
    assert a * (1.0 - b) == a - a * b;
  }

  /** A sample at position `pos` of line `line` multiplied by its factor. */
  function ScaledSample(v: real, width: int, height: int, band: Band, distance: int, sin: int -> real, line: int, pos: int): real
    requires distance > 0
  {
    v * Factor(width, height, band, distance, sin, line, pos)
  }

  /** The samples after one line of a band is multiplied through. */
  function LineScaled(s: seq<real>, width: int, height: int, band: Band, distance: int, sin: int -> real, line: int): (r: seq<real>)
    requires width > 0 && height > 0 && distance > 0
    ensures |r| == |s|
  {
    seq(|s|, i requires 0 <= i < |s| =>
      if OnLine(width, height, band, i, line)
      then ScaledSample(s[i], width, height, band, distance, sin, line, Along(width, band, i))
      else s[i])
  }

  /** The samples after lines lo, lo + 1, ..., hi - 1 of a band are multiplied through, in that order. */
  function Faded(s: seq<real>, width: int, height: int, band: Band, distance: int, sin: int -> real, lo: int, hi: int): (r: seq<real>)
    requires width > 0 && height > 0
    requires lo < hi ==> distance > 0
    ensures |r| == |s|
    decreases hi - lo
  {
    if hi <= lo then s
    else LineScaled(Faded(s, width, height, band, distance, sin, lo, hi - 1), width, height, band, distance, sin, hi - 1)
  }

  /** The samples after the four passes: bottom rows, top rows, left columns, right columns. */
  function EdgesFaded(s: seq<real>, width: int, height: int, distance: int, sin: int -> real): (r: seq<real>)
    requires width > 0 && height > 0
    ensures |r| == |s|
  {
    var bottom := Faded(s, width, height, Bottom, distance, sin, 0, distance);
    var top := Faded(bottom, width, height, Top, distance, sin, height - distance, height);
    var left := Faded(top, width, height, Left, distance, sin, 0, distance);
    Faded(left, width, height, Right, distance, sin, width - distance, width)
  }

  /** The cell at position `pos` of a line lies on that line at that position, and it is the only one. */
  lemma LineCellOnLine(width: int, height: int, band: Band, line: int, pos: int)
    requires width > 0 && height > 0 && 0 <= pos < LineLength(width, height, band)
    ensures var j := LineCell(width, height, band, line, pos);
            OnLine(width, height, band, j, line) && Along(width, band, j) == pos
    ensures forall i :: 0 <= i < width * height && OnLine(width, height, band, i, line) && Along(width, band, i) == pos
                        ==> i == LineCell(width, height, band, line, pos)
  {
    forall i | 0 <= i < width * height
      ensures ToIndex(width, height, i % width, i / width) == i
    {
      IndexToCell(width, height, i);
    }
    if band.IsRowBand() {
      ToIndexInBounds(width, height, pos, line % height);
      CellOf(width, pos, line % height);
      DivModUnique(line % height, height, 0, line % height);
    } else {
      ToIndexInBounds(width, height, line % width, pos);
      CellOf(width, line % width, pos);
      DivModUnique(line % width, width, 0, line % width);
    }
  }

  /** Every sample lies on one of the band's lines at a position inside the line. */
  lemma AlongInLine(width: int, height: int, band: Band, i: int)
    requires width > 0 && height > 0 && 0 <= i < width * height
    ensures 0 <= Along(width, band, i) < LineLength(width, height, band)
  {
    IndexToCell(width, height, i);
  }

  /** A pass over lines none of which holds cell i leaves cell i alone. */
  lemma {:induction false} FadedOffLines(s: seq<real>, width: int, height: int, band: Band, distance: int, sin: int -> real, lo: int, hi: int, i: int)
    requires width > 0 && height > 0
    requires lo < hi ==> distance > 0
    requires 0 <= i < |s|
    requires forall line :: lo <= line < hi ==> !OnLine(width, height, band, i, line)
    ensures Faded(s, width, height, band, distance, sin, lo, hi)[i] == s[i]
    decreases hi - lo
  {
    if lo < hi {
      FadedOffLines(s, width, height, band, distance, sin, lo, hi - 1, i);
    }
  }

  /** Passes only multiply, so a zero sample stays zero. */
  lemma {:induction false} FadedKeepsZero(s: seq<real>, width: int, height: int, band: Band, distance: int, sin: int -> real, lo: int, hi: int, i: int)
    requires width > 0 && height > 0
    requires lo < hi ==> distance > 0
    requires 0 <= i < |s| && s[i] == 0.0
    ensures Faded(s, width, height, band, distance, sin, lo, hi)[i] == 0.0
    decreases hi - lo
  {
    if lo < hi {
      FadedKeepsZero(s, width, height, band, distance, sin, lo, hi - 1, i);
    }
  }

  /** The bottom and left passes start at line 0, whose factor is 0: that line ends up all zero. */
  lemma {:induction false} FadedZeroesFirstLine(s: seq<real>, width: int, height: int, band: Band, distance: int, sin: int -> real, hi: int, i: int)
    requires width > 0 && height > 0 && distance > 0
    requires band == Bottom || band == Left
    requires 0 < hi && 0 <= i < |s| && OnLine(width, height, band, i, 0)
    ensures Faded(s, width, height, band, distance, sin, 0, hi)[i] == 0.0
    decreases hi
  {
    if hi > 1 {
      FadedZeroesFirstLine(s, width, height, band, distance, sin, hi - 1, i);
    }
  }

  /** With a distance of 0 or less every pass is empty and the grid is unchanged. */
  lemma FadeWithoutDistance(s: seq<real>, width: int, height: int, distance: int, sin: int -> real)
    requires width > 0 && height > 0 && distance <= 0
    ensures EdgesFaded(s, width, height, distance, sin) == s
  {
  }

  /** With a positive distance every cell of column 0 and of row 0 ends up 0. */
  lemma FadeZeroesOuterEdges(s: seq<real>, width: int, height: int, distance: int, sin: int -> real, x: int, y: int)
    requires width > 0 && height > 0 && |s| == width * height && distance > 0
    requires 0 <= x < width && 0 <= y < height && (x == 0 || y == 0)
    ensures EdgesFaded(s, width, height, distance, sin)[ToIndex(width, height, x, y)] == 0.0
  {
    var i := ToIndex(width, height, x, y);
    ToIndexInBounds(width, height, x, y);
    CellOf(width, x, y);
    var bottom := Faded(s, width, height, Bottom, distance, sin, 0, distance);
    var top := Faded(bottom, width, height, Top, distance, sin, height - distance, height);
    var left := Faded(top, width, height, Left, distance, sin, 0, distance);
    if y == 0 {
      FadedZeroesFirstLine(s, width, height, Bottom, distance, sin, distance, i);
      FadedKeepsZero(bottom, width, height, Top, distance, sin, height - distance, height, i);
      FadedKeepsZero(top, width, height, Left, distance, sin, 0, distance, i);
    } else {
      FadedZeroesFirstLine(top, width, height, Left, distance, sin, distance, i);
    }
    FadedKeepsZero(left, width, height, Right, distance, sin, width - distance, width, i);
  }

  /** A cell at least `distance` lines away from every edge is left unchanged. */
  lemma FadeKeepsInterior(s: seq<real>, width: int, height: int, distance: int, sin: int -> real, x: int, y: int)
    requires width > 0 && height > 0 && |s| == width * height
    requires 0 <= x < width && 0 <= y < height
    requires distance <= x < width - distance && distance <= y < height - distance
    ensures EdgesFaded(s, width, height, distance, sin)[ToIndex(width, height, x, y)]
         == s[ToIndex(width, height, x, y)]
  {
    var i := ToIndex(width, height, x, y);
    ToIndexInBounds(width, height, x, y);
    CellOf(width, x, y);
    var bottom := Faded(s, width, height, Bottom, distance, sin, 0, distance);
    var top := Faded(bottom, width, height, Top, distance, sin, height - distance, height);
    var left := Faded(top, width, height, Left, distance, sin, 0, distance);
    forall line | 0 <= line < distance
      ensures !OnLine(width, height, Bottom, i, line) && !OnLine(width, height, Left, i, line)
    {
      DivModUnique(line, height, 0, line);
      DivModUnique(line, width, 0, line);
    }
    forall line | height - distance <= line < height
      ensures !OnLine(width, height, Top, i, line)
    {
      DivModUnique(line, height, 0, line);
    }
    forall line | width - distance <= line < width
      ensures !OnLine(width, height, Right, i, line)
    {
      DivModUnique(line, width, 0, line);
    }
    FadedOffLines(s, width, height, Bottom, distance, sin, 0, distance, i);
    FadedOffLines(bottom, width, height, Top, distance, sin, height - distance, height, i);
    FadedOffLines(top, width, height, Left, distance, sin, 0, distance, i);
    FadedOffLines(left, width, height, Right, distance, sin, width - distance, width, i);
  }

  /** One line of a band multiplied through up to (not including) position `pos`. */
  function LinePartlyScaled(s: seq<real>, width: int, height: int, band: Band, distance: int, sin: int -> real, line: int, pos: int): (r: seq<real>)
    requires width > 0 && height > 0 && distance > 0
    ensures |r| == |s|
  {
    seq(|s|, i requires 0 <= i < |s| =>
      if OnLine(width, height, band, i, line) && Along(width, band, i) < pos
      then ScaledSample(s[i], width, height, band, distance, sin, line, Along(width, band, i))
      else s[i])
  }

  /** At position 0 nothing on the line has been scaled yet. */
  lemma LinePartlyScaledStart(s: seq<real>, width: int, height: int, band: Band, distance: int, sin: int -> real, line: int)
    requires width > 0 && height > 0 && distance > 0
    ensures LinePartlyScaled(s, width, height, band, distance, sin, line, 0) == s
  {
    var r := LinePartlyScaled(s, width, height, band, distance, sin, line, 0);
    forall i | 0 <= i < |s|
      ensures r[i] == s[i]
    {
      assert !(Along(width, band, i) < 0);
    }
    assert r == s;
  }

  /** Past the last position the whole line is scaled. */
  lemma LinePartlyScaledEnd(s: seq<real>, width: int, height: int, band: Band, distance: int, sin: int -> real, line: int)
    requires width > 0 && height > 0 && distance > 0 && |s| == width * height
    ensures LinePartlyScaled(s, width, height, band, distance, sin, line, LineLength(width, height, band))
         == LineScaled(s, width, height, band, distance, sin, line)
  {
    forall i | 0 <= i < |s|
      ensures Along(width, band, i) < LineLength(width, height, band)
    {
      AlongInLine(width, height, band, i);
    }
  }

  /**
   * One step along a line: the cell at position `pos` is still unscaled,
   * and multiplying just that cell by its factor scales the line up to
   * position pos + 1.
   */
  lemma LinePartlyScaledStep(s: seq<real>, width: int, height: int, band: Band, distance: int, sin: int -> real, line: int, pos: int)
    requires width > 0 && height > 0 && distance > 0 && |s| == width * height
    requires 0 <= pos < LineLength(width, height, band)
    ensures var j := LineCell(width, height, band, line, pos);
            var before := LinePartlyScaled(s, width, height, band, distance, sin, line, pos);
            && 0 <= j < |s|
            && before[j] == s[j]
            && before[j := ScaledSample(s[j], width, height, band, distance, sin, line, pos)]
               == LinePartlyScaled(s, width, height, band, distance, sin, line, pos + 1)
  {
    var j := LineCell(width, height, band, line, pos);
    var before := LinePartlyScaled(s, width, height, band, distance, sin, line, pos);
    var after := LinePartlyScaled(s, width, height, band, distance, sin, line, pos + 1);
    LineCellOnLine(width, height, band, line, pos);
    forall i | 0 <= i < |s| && i != j
      ensures before[i] == after[i]
    {
      assert OnLine(width, height, band, i, line) ==> Along(width, band, i) != pos;
    }
  }
}
