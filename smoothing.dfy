/**
 * The 2×2 block filters. The grid is cut into blocks whose top-left cell
 * has even column and even row; each filter writes the block's mean,
 * maximum or minimum into that cell and leaves the other three alone.
 */
module Smoothing {
  import opened Grid

  datatype Filter = Average | High | Low

  /** The largest of four samples. */
  function Max4(a: real, b: real, c: real, d: real): (m: real)
    ensures a <= m && b <= m && c <= m && d <= m
    ensures m == a || m == b || m == c || m == d
  {
    var ab := if a >= b then a else b;
    var cd := if c >= d then c else d;
    if ab >= cd then ab else cd
  }

  /** The smallest of four samples. */
  function Min4(a: real, b: real, c: real, d: real): (m: real)
    ensures m <= a && m <= b && m <= c && m <= d
    ensures m == a || m == b || m == c || m == d
  {
    var ab := if a <= b then a else b;
    var cd := if c <= d then c else d;
    if ab <= cd then ab else cd
  }

  /** What a filter makes of one block; every filter stays within the block's range. */
  function Aggregate(filter: Filter, a: real, b: real, c: real, d: real): (v: real)
    ensures Min4(a, b, c, d) <= v <= Max4(a, b, c, d)
  {
    match filter
    case Average => (a + b + c + d) / 4.0
    case High => Max4(a, b, c, d)
    case Low => Min4(a, b, c, d)
  }

  /** Sample index i is the top-left cell of a block: even column and even row. */
  predicate IsBlockCorner(width: int, i: int)
    requires width > 0
  {
    (i % width) % 2 == 0 && (i / width) % 2 == 0
  }

  /**
   * The filtered value of the block whose top-left cell is (x, y), read in
   * the order (x, y), (x, y + 1), (x + 1, y), (x + 1, y + 1) with wrap-around.
   */
  function BlockValue(s: seq<real>, width: int, height: int, filter: Filter, x: int, y: int): (v: real)
    requires width > 0 && height > 0 && |s| == width * height
    ensures var a, b, c, d := s[ToIndex(width, height, x, y)], s[ToIndex(width, height, x, y + 1)],
                              s[ToIndex(width, height, x + 1, y)], s[ToIndex(width, height, x + 1, y + 1)];
            && Min4(a, b, c, d) <= v <= Max4(a, b, c, d)
            && (filter == High ==> a <= v && b <= v && c <= v && d <= v)
            && (filter == Low ==> v <= a && v <= b && v <= c && v <= d)
  {
    Aggregate(filter,
      s[ToIndex(width, height, x, y)],
      s[ToIndex(width, height, x, y + 1)],
      s[ToIndex(width, height, x + 1, y)],
      s[ToIndex(width, height, x + 1, y + 1)])
  }

  /** The samples after one filter pass: block corners replaced, every other cell kept. */
  function Smoothed(s: seq<real>, width: int, height: int, filter: Filter): (r: seq<real>)
    requires width > 0 && height > 0 && |s| == width * height
    ensures |r| == |s|
  {
    seq(|s|, i requires 0 <= i < |s| =>
      if IsBlockCorner(width, i) then BlockValue(s, width, height, filter, i % width, i / width) else s[i])
  }

  /** Cell by cell: an even-even cell gets its block's value, every other cell keeps its sample. */
  lemma SmoothedAt(s: seq<real>, width: int, height: int, filter: Filter, x: int, y: int)
    requires width > 0 && height > 0 && |s| == width * height
    requires 0 <= x < width && 0 <= y < height
    ensures Smoothed(s, width, height, filter)[ToIndex(width, height, x, y)]
         == if x % 2 == 0 && y % 2 == 0 then BlockValue(s, width, height, filter, x, y)
            else s[ToIndex(width, height, x, y)]
  {
    ToIndexInBounds(width, height, x, y);
    CellOf(width, x, y);
  }

  /**
   * On a grid of even width and height (a power-of-two grid at least 2×2) no block wraps: the other three
   * cells of block (x, y) are the next sample, the sample one row up and
   * the one after that, and the corner becomes the filter of those four
   * samples of the unfiltered grid.
   */
  lemma SmoothedBlock(s: seq<real>, width: int, height: int, filter: Filter, x: int, y: int)
    requires width >= 2 && height >= 2 && width % 2 == 0 && height % 2 == 0
    requires |s| == width * height
    requires 0 <= x < width && 0 <= y < height && x % 2 == 0 && y % 2 == 0
    ensures var c := ToIndex(width, height, x, y);
            && ToIndex(width, height, x + 1, y) == c + 1
            && ToIndex(width, height, x, y + 1) == c + width
            && ToIndex(width, height, x + 1, y + 1) == c + width + 1
    ensures var c := ToIndex(width, height, x, y);
            Smoothed(s, width, height, filter)[c]
            == Aggregate(filter, s[c], s[c + width], s[c + 1], s[c + width + 1])
  {
    NeighbourIndices(width, height, x, y);
    SmoothedAt(s, width, height, filter, x, y);
  }

  /** Away from the last column and row, the right and upper neighbours are one sample and one row on. */
  lemma NeighbourIndices(width: int, height: int, x: int, y: int)
    requires 0 <= x && x + 1 < width && 0 <= y && y + 1 < height
    ensures var c := ToIndex(width, height, x, y);
            && ToIndex(width, height, x + 1, y) == c + 1
            && ToIndex(width, height, x, y + 1) == c + width
            && ToIndex(width, height, x + 1, y + 1) == c + width + 1
  {
    ToIndexInBounds(width, height, x, y);
    ToIndexInBounds(width, height, x, y + 1);
    ToIndexInBounds(width, height, x + 1, y);
    ToIndexInBounds(width, height, x + 1, y + 1);
    assert (y + 1) * width == y * width + width;
  }

  /** SmoothHigh never lowers a cell: each corner becomes at least its own old value. */
  lemma HighNeverLowers(s: seq<real>, width: int, height: int)
    requires width > 0 && height > 0 && |s| == width * height
    ensures forall i :: 0 <= i < |s| ==> Smoothed(s, width, height, High)[i] >= s[i]
  {
    forall i | 0 <= i < |s|
      ensures Smoothed(s, width, height, High)[i] >= s[i]
    {
      IndexToCell(width, height, i);
    }
  }

  /** SmoothLow never raises a cell: each corner becomes at most its own old value. */
  lemma LowNeverRaises(s: seq<real>, width: int, height: int)
    requires width > 0 && height > 0 && |s| == width * height
    ensures forall i :: 0 <= i < |s| ==> Smoothed(s, width, height, Low)[i] <= s[i]
  {
    forall i | 0 <= i < |s|
      ensures Smoothed(s, width, height, Low)[i] <= s[i]
    {
      IndexToCell(width, height, i);
    }
  }

  /** A step of 0 or 1 from an even coordinate, wrapped, stays put or lands on an odd coordinate. */
  lemma StepFromEven(x: int, dx: int, n: int)
    requires n >= 1 && (n == 1 || n % 2 == 0)
    requires 0 <= x < n && x % 2 == 0 && 0 <= dx <= 1
    ensures 0 <= (x + dx) % n < n
    ensures (x + dx) % n == x || (x + dx) % n % 2 == 1
  {
    if dx == 0 {
      DivModUnique(x, n, 0, x);
    } else if n == 1 {
      DivModUnique(x + 1, n, x + 1, 0);
    } else {
      DivModUnique(x + 1, n, 0, x + 1);
    }
  }

  /**
   * A cell the pass over block (x, y) reads is that block's own corner or
   * no corner at all, so no other block's write is ever read.
   */
  lemma BlockReadsNoOtherCorner(width: int, height: int, x: int, y: int, dx: int, dy: int)
    requires IsPowerOfTwo(width) && IsPowerOfTwo(height)
    requires 0 <= x < width && 0 <= y < height && x % 2 == 0 && y % 2 == 0
    requires 0 <= dx <= 1 && 0 <= dy <= 1
    ensures var r := ToIndex(width, height, x + dx, y + dy);
            r == x + y * width || !IsBlockCorner(width, r)
  {
    PowerOfTwoParity(width);
    PowerOfTwoParity(height);
    StepFromEven(x, dx, width);
    StepFromEven(y, dy, height);
    var cx, cy := (x + dx) % width, (y + dy) % height;
    CellOf(width, cx, cy);
  }

  /** The cell just after a block corner in row-major order is not a corner. */
  lemma NextIsNoCorner(width: int, x: int, y: int)
    requires IsPowerOfTwo(width)
    requires 0 <= x < width && x % 2 == 0 && y % 2 == 0
    ensures !IsBlockCorner(width, x + 1 + y * width)
  {
    PowerOfTwoParity(width);
    if x + 1 < width {
      CellOf(width, x + 1, y);
    } else {
      CellOf(width, 0, y + 1);
    }
  }

  /** Cells of an odd row are not corners. */
  lemma OddRowHasNoCorner(width: int, y: int, i: int)
    requires width > 0 && y % 2 == 1
    requires y * width <= i < (y + 1) * width
    ensures !IsBlockCorner(width, i)
  {
    CellOf(width, i - y * width, y);
  }

  /** Every cell that is not a block corner keeps its sample. */
  lemma SmoothedKeepsNonCorners(s: seq<real>, width: int, height: int, filter: Filter)
    requires width > 0 && height > 0 && |s| == width * height
    ensures forall i :: 0 <= i < |s| && !IsBlockCorner(width, i) ==> Smoothed(s, width, height, filter)[i] == s[i]
  {
  }

  /**
   * One block of the row-major sweep: with the cells before (x, y) already
   * final and only corners changing, the four reads of block (x, y) see
   * the unfiltered samples.
   */
  lemma SweepBlockReads(target: seq<real>, s: seq<real>, width: int, height: int, filter: Filter, x: int, y: int)
    requires IsPowerOfTwo(width) && IsPowerOfTwo(height) && |s| == width * height && |target| == |s|
    requires forall i :: 0 <= i < |s| && !IsBlockCorner(width, i) ==> target[i] == s[i]
    requires 0 <= x < width && 0 <= y < height && x % 2 == 0 && y % 2 == 0
    ensures BlockValue(Spliced(target, s, x + y * width), width, height, filter, x, y)
         == BlockValue(s, width, height, filter, x, y)
  {
    var cur := Spliced(target, s, x + y * width);
    var i00, i01 := ToIndex(width, height, x, y), ToIndex(width, height, x, y + 1);
    var i10, i11 := ToIndex(width, height, x + 1, y), ToIndex(width, height, x + 1, y + 1);
    SweepReadUnfiltered(target, s, width, height, x, y, 0, 0);
    SweepReadUnfiltered(target, s, width, height, x, y, 0, 1);
    SweepReadUnfiltered(target, s, width, height, x, y, 1, 0);
    SweepReadUnfiltered(target, s, width, height, x, y, 1, 1);
    calc {
      BlockValue(cur, width, height, filter, x, y);
      Aggregate(filter, cur[i00], cur[i01], cur[i10], cur[i11]);
      Aggregate(filter, s[i00], s[i01], s[i10], s[i11]);
      BlockValue(s, width, height, filter, x, y);
    }
  }

  /** A single read of the block at (x, y) sees the unfiltered sample. */
  lemma SweepReadUnfiltered(target: seq<real>, s: seq<real>, width: int, height: int, x: int, y: int, dx: int, dy: int)
    requires IsPowerOfTwo(width) && IsPowerOfTwo(height) && |s| == width * height && |target| == |s|
    requires forall i :: 0 <= i < |s| && !IsBlockCorner(width, i) ==> target[i] == s[i]
    requires 0 <= x < width && 0 <= y < height && x % 2 == 0 && y % 2 == 0
    requires 0 <= dx <= 1 && 0 <= dy <= 1
    ensures Spliced(target, s, x + y * width)[ToIndex(width, height, x + dx, y + dy)]
         == s[ToIndex(width, height, x + dx, y + dy)]
  {
    BlockReadsNoOtherCorner(width, height, x, y, dx, dy);
  }

  /**
   * Writing a corner's final value finishes both the corner and the cell
   * after it, which is no corner.
   */
  lemma SweepBlockWrite(target: seq<real>, s: seq<real>, width: int, height: int, x: int, y: int)
    requires IsPowerOfTwo(width) && IsPowerOfTwo(height) && |s| == width * height && |target| == |s|
    requires forall i :: 0 <= i < |s| && !IsBlockCorner(width, i) ==> target[i] == s[i]
    requires 0 <= x < width && 0 <= y < height && x % 2 == 0 && y % 2 == 0
    ensures var n := x + y * width;
            0 <= n < |s| && Spliced(target, s, n)[n := target[n]] == Spliced(target, s, n + 2)
  {
    var n := x + y * width;
    ToIndexInBounds(width, height, x, y);
    SplicedStep(target, s, n);
    NextIsNoCorner(width, x, y);
    SplicedSkip(target, s, n + 1, n + 2);
  }

  /**
   * The samples when the row-major sweep has reached block column x of
   * block row y: every cell before (x, y) final, every other cell as it was.
   */
  function SweptTo(s: seq<real>, width: int, height: int, filter: Filter, x: int, y: int): (r: seq<real>)
    requires width > 0 && height > 0 && |s| == width * height
    ensures |r| == |s|
  {
    Spliced(Smoothed(s, width, height, filter), s, x + y * width)
  }

  /** The sweep starts from the unfiltered samples and ends at the filtered ones. */
  lemma SweptToEnds(s: seq<real>, width: int, height: int, filter: Filter, y: int)
    requires width > 0 && height > 0 && |s| == width * height
    ensures SweptTo(s, width, height, filter, 0, 0) == s
    ensures y >= height ==> SweptTo(s, width, height, filter, 0, y) == Smoothed(s, width, height, filter)
  {
    SplicedEnds(Smoothed(s, width, height, filter), s, 0);
    if y >= height {
      RowsCovered(width, height, y);
      SplicedEnds(Smoothed(s, width, height, filter), s, y * width);
    }
  }

  /**
   * The end of a row of blocks: the row above holds no corner, so the sweep
   * moves on to the next even row with nothing written.
   */
  lemma SweepRowEnd(s: seq<real>, width: int, height: int, filter: Filter, x: int, y: int)
    requires IsPowerOfTwo(width) && height > 0 && |s| == width * height
    requires width <= x <= width + 1 && x % 2 == 0 && y % 2 == 0
    ensures SweptTo(s, width, height, filter, x, y) == SweptTo(s, width, height, filter, 0, y + 2)
  {
    SmoothedKeepsNonCorners(s, width, height, filter);
    RowEndColumn(width, x);
    SkipOddRow(Smoothed(s, width, height, filter), s, width, height, x, y);
  }

  /** Cells from the end of an even row to the end of the odd row above it are no corners: the sweep skips them. */
  lemma SkipOddRow(target: seq<real>, s: seq<real>, width: int, height: int, x: int, y: int)
    requires width > 0 && height > 0 && |s| == width * height && |target| == |s|
    requires forall i :: 0 <= i < |s| && !IsBlockCorner(width, i) ==> target[i] == s[i]
    requires width <= x <= width + 1 && y % 2 == 0 && (x == width || width == 1)
    ensures Spliced(target, s, x + y * width) == Spliced(target, s, 0 + (y + 2) * width)
  {
    forall i | x + y * width <= i < (y + 2) * width && 0 <= i < |s|
      ensures target[i] == s[i]
    {
      OddRowHasNoCorner(width, y + 1, i);
    }
    SplicedSkip(target, s, x + y * width, (y + 2) * width);
  }

  /** Stepping by two past the last column of a power-of-two row lands just past it, or two past a 1-wide row. */
  lemma RowEndColumn(width: int, x: int)
    requires IsPowerOfTwo(width) && width <= x <= width + 1 && x % 2 == 0
    ensures x == width || width == 1
  {
    PowerOfTwoParity(width);
  }

  /**
   * A whole step of the sweep: writing into the corner of block (x, y) the
   * filter of the block as it stands finishes the corner and the cell
   * after it.
   */
  lemma SweepBlock(s: seq<real>, width: int, height: int, filter: Filter, x: int, y: int)
    requires IsPowerOfTwo(width) && IsPowerOfTwo(height) && |s| == width * height
    requires 0 <= x < width && 0 <= y < height && x % 2 == 0 && y % 2 == 0
    ensures var cur := SweptTo(s, width, height, filter, x, y);
            cur[ToIndex(width, height, x, y) := BlockValue(cur, width, height, filter, x, y)]
            == SweptTo(s, width, height, filter, x + 2, y)
  {
    var target := Smoothed(s, width, height, filter);
    SmoothedKeepsNonCorners(s, width, height, filter);
    SweepBlockReads(target, s, width, height, filter, x, y);
    SweepBlockWrite(target, s, width, height, x, y);
    SmoothedAt(s, width, height, filter, x, y);
    ToIndexInBounds(width, height, x, y);
  }
}
