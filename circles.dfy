/**
 * The circle stamp: every cell strictly inside a circle has a weight added
 * to it, every other cell keeps its sample.
 */
module Circles {
  import opened Grid

  /**
   * Cell (x, y) is strictly inside the circle of the given radius around
   * (h, k): its squared integer distance from the centre is below radius².
   */
  predicate InCircle(radius: real, h: int, k: int, x: int, y: int): (b: bool)
    ensures b ==> radius != 0.0
  {
    ((x - h) * (x - h) + (y - k) * (y - k)) as real < radius * radius
  }

  /** The samples after adding `weight` to every cell inside the circle. */
  function Circled(s: seq<real>, width: int, radius: real, weight: real, h: int, k: int): (r: seq<real>)
    requires width > 0
    ensures |r| == |s|
  {
    seq(|s|, i requires 0 <= i < |s| =>
      if InCircle(radius, h, k, i % width, i / width) then s[i] + weight else s[i])
  }

  /** Cell by cell: inside the circle the old sample plus the weight, outside the old sample. */
  lemma CircledAt(s: seq<real>, width: int, height: int, radius: real, weight: real, h: int, k: int, x: int, y: int)
    requires width > 0 && height > 0 && |s| == width * height
    requires 0 <= x < width && 0 <= y < height
    ensures Circled(s, width, radius, weight, h, k)[ToIndex(width, height, x, y)]
         == if InCircle(radius, h, k, x, y) then s[ToIndex(width, height, x, y)] + weight
            else s[ToIndex(width, height, x, y)]
  {
    ToIndexInBounds(width, height, x, y);
    CellOf(width, x, y);
  }

  /** On an all-zero grid the circle's cells hold exactly the weight and every other cell stays 0. */
  lemma CircleOnZeroGrid(s: seq<real>, width: int, height: int, radius: real, weight: real, h: int, k: int, x: int, y: int)
    requires width > 0 && height > 0 && |s| == width * height
    requires forall i :: 0 <= i < |s| ==> s[i] == 0.0
    requires 0 <= x < width && 0 <= y < height
    ensures Circled(s, width, radius, weight, h, k)[ToIndex(width, height, x, y)]
         == if InCircle(radius, h, k, x, y) then weight else 0.0
  {
    CircledAt(s, width, height, radius, weight, h, k, x, y);
  }

  /** A circle of radius 0 contains no cell, so the stamp changes nothing. */
  lemma ZeroRadiusChangesNothing(s: seq<real>, width: int, weight: real, h: int, k: int)
    requires width > 0
    ensures Circled(s, width, 0.0, weight, h, k) == s
  {
  }
}
