/**
 * Addressing of the height map's row-major grid: the power-of-two test on
 * the dimensions, the wrap-around cell index, and the bit-mask arithmetic
 * the index is computed with.
 */
module Grid {

  /** `n` is 2^k for some k >= 0: the test both dimensions must pass. */
  predicate IsPowerOfTwo(n: int): (b: bool)
    ensures b ==> n >= 1
    ensures n == 1 ==> b
  {
    DoublingReaches(1, n)
  }

  /** Doubling `p` zero or more times reaches `n`. */
  predicate DoublingReaches(p: int, n: int): (b: bool)
    requires p >= 1
    ensures b ==> n >= p
    decreases if n > p then n - p else 0
  {
    if n <= p then n == p else DoublingReaches(2 * p, n)
  }

  /** Reaching `n` from 2p by doubling is reaching n / 2 from p, for even `n`. */
  lemma {:induction false} DoublingFromDouble(p: int, n: int)
    requires p >= 1
    ensures DoublingReaches(2 * p, n) == (n % 2 == 0 && DoublingReaches(p, n / 2))
    decreases if n > p then n - p else 0
  {
    if n <= 2 * p {
      if n % 2 == 0 {
        DivModUnique(n, 2, n / 2, 0);
      }
    } else {
      DoublingFromDouble(2 * p, n);
      if n % 2 == 0 {
        DivModUnique(n, 2, n / 2, 0);
      }
    }
  }

  /** A power of two is 1, or an even number whose half is a power of two. */
  lemma PowerOfTwoStep(n: int)
    ensures IsPowerOfTwo(n) == (n == 1 || (n >= 2 && n % 2 == 0 && IsPowerOfTwo(n / 2)))
  {
    if n > 1 {
      DoublingFromDouble(1, n);
    }
  }

  /** A power of two is positive, and it is 1 or even. */
  lemma PowerOfTwoParity(n: int)
    requires IsPowerOfTwo(n)
    ensures n >= 1 && (n == 1 || n % 2 == 0)
  {
    PowerOfTwoStep(n);
  }

  /**
   * `x & mask` on two's-complement integers for a non-negative mask, taken
   * bit by bit from the least significant end: Euclidean `x % 2` is the low
   * bit and `x / 2` the arithmetic right shift, also for negative `x`.
   */
  function BitAnd(x: int, mask: int): (r: int)
    requires mask >= 0
    ensures 0 <= r <= mask
    decreases mask
  {
    if mask == 0 then 0
    else (if x % 2 == 1 && mask % 2 == 1 then 1 else 0) + 2 * BitAnd(x / 2, mask / 2)
  }

  /** A non-zero multiple of a positive `d` is at least `d` away from zero. */
  lemma MultipleAwayFromZero(k: int, d: int)
    requires d > 0
    ensures k >= 1 ==> k * d >= d
    ensures k <= -1 ==> k * d <= -d
  {
  }

  /** Euclidean division is determined by any quotient and in-range remainder. */
  lemma DivModUnique(n: int, d: int, q: int, r: int)
    requires 0 < d && 0 <= r < d && n == q * d + r
    ensures n / d == q && n % d == r
  {
    var q0, r0 := n / d, n % d;
    assert (q - q0) * d == r0 - r;
    MultipleAwayFromZero(q - q0, d);
  }

  /** Splitting off the low bit: the remainder modulo 2m from the remainder of the half modulo m. */
  lemma ModOfDouble(x: int, m: int)
    requires m > 0
    ensures x % (2 * m) == x % 2 + 2 * ((x / 2) % m)
  {
    var q, b := x / 2, x % 2;
    var t, r := q / m, q % m;
    assert x == t * (2 * m) + (2 * r + b) by {
      assert x == 2 * q + b;
      assert q == t * m + r;
    }
    DivModUnique(x, 2 * m, t, 2 * r + b);
  }

  /** Masking with `n - 1` keeps exactly the remainder modulo a power of two `n`. */
  lemma {:induction false} MaskIsMod(x: int, n: int)
    requires IsPowerOfTwo(n)
    ensures BitAnd(x, n - 1) == x % n
    decreases n
  {
    PowerOfTwoStep(n);
    if n > 1 {
      var m := n / 2;
      MaskIsMod(x / 2, m);
      assert (n - 1) % 2 == 1 && (n - 1) / 2 == m - 1;
      ModOfDouble(x, m);
      assert n == 2 * m;
    }
  }

  /** A cell inside the grid has its row-major index inside the sample array. */
  lemma CellInRange(width: int, height: int, x: int, y: int)
    requires 0 <= x < width && 0 <= y < height
    ensures 0 <= x + y * width < width * height
  {
    assert y * width <= (height - 1) * width;
  }

  /**
   * The sample index of cell (x, y): both coordinates wrap around their
   * dimension, and rows are `width` samples apart.
   */
  function ToIndex(width: int, height: int, x: int, y: int): (i: int)
    requires width > 0 && height > 0
    ensures 0 <= i < width * height
  {
    CellInRange(width, height, x % width, y % height);
    x % width + (y % height) * width
  }

  /** For power-of-two dimensions the index equals the bit-mask formula. */
  lemma ToIndexIsBitMask(width: int, height: int, x: int, y: int)
    requires IsPowerOfTwo(width) && IsPowerOfTwo(height)
    ensures ToIndex(width, height, x, y) == BitAnd(x, width - 1) + BitAnd(y, height - 1) * width
  {
    MaskIsMod(x, width);
    MaskIsMod(y, height);
  }

  /** Inside the grid no wrapping happens: the index is plain row-major. */
  lemma ToIndexInBounds(width: int, height: int, x: int, y: int)
    requires 0 <= x < width && 0 <= y < height
    ensures ToIndex(width, height, x, y) == x + y * width
  {
    DivModUnique(x, width, 0, x);
    DivModUnique(y, height, 0, y);
  }

  /** A row-major index gives back its column and row. */
  lemma CellOf(width: int, x: int, y: int)
    requires 0 <= x < width
    ensures (x + y * width) / width == y && (x + y * width) % width == x
  {
    DivModUnique(x + y * width, width, y, x);
  }

  /** Every sample index is the index of the cell (i % width, i / width) inside the grid. */
  lemma IndexToCell(width: int, height: int, i: int)
    requires width > 0 && height > 0 && 0 <= i < width * height
    ensures 0 <= i % width < width && 0 <= i / width < height
    ensures ToIndex(width, height, i % width, i / width) == i
  {
    var q, r := i / width, i % width;
    assert i == q * width + r;
    assert q * width < height * width;
    assert q < height;
    ToIndexInBounds(width, height, r, q);
  }

  /** Distinct cells inside the grid have distinct indices. */
  lemma ToIndexInjective(width: int, height: int, x1: int, y1: int, x2: int, y2: int)
    requires 0 <= x1 < width && 0 <= y1 < height
    requires 0 <= x2 < width && 0 <= y2 < height
    requires ToIndex(width, height, x1, y1) == ToIndex(width, height, x2, y2)
    ensures x1 == x2 && y1 == y2
  {
    ToIndexInBounds(width, height, x1, y1);
    ToIndexInBounds(width, height, x2, y2);
    CellOf(width, x1, y1);
    CellOf(width, x2, y2);
  }

  /** One full width to the right is the same cell. */
  lemma ToIndexWrapsX(width: int, height: int, x: int, y: int)
    requires width > 0 && height > 0
    ensures ToIndex(width, height, x + width, y) == ToIndex(width, height, x, y)
  {
    DivModUnique(x + width, width, x / width + 1, x % width);
  }

  /** One full height further up is the same cell. */
  lemma ToIndexWrapsY(width: int, height: int, x: int, y: int)
    requires width > 0 && height > 0
    ensures ToIndex(width, height, x, y + height) == ToIndex(width, height, x, y)
  {
    DivModUnique(y + height, height, y / height + 1, y % height);
  }

  /**
   * A row-major sweep part-way through: the first n samples as they will
   * end up, the rest as they were.
   */
  function Spliced<T>(done: seq<T>, rest: seq<T>, n: int): (r: seq<T>)
    requires |done| == |rest|
    ensures |r| == |rest|
  {
    seq(|rest|, i requires 0 <= i < |rest| => if i < n then done[i] else rest[i])
  }

  /** Before the sweep nothing is done; after it everything is. */
  lemma SplicedEnds<T>(done: seq<T>, rest: seq<T>, n: int)
    requires |done| == |rest|
    ensures n <= 0 ==> Spliced(done, rest, n) == rest
    ensures n >= |rest| ==> Spliced(done, rest, n) == done
  {
  }

  /**
   * Writing the final value of sample n advances the sweep by one; a sample
   * whose final value is its old one advances it without a write.
   */
  lemma SplicedStep<T>(done: seq<T>, rest: seq<T>, n: int)
    requires |done| == |rest| && 0 <= n < |rest|
    ensures Spliced(done, rest, n)[n] == rest[n]
    ensures Spliced(done, rest, n)[n := done[n]] == Spliced(done, rest, n + 1)
    ensures done[n] == rest[n] ==> Spliced(done, rest, n) == Spliced(done, rest, n + 1)
  {
  }

  /** The sweep may pass over any stretch of samples whose final value is their old one. */
  lemma SplicedSkip<T>(done: seq<T>, rest: seq<T>, a: int, b: int)
    requires |done| == |rest| && a <= b
    requires forall i :: a <= i < b && 0 <= i < |rest| ==> done[i] == rest[i]
    ensures Spliced(done, rest, a) == Spliced(done, rest, b)
  {
  }

  /** Once the row counter has reached the height, every sample has been passed. */
  lemma RowsCovered(width: int, height: int, y: int)
    requires width > 0 && y >= height
    ensures y * width >= width * height
  {
    assert y * width == height * width + (y - height) * width;
  }

  /** Stepping an even coordinate by two keeps it even. */
  lemma EvenStep(x: int)
    requires x % 2 == 0
    ensures (x + 2) % 2 == 0
  {
    DivModUnique(x, 2, x / 2, 0);
    DivModUnique(x + 2, 2, x / 2 + 1, 0);
  }
}
