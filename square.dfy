/**
 * The square-packing model's arithmetic: squares of sizes `N, N-1, .., 2`
 * (index `i` has size `N - i`; the 1x1 square is never placed) are packed
 * into an enclosing square of side `s`. This module keeps the constants, the
 * size of each square, the table of forbidden gaps near the border and the
 * lookup of which placed square covers a grid point.
 */
module SquarePacking {
  import opened Domains
  import opened NoOverlapSpec

  /** The number of squares, the largest being `N` by `N`. */
  const N: int := 10

  /** The sum of all sides: the width of every square set in one row. */
  const SMax: int := (N * (N + 1)) / 2

  /** Bounds of the enclosing side `s` and of each coordinate. */
  const SLo: int := 2 * N - 1
  const SHi: int := SMax
  const CoordLo: int := 0
  const CoordHi: int := SMax - 1

  /** Squares with coordinate variables: all but the 1x1 one. */
  const Squares: int := N - 1

  /** For a square of side `k + 2`, the coordinates `1 .. ForbiddenGaps[k]` leave a gap no square fits. */
  const ForbiddenGaps: seq<int> :=
    [2, 3, 2, 3, 3, 3, 3, 4, 4, 4, 5, 5, 5, 5, 5, 5, 6, 6, 6, 6, 7, 7, 7, 7, 7, 7, 7, 7,
     8, 8, 8, 8, 8, 9, 9, 9, 9, 9, 9, 9, 9, 9, 9, 9, 10]

  /** `sizeOfSquare`: the side of square `i`. */
  function SizeOfSquare(i: int): int {
    N - i
  }

  /** Placed squares run from the largest, `N`, at index 0, down to side 2 at the last index. */
  lemma SizesOfPlacedSquares()
    ensures forall i :: 0 <= i < Squares ==> 2 <= SizeOfSquare(i) <= N
    ensures SizeOfSquare(0) == N && SizeOfSquare(Squares - 1) == 2
    ensures forall i, k :: 0 <= i < k < Squares ==> SizeOfSquare(k) < SizeOfSquare(i)
  {
  }

  /** The sum of the sides of squares `0 .. k-1`. */
  function SumOfSizes(k: nat): int {
    if k == 0 then 0 else SumOfSizes(k - 1) + SizeOfSquare(k - 1)
  }

  lemma {:induction false} SumOfSizesFormula(k: nat)
    ensures 2 * SumOfSizes(k) == k * (2 * N - k + 1)
  {
    if k > 0 {
      SumOfSizesFormula(k - 1);
    }
  }

  /**
   * `sMax` is the total side length of all `N` squares, the 1x1 one included;
   * the lower bound of `s` is the two largest sides together, which is
   * below it, so the domain of `s` is not empty.
   */
  lemma Bounds()
    ensures SMax == SumOfSizes(N)
    ensures SLo == SizeOfSquare(0) + SizeOfSquare(1) && SLo <= SHi
    ensures CoordLo <= CoordHi && CoordHi == SMax - 1
  {
    SumOfSizesFormula(N);
  }

  /** The constraint `x[i] != v` (on the x axis) or `y[i] != v` (on the y axis). */
  datatype Axis = XAxis | YAxis
  datatype Forbid = Forbid(axis: Axis, square: int, value: int)

  /** The gap excluded for square `i`: the coordinates `1 .. ForbiddenGaps[SizeOfSquare(i) - 2]`. */
  predicate Forbidden(f: Forbid) {
    0 <= f.square < Squares && 1 <= f.value <= ForbiddenGaps[SizeOfSquare(f.square) - 2]
  }

  /**
   * The loop over `i` from `N - 2` down to `0` that excludes the first
   * `ForbiddenGaps[N - i - 2]` coordinates of square `i` on both axes. The
   * table index is the square's side minus two, which stays within the table.
   */
  method ForbiddenGapConstraints() returns (posts: seq<Forbid>)
    ensures forall f :: f in posts <==> Forbidden(f)
  {
    posts := [];
    var i := N - 2;
    while i >= 0
      invariant -1 <= i <= N - 2
      invariant forall f :: f in posts <==> Forbidden(f) && f.square > i
    {
      assert 0 <= N - i - 2 < |ForbiddenGaps| && N - i - 2 == SizeOfSquare(i) - 2;
      var j := 1;
      while j <= ForbiddenGaps[N - i - 2]
        invariant 1 <= j
        invariant forall f :: f in posts <==>
          Forbidden(f) && (f.square > i || (f.square == i && f.value < j))
      {
        posts := posts + [Forbid(XAxis, i, j), Forbid(YAxis, i, j)];
        forall f: Forbid | f.square == i && f.value == j ensures f in posts {
          if f.axis == XAxis {
            assert f == Forbid(XAxis, i, j);
          } else {
            assert f == Forbid(YAxis, i, j);
          }
        }
        j := j + 1;
      }
      i := i - 1;
    }
  }

  /** Square `i` of the coordinate arrays, as a rectangle. */
  function SquareItem(x: seq<Dom>, y: seq<Dom>, i: int): Item
    requires 0 <= i < |x| == |y|
  {
    Item(x[i], SizeOfSquare(i), y[i], SizeOfSquare(i))
  }

  /** Square `i` has both coordinates fixed and covers the point `(px, py)`. */
  predicate CoversPoint(x: seq<Dom>, y: seq<Dom>, i: int, px: int, py: int)
    requires 0 <= i < |x| == |y|
  {
    Placed(SquareItem(x, y, i)) && Covers(SquareItem(x, y, i), px, py)
  }

  /**
   * `getSquare`: the side of the lowest-indexed fixed square covering the
   * point, or 0 when none does. Squares with a coordinate not yet fixed are skipped.
   */
  method GetSquare(x: seq<Dom>, y: seq<Dom>, xCoord: int, yCoord: int) returns (r: int)
    requires |x| == |y| == Squares
    ensures r == 0 <==> forall i :: 0 <= i < Squares ==> !CoversPoint(x, y, i, xCoord, yCoord)
    ensures r != 0 ==>
      2 <= r <= N && CoversPoint(x, y, N - r, xCoord, yCoord) &&
      forall i :: 0 <= i < N - r ==> !CoversPoint(x, y, i, xCoord, yCoord)
  {
    var i := 0;
    while i < N - 1
      invariant 0 <= i <= N - 1
      invariant forall k :: 0 <= k < i ==> !CoversPoint(x, y, k, xCoord, yCoord)
    {
      if Assigned(x[i]) && Assigned(y[i]) {
        if xCoord >= Val(x[i]) && xCoord < Val(x[i]) + SizeOfSquare(i) {
          if yCoord >= Val(y[i]) && yCoord < Val(y[i]) + SizeOfSquare(i) {
            assert CoversPoint(x, y, i, xCoord, yCoord);
            return N - i;
          }
        }
      }
      i := i + 1;
    }
    return 0;
  }

  /**
   * When no two fixed squares overlap, at most one covers any point, so the
   * side `getSquare` reports does not depend on the order it scans them in.
   */
  lemma CoveringSquareUnique(x: seq<Dom>, y: seq<Dom>, px: int, py: int, i: int, k: int)
    requires |x| == |y| == Squares
    requires forall a, b ::
      (0 <= a < b < Squares && Placed(SquareItem(x, y, a)) && Placed(SquareItem(x, y, b))) ==>
      !Overlap(SquareItem(x, y, a), SquareItem(x, y, b))
    requires 0 <= i < Squares && 0 <= k < Squares
    requires CoversPoint(x, y, i, px, py) && CoversPoint(x, y, k, px, py)
    ensures i == k
  {
  }
}
