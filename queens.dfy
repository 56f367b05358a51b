/**
 * The diagonals of the n-queens model. The board is an `n` by `n` matrix of
 * 0/1 variables; `Cell(i, j)` names the variable `mat(i, j)`. The edge names
 * (left `j == 0`, bottom `i == n-1`, right `j == n-1`, top `i == 0`) follow
 * the comments in `diagonal`, not the matrix's column/row orientation.
 * `diagonal(i, j, n)` walks from a cell on the border of the board to the
 * opposite border and lists the cells it passes; the constructor asks for
 * one diagonal per border cell it names, and constrains each to hold at most one queen.
 */
module Queens {

  datatype Cell = Cell(i: int, j: int)

  predicate InBoard(c: Cell, n: int) {
    0 <= c.i < n && 0 <= c.j < n
  }

  /** Which branch of `diagonal` a start cell takes, tested in the order `diagonal` tests them. */
  datatype Edge = LeftEdge | BottomEdge | RightEdge | TopEdge | NoEdge

  function EdgeOf(i: int, j: int, n: int): Edge {
    if j == 0 && i != n - 1 then LeftEdge
    else if i == n - 1 && j != n - 1 then BottomEdge
    else if j == n - 1 && i != 0 && i != n - 1 then RightEdge
    else if i == 0 && j != 0 && j != n - 1 then TopEdge
    else NoEdge
  }

  /**
   * The cells of the diagonal from `(i, j)`: down-right from the left edge,
   * up-right from the bottom edge, up-left from the right edge, down-left
   * from the top edge, one cell per step until the border is reached.
   */
  function DiagonalCells(i: int, j: int, n: int): seq<Cell>
    requires 0 <= i < n && 0 <= j < n
  {
    match EdgeOf(i, j, n)
    case LeftEdge => seq(n - i, s => Cell(i + s, j + s))
    case BottomEdge => seq(n - j, s => Cell(i - s, j + s))
    case RightEdge => seq(i + 1, s => Cell(i - s, j - s))
    case TopEdge => seq(j + 1, s => Cell(i + s, j - s))
    case NoEdge => []
  }

  /** `diagonal`: the four walks, each filling an array of the exact length, and the empty fallback. */
  method Diagonal(i0: int, j0: int, n: int) returns (r: seq<Cell>)
    requires 0 <= i0 < n && 0 <= j0 < n
    ensures r == DiagonalCells(i0, j0, n)
  {
    var i, j := i0, j0;
    if j == 0 && i != n - 1 {
      var diag := new Cell[n - i];
      var s := 0;
      while i <= n - 1
        invariant 0 <= s <= n - i0 && i == i0 + s && j == j0 + s
        invariant forall t :: 0 <= t < s ==> diag[t] == Cell(i0 + t, j0 + t)
      {
        diag[s] := Cell(i, j);
        i, j, s := i + 1, j + 1, s + 1;
      }
      return diag[..];
    } else if i == n - 1 && j != n - 1 {
      var diag := new Cell[n - j];
      var s := 0;
      while j <= n - 1
        invariant 0 <= s <= n - j0 && i == i0 - s && j == j0 + s
        invariant forall t :: 0 <= t < s ==> diag[t] == Cell(i0 - t, j0 + t)
      {
        diag[s] := Cell(i, j);
        i, j, s := i - 1, j + 1, s + 1;
      }
      return diag[..];
    } else if j == n - 1 && i != 0 && i != n - 1 {
      var diag := new Cell[i + 1];
      var s := 0;
      while i >= 0
        invariant 0 <= s <= i0 + 1 && i == i0 - s && j == j0 - s
        invariant forall t :: 0 <= t < s ==> diag[t] == Cell(i0 - t, j0 - t)
      {
        diag[s] := Cell(i, j);
        i, j, s := i - 1, j - 1, s + 1;
      }
      return diag[..];
    } else if i == 0 && j != 0 && j != n - 1 {
      var diag := new Cell[j + 1];
      var s := 0;
      while j >= 0
        invariant 0 <= s <= j0 + 1 && i == i0 + s && j == j0 - s
        invariant forall t :: 0 <= t < s ==> diag[t] == Cell(i0 + t, j0 - t)
      {
        diag[s] := Cell(i, j);
        i, j, s := i + 1, j - 1, s + 1;
      }
      return diag[..];
    }
    return [];
  }

  /**
   * A non-empty diagonal is the whole line of board cells through its start:
   * the cells with the start's `i - j` (from the left or right edge) or with
   * the start's `i + j` (from the bottom or top edge), each listed once.
   */
  lemma DiagonalIsLine(i: int, j: int, n: int)
    requires 0 <= i < n && 0 <= j < n
    ensures var r := DiagonalCells(i, j, n);
      (EdgeOf(i, j, n) == LeftEdge || EdgeOf(i, j, n) == RightEdge ==>
        forall c :: c in r <==> InBoard(c, n) && c.i - c.j == i - j) &&
      (EdgeOf(i, j, n) == BottomEdge || EdgeOf(i, j, n) == TopEdge ==>
        forall c :: c in r <==> InBoard(c, n) && c.i + c.j == i + j)
    ensures var r := DiagonalCells(i, j, n);
      forall s, t :: 0 <= s < t < |r| ==> r[s] != r[t]
  {
    var r := DiagonalCells(i, j, n);
    match EdgeOf(i, j, n)
    case LeftEdge =>
      forall c | InBoard(c, n) && c.i - c.j == i - j ensures c in r {
        assert r[c.j] == c;
      }
    case RightEdge =>
      forall c | InBoard(c, n) && c.i - c.j == i - j ensures c in r {
        assert r[i - c.i] == c;
      }
    case BottomEdge =>
      forall c | InBoard(c, n) && c.i + c.j == i + j ensures c in r {
        assert r[c.j - j] == c;
      }
    case TopEdge =>
      forall c | InBoard(c, n) && c.i + c.j == i + j ensures c in r {
        assert r[c.i] == c;
      }
    case NoEdge =>
  }

  /**
   * `diagonal` returns nothing exactly for an interior start, the bottom-right
   * corner `(n-1, n-1)` and the top-right corner `(0, n-1)`.
   */
  lemma DiagonalEmpty(i: int, j: int, n: int)
    requires 0 <= i < n && 0 <= j < n
    ensures DiagonalCells(i, j, n) == [] <==>
      (0 < i < n - 1 && 0 < j < n - 1) || (j == n - 1 && (i == 0 || i == n - 1))
  {
    if EdgeOf(i, j, n) != NoEdge {
      assert DiagonalCells(i, j, n)[0] == Cell(i, j);
    }
  }

  /** The start cell of the constructor's call for loop index `k` and edge `m` (left, bottom, right, top). */
  function StartAt(n: int, k: int, m: int): Cell {
    if m == 0 then Cell(k, 0)
    else if m == 1 then Cell(n - 1, k)
    else if m == 2 then Cell(n - 1 - k, n - 1)
    else Cell(0, n - 1 - k)
  }

  /** The diagonal asked for by loop index `k` and edge `m`. */
  function Call(n: int, k: int, m: int): seq<Cell>
    requires 0 <= k < n - 1
  {
    var c := StartAt(n, k, m);
    DiagonalCells(c.i, c.j, n)
  }

  /** The diagonals asked for by the first `k` iterations of the constructor's loop, in order. */
  function PostedUpTo(n: int, k: int): (ds: seq<seq<Cell>>)
    requires k <= 0 || k <= n - 1
    ensures |ds| == if k <= 0 then 0 else 4 * k
  {
    if k <= 0 then []
    else PostedUpTo(n, k - 1) + [Call(n, k - 1, 0), Call(n, k - 1, 1), Call(n, k - 1, 2), Call(n, k - 1, 3)]
  }

  /** All the diagonals the constructor asks for. */
  function Posted(n: int): (ds: seq<seq<Cell>>)
    ensures |ds| == if n < 2 then 0 else 4 * (n - 1)
  {
    PostedUpTo(n, n - 1)
  }

  /** Call `4k + m` of the constructor is `Call(n, k, m)`. */
  lemma {:induction false} PostedAt(n: int, upTo: int, k: int, m: int)
    requires 0 <= k < upTo <= n - 1 && 0 <= m < 4
    ensures PostedUpTo(n, upTo)[4 * k + m] == Call(n, k, m)
    decreases upTo
  {
    if k < upTo - 1 {
      PostedAt(n, upTo - 1, k, m);
    }
  }

  /** The constructor's loop: for `i` in `0 .. n-2`, the diagonals from the left, bottom, right and top edges. */
  method PostDiagonals(n: int) returns (diags: seq<seq<Cell>>)
    ensures diags == Posted(n)
  {
    diags := [];
    var i := 0;
    while i < n - 1
      invariant 0 <= i && (n >= 1 ==> i <= n - 1) && (n < 1 ==> i == 0)
      invariant diags == PostedUpTo(n, i)
    {
      var left := Diagonal(i, 0, n);
      var bottom := Diagonal(n - 1, i, n);
      var right := Diagonal(n - 1 - i, n - 1, n);
      var top := Diagonal(0, n - 1 - i, n);
      diags := diags + [left, bottom, right, top];
      i := i + 1;
    }
  }

  /**
   * For `n >= 2` the only empty diagonals asked for are the two corner
   * starts of the first iteration; every other one has at least two cells.
   */
  lemma PostedDiagonalSizes(n: int)
    requires n >= 2
    ensures forall k, m :: 0 <= k < n - 1 && 0 <= m < 4 ==>
      (Call(n, k, m) == [] <==> k == 0 && (m == 2 || m == 3)) &&
      (Call(n, k, m) != [] ==> |Call(n, k, m)| >= 2)
  {
    forall k, m | 0 <= k < n - 1 && 0 <= m < 4
      ensures (Call(n, k, m) == [] <==> k == 0 && (m == 2 || m == 3)) &&
              (Call(n, k, m) != [] ==> |Call(n, k, m)| >= 2)
    {
      var c := StartAt(n, k, m);
      DiagonalEmpty(c.i, c.j, n);
    }
  }

  /**
   * The posted diagonals leave no pair of attacking cells unconstrained: any
   * two distinct board cells on a common diagonal line lie together in one
   * of them.
   */
  lemma PostedDiagonalsCover(n: int, a: Cell, b: Cell)
    requires n >= 2 && InBoard(a, n) && InBoard(b, n) && a != b
    requires a.i - a.j == b.i - b.j || a.i + a.j == b.i + b.j
    ensures exists t :: 0 <= t < |Posted(n)| && a in Posted(n)[t] && b in Posted(n)[t]
  {
    var k, m;
    if a.i - a.j == b.i - b.j {
      var d := a.i - a.j;
      if d >= 0 {
        k, m := d, 0;
      } else {
        k, m := -d, 2;
      }
    } else {
      var sum := a.i + a.j;
      if sum >= n - 1 {
        k, m := sum - (n - 1), 1;
      } else {
        k, m := n - 1 - sum, 3;
      }
    }
    PostedAt(n, n - 1, k, m);
    var c := StartAt(n, k, m);
    DiagonalIsLine(c.i, c.j, n);
    assert Posted(n)[4 * k + m] == DiagonalCells(c.i, c.j, n);
    assert a in Posted(n)[4 * k + m] && b in Posted(n)[4 * k + m];
  }
}
