/** The immutable character matrix the path finders search: '#' marks an obstacle,
    every other character is open. */
module Grid {
  import opened Points

  type Matrix = seq<seq<char>>

  const OBSTACLE: char := '#'

  /** The finders read `rows = matrix.length` and `cols = matrix[0].length`, so the matrix has
      at least one row, and cells are indexed as if every row had `cols` entries. */
  predicate WellFormed(g: Matrix) {
    |g| > 0 && forall r :: 0 <= r < |g| ==> |g[r]| == |g[0]|
  }

  function Rows(g: Matrix): nat { |g| }

  function Cols(g: Matrix): nat
    requires |g| > 0
  {
    |g[0]|
  }

  /** Every cell of the matrix. */
  function AllCells(g: Matrix): set<Point>
    requires WellFormed(g)
  {
    set r, c | 0 <= r < Rows(g) && 0 <= c < Cols(g) :: Point(r, c)
  }

  /** `isValid(row, col)`: the coordinates lie inside the matrix. */
  function IsValid(g: Matrix, row: int, col: int): bool
    requires WellFormed(g)
  {
    0 <= row < Rows(g) && 0 <= col < Cols(g)
  }

  /** `isValid` accepts exactly the cells of the matrix. */
  lemma CellInBounds(g: Matrix, p: Point)
    requires WellFormed(g)
    ensures IsValid(g, p.row, p.col) <==> p in AllCells(g)
  {
  }

  predicate InBounds(g: Matrix, p: Point)
    requires WellFormed(g)
  {
    IsValid(g, p.row, p.col)
  }

  /** A cell a path may step onto: inside the matrix and not '#'. */
  predicate Passable(g: Matrix, p: Point)
    requires WellFormed(g)
  {
    InBounds(g, p) && g[p.row][p.col] != OBSTACLE
  }

  /** `DIRECTIONS`: up, down, left, right, in this order. */
  const DIRECTIONS: seq<(int, int)> := [(-1, 0), (1, 0), (0, -1), (0, 1)]

  /** The number of directions. */
  const DIRS: nat := 4

  function Neighbor(p: Point, k: nat): Point
    requires k < 4
  {
    Point(p.row + DIRECTIONS[k].0, p.col + DIRECTIONS[k].1)
  }

  /** `q` is one `DIRECTIONS` offset away from `p`. */
  predicate Adjacent(p: Point, q: Point) {
    (q.row - p.row, q.col - p.col) in DIRECTIONS
  }

  /** Adjacency is exactly "one of the four neighbours", and the four neighbours are distinct. */
  lemma NeighborAdjacent(p: Point, k: nat)
    requires k < 4
    ensures Adjacent(p, Neighbor(p, k))
    ensures forall j :: 0 <= j < 4 && j != k ==> Neighbor(p, j) != Neighbor(p, k)
  {
  }

  function DirectionOf(p: Point, q: Point): (k: nat)
    requires Adjacent(p, q)
    ensures k < 4 && Neighbor(p, k) == q
  {
    if (q.row - p.row, q.col - p.col) == DIRECTIONS[0] then 0
    else if (q.row - p.row, q.col - p.col) == DIRECTIONS[1] then 1
    else if (q.row - p.row, q.col - p.col) == DIRECTIONS[2] then 2
    else 3
  }

  /** Every step of `path` moves by one `DIRECTIONS` offset onto a passable cell.
      The first cell is not checked: the searches never check `start`. */
  predicate Steps(g: Matrix, path: seq<Point>)
    requires WellFormed(g)
  {
    forall i :: 0 < i < |path| ==> Passable(g, path[i]) && Adjacent(path[i - 1], path[i])
  }

  /** A path from `s` to `e`: non-empty, with valid steps. */
  predicate ValidPath(g: Matrix, path: seq<Point>, s: Point, e: Point)
    requires WellFormed(g)
  {
    |path| >= 1 && path[0] == s && path[|path| - 1] == e && Steps(g, path)
  }

  predicate NoRepeats<T(==)>(s: seq<T>) {
    forall i, j :: 0 <= i < j < |s| ==> s[i] != s[j]
  }

  /** Prefixes of a valid path are valid paths to their last cell. */
  lemma PrefixValid(g: Matrix, path: seq<Point>, s: Point, e: Point, n: nat)
    requires WellFormed(g) && ValidPath(g, path, s, e) && 1 <= n <= |path|
    ensures ValidPath(g, path[..n], s, path[n - 1])
  {
  }

  /** The cells of the first `R` rows when rows have `C` cells. */
  function Block(R: nat, C: nat): set<Point> {
    set r, c | 0 <= r < R && 0 <= c < C :: Point(r, c)
  }

  function Row(r: nat, C: nat): set<Point> {
    set c | 0 <= c < C :: Point(r, c)
  }

  lemma {:induction false} RowSize(r: nat, C: nat)
    ensures |Row(r, C)| == C
  {
    if C > 0 {
      RowSize(r, C - 1);
      assert Row(r, C) == Row(r, C - 1) + {Point(r, C - 1)};
    } else {
      assert Row(r, C) == {};
    }
  }

  /** The first `R` rows are the first `R - 1` rows and, apart from them, row `R - 1`. */
  lemma BlockSplit(R: nat, C: nat)
    requires R > 0
    ensures Block(R, C) == Block(R - 1, C) + Row(R - 1, C)
    ensures Block(R - 1, C) * Row(R - 1, C) == {}
  {
    var B, B', W := Block(R, C), Block(R - 1, C), Row(R - 1, C);
    forall p | p in B
      ensures p in B' + W
    {
      if p.row < R - 1 {
        assert p in B';
      }
    }
    forall p | p in B' + W
      ensures p in B
    {
    }
    forall p | p in B'
      ensures p !in W
    {
    }
  }

  lemma {:induction false} BlockSize(R: nat, C: nat)
    ensures |Block(R, C)| == R * C
  {
    if R > 0 {
      BlockSize(R - 1, C);
      RowSize(R - 1, C);
      BlockSplit(R, C);
      var n := |Block(R - 1, C)|;
      assert |Block(R, C)| == n + C;
      RowMore(R, C, n);
    } else {
      assert Block(R, C) == {};
    }
  }

  /** One more row of `C` cells. */
  lemma RowMore(R: nat, C: nat, n: nat)
    requires R > 0 && n == (R - 1) * C
    ensures n + C == R * C
  {
  }

  /** The matrix has `rows * cols` cells. */
  lemma CellCount(g: Matrix)
    requires WellFormed(g)
    ensures |AllCells(g)| == Rows(g) * Cols(g)
  {
    assert AllCells(g) == Block(Rows(g), Cols(g));
    BlockSize(Rows(g), Cols(g));
  }
}
