/** `MatrixPathFinderNative`: breadth-first and depth-first search over the matrix with
    the library deque as queue or stack, `visited`/`parent` arrays and `reconstructPath`.
    Both searches run `PathSearch.Search`; what they return is described by
    `GridSearch.Search`, whose properties are proved in `GridSearch`. */
module FinderNative {
  import opened Points
  import opened Grid
  import opened GridSearch
  import PathSearch

  class MatrixPathFinderNative {
    const matrix: Matrix
    const rows: int
    const cols: int

    /** The constructor reads `matrix.length` and `matrix[0].length`. */
    predicate Valid() {
      WellFormed(matrix) && rows == |matrix| && cols == |matrix[0]|
    }

    constructor (matrix: Matrix)
      requires WellFormed(matrix)
      ensures Valid() && this.matrix == matrix
    {
      this.matrix := matrix;
      rows := |matrix|;
      cols := |matrix[0]|;
    }

    /** Depth-first search with the deque used as a stack (`push`/`pop`). */
    method FindPathDFS(start: Point, end: Point) returns (path: seq<Point>)
      requires Valid() && InBounds(matrix, start)
      ensures path == Search(matrix, Lifo, start, end).path
      ensures path == [] <==> !Reachable(matrix, start, end)
      ensures path != [] ==> ValidPath(matrix, path, start, end) && NoRepeats(path)
      ensures start == end ==> path == [start]
    {
      var history;
      path, history := PathSearch.Search(matrix, Lifo, start, end);
      SearchCorrect(matrix, Lifo, start, end);
      if start == end {
        SearchSame(matrix, Lifo, start);
      }
    }

    /** Breadth-first search with the deque used as a queue (`offer`/`poll`); its path is a
        shortest one. */
    method FindPathBFS(start: Point, end: Point) returns (path: seq<Point>)
      requires Valid() && InBounds(matrix, start)
      ensures path == Search(matrix, Fifo, start, end).path
      ensures path == [] <==> !Reachable(matrix, start, end)
      ensures path != [] ==> ValidPath(matrix, path, start, end) && NoRepeats(path)
      ensures path != [] ==> forall p :: ValidPath(matrix, p, start, end) ==> |path| <= |p|
      ensures start == end ==> path == [start]
    {
      var history;
      path, history := PathSearch.Search(matrix, Fifo, start, end);
      SearchCorrect(matrix, Fifo, start, end);
      if start == end {
        SearchSame(matrix, Fifo, start);
      }
    }
  }
}
