/** `MatrixPathFinderWithNativeLists`: the same searches as `MatrixPathFinderNative`
    (a `java.util.Stack` for depth-first, a `LinkedList` queue for breadth-first, the same
    `DIRECTIONS` order), which also keep the visit history of the last search and append
    every path found to `foundPaths`. The two library lists are sequences here. */
module FinderWithNativeLists {
  import opened Wrappers
  import opened Sequences
  import opened Points
  import opened Grid
  import opened GridSearch
  import PathSearch

  class MatrixPathFinderWithNativeLists {
    const matrix: Matrix
    const rows: int
    const cols: int
    var visitHistory: seq<Point>
    var foundPaths: seq<seq<Point>>

    predicate Valid() {
      WellFormed(matrix) && rows == |matrix| && cols == |matrix[0]|
    }

    constructor (matrix: Matrix)
      requires WellFormed(matrix)
      ensures Valid() && this.matrix == matrix
      ensures visitHistory == [] && foundPaths == []
    {
      this.matrix := matrix;
      rows := |matrix|;
      cols := |matrix[0]|;
      visitHistory := [];
      foundPaths := [];
    }

    /** Runs one search with discipline `d`: the history is replaced by the cells the search
        marks, in discovery order, and a path found is appended to `foundPaths`. */
    method Find(d: Discipline, start: Point, end: Point) returns (path: seq<Point>)
      requires Valid() && InBounds(matrix, start)
      modifies this
      ensures path == Search(matrix, d, start, end).path
      ensures visitHistory == Search(matrix, d, start, end).history
      ensures foundPaths == old(foundPaths) + (if path == [] then [] else [path])
      ensures path == [] <==> !Reachable(matrix, start, end)
      ensures path != [] ==> ValidPath(matrix, path, start, end) && NoRepeats(path)
      ensures |visitHistory| > 0 && visitHistory[0] == start && NoRepeats(visitHistory)
    {
      var history;
      path, history := PathSearch.Search(matrix, d, start, end);
      SearchCorrect(matrix, d, start, end);
      visitHistory := history;
      if path != [] {
        foundPaths := foundPaths + [path];
      }
    }

    method FindPathDFS(start: Point, end: Point) returns (path: seq<Point>)
      requires Valid() && InBounds(matrix, start)
      modifies this
      ensures path == Search(matrix, Lifo, start, end).path
      ensures visitHistory == Search(matrix, Lifo, start, end).history
      ensures foundPaths == old(foundPaths) + (if path == [] then [] else [path])
    {
      path := Find(Lifo, start, end);
    }

    method FindPathBFS(start: Point, end: Point) returns (path: seq<Point>)
      requires Valid() && InBounds(matrix, start)
      modifies this
      ensures path == Search(matrix, Fifo, start, end).path
      ensures visitHistory == Search(matrix, Fifo, start, end).history
      ensures foundPaths == old(foundPaths) + (if path == [] then [] else [path])
    {
      path := Find(Fifo, start, end);
    }

    /** Clears both lists and repeats the breadth-first search up to `maxPaths` times,
        stopping at the first empty result. The search is deterministic, so the paths kept
        are `maxPaths` copies of one path when `end` is reachable, and none otherwise; the
        history is that of the last search run. */
    method FindMultiplePaths(start: Point, end: Point, maxPaths: int)
      requires Valid() && InBounds(matrix, start)
      modifies this
      ensures var o := Search(matrix, Fifo, start, end);
        foundPaths == Copies(o.path, if maxPaths > 0 && Reachable(matrix, start, end) then maxPaths else 0)
      ensures visitHistory == if maxPaths <= 0 then [] else Search(matrix, Fifo, start, end).history
    {
      ghost var o := Search(matrix, Fifo, start, end);
      SearchCorrect(matrix, Fifo, start, end);
      foundPaths := [];
      visitHistory := [];
      var i := 0;
      while i < maxPaths
        invariant 0 <= i <= (if maxPaths > 0 then maxPaths else 0) && foundPaths == Copies(o.path, i)
        invariant visitHistory == if i == 0 then [] else o.history
        invariant i > 0 ==> Reachable(matrix, start, end)
      {
        var path := FindPathBFS(start, end);
        if path == [] {
          break;
        }
        CopiesSnoc(path, i);
        i := i + 1;
      }
    }

    method ListIterator() returns (it: PathIterator)
      ensures fresh(it) && it.Valid() && it.items == foundPaths && it.cursor == 0
    {
      it := new PathIterator(foundPaths);
    }

    /** `next()` when `hasNext()`, otherwise `null`. */
    method GetNextPath(it: PathIterator) returns (r: Option<seq<Point>>)
      requires it.Valid()
      modifies it
      ensures it.Valid()
      ensures r == None <==> old(it.cursor) == |it.items|
      ensures r != None ==> r == Some(it.items[old(it.cursor)]) && it.cursor == old(it.cursor) + 1
      ensures r == None ==> it.cursor == old(it.cursor)
    {
      var more := it.HasNext();
      if more {
        var p := it.Next();
        return Some(p);
      }
      return None;
    }

    /** `previous()` when `hasPrevious()`, otherwise `null`. */
    method GetPreviousPath(it: PathIterator) returns (r: Option<seq<Point>>)
      requires it.Valid()
      modifies it
      ensures it.Valid()
      ensures r == None <==> old(it.cursor) == 0
      ensures r != None ==> r == Some(it.items[old(it.cursor) - 1]) && it.cursor == old(it.cursor) - 1
      ensures r == None ==> it.cursor == old(it.cursor)
    {
      var more := it.HasPrevious();
      if more {
        var p := it.Previous();
        return Some(p);
      }
      return None;
    }
  }

  /** A `ListIterator` over a snapshot of `foundPaths`: the cursor sits between elements,
      `next()` returns the element after it and `previous()` the element before it. */
  class PathIterator {
    const items: seq<seq<Point>>
    var cursor: int

    predicate Valid()
      reads this
    {
      0 <= cursor <= |items|
    }

    constructor (items: seq<seq<Point>>)
      ensures Valid() && this.items == items && cursor == 0
    {
      this.items := items;
      cursor := 0;
    }

    method HasNext() returns (b: bool)
      requires Valid()
      ensures b <==> cursor < |items|
    {
      return cursor < |items|;
    }

    method Next() returns (p: seq<Point>)
      requires Valid() && cursor < |items|
      modifies this
      ensures Valid() && p == items[old(cursor)] && cursor == old(cursor) + 1
    {
      p := items[cursor];
      cursor := cursor + 1;
    }

    method HasPrevious() returns (b: bool)
      requires Valid()
      ensures b <==> cursor > 0
    {
      return cursor > 0;
    }

    method Previous() returns (p: seq<Point>)
      requires Valid() && cursor > 0
      modifies this
      ensures Valid() && p == items[old(cursor) - 1] && cursor == old(cursor) - 1
    {
      cursor := cursor - 1;
      p := items[cursor];
    }
  }
}
