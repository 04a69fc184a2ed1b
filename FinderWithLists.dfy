/** `MatrixPathFinderWithLists`: the same searches as `MatrixPathFinderNative`, with the
    visit history kept in a `SinglyLinkedList<Point>` and the paths found in a
    `DoublyLinkedList<List<Point>>`, both the hand-written containers of this model. */
module FinderWithLists {
  import opened Wrappers
  import opened Sequences
  import opened Points
  import opened Grid
  import opened GridSearch
  import opened SinglyLinked
  import opened Doubly
  import PathSearch

  class MatrixPathFinderWithLists {
    const matrix: Matrix
    const rows: int
    const cols: int
    const visitHistory: SinglyLinkedList<Point>
    const foundPaths: DoublyLinkedList<seq<Point>>

    /** The matrix is well formed and the two lists are valid and share no object. */
    ghost predicate Valid()
      reads visitHistory, visitHistory.Repr, foundPaths, foundPaths.Repr
    {
      && WellFormed(matrix) && rows == |matrix| && cols == |matrix[0]|
      && visitHistory.Valid() && foundPaths.Valid()
      && visitHistory.Repr !! foundPaths.Repr
    }

    constructor (matrix: Matrix)
      requires WellFormed(matrix)
      ensures Valid() && this.matrix == matrix
      ensures fresh(visitHistory.Repr) && fresh(foundPaths.Repr)
      ensures visitHistory.Contents == [] && foundPaths.Contents == []
    {
      this.matrix := matrix;
      rows := |matrix|;
      cols := |matrix[0]|;
      visitHistory := new SinglyLinkedList();
      foundPaths := new DoublyLinkedList();
    }

    /** Runs one search with discipline `d` (`StackManual` for depth-first, `QueueManual`
        for breadth-first, both a plain LIFO/FIFO here). `visitHistory` is cleared and
        then holds every cell the search marks, once, in discovery order; a path found is
        appended to `foundPaths`, which a failed search leaves unchanged. */
    method Find(d: Discipline, start: Point, end: Point) returns (path: seq<Point>)
      requires Valid() && InBounds(matrix, start)
      modifies visitHistory, visitHistory.Repr, foundPaths, foundPaths.Repr
      ensures Valid()
      ensures fresh(visitHistory.Repr - old(visitHistory.Repr)) && fresh(foundPaths.Repr - old(foundPaths.Repr))
      ensures path == Search(matrix, d, start, end).path
      ensures visitHistory.Contents == Search(matrix, d, start, end).history
      ensures foundPaths.Contents == old(foundPaths.Contents) + (if path == [] then [] else [path])
      ensures path == [] <==> !Reachable(matrix, start, end)
      ensures path != [] ==> ValidPath(matrix, path, start, end) && NoRepeats(path)
      ensures |visitHistory.Contents| > 0 && visitHistory.Contents[0] == start && NoRepeats(visitHistory.Contents)
    {
      var history;
      path, history := PathSearch.Search(matrix, d, start, end);
      assert && (path == [] <==> !Reachable(matrix, start, end))
        && (path != [] ==> ValidPath(matrix, path, start, end) && NoRepeats(path))
        && |history| > 0 && history[0] == start && NoRepeats(history) by {
        SearchCorrect(matrix, d, start, end);
      }
      Record(history);
      if path != [] {
        foundPaths.AddLast(path);
      }
    }

    /** Clears `visitHistory` and adds the cells of `history` to it one by one. */
    method Record(history: seq<Point>)
      requires visitHistory.Valid()
      modifies visitHistory, visitHistory.Repr
      ensures visitHistory.Valid() && fresh(visitHistory.Repr - old(visitHistory.Repr))
      ensures visitHistory.Contents == history
    {
      visitHistory.Clear();
      for i := 0 to |history|
        invariant visitHistory.Valid() && fresh(visitHistory.Repr - old(visitHistory.Repr))
        invariant visitHistory.Contents == history[..i]
      {
        visitHistory.AddLast(history[i]);
      }
      assert history[..|history|] == history;
    }

    method FindPathDFS(start: Point, end: Point) returns (path: seq<Point>)
      requires Valid() && InBounds(matrix, start)
      modifies visitHistory, visitHistory.Repr, foundPaths, foundPaths.Repr
      ensures Valid()
      ensures fresh(visitHistory.Repr - old(visitHistory.Repr)) && fresh(foundPaths.Repr - old(foundPaths.Repr))
      ensures path == Search(matrix, Lifo, start, end).path
      ensures visitHistory.Contents == Search(matrix, Lifo, start, end).history
      ensures foundPaths.Contents == old(foundPaths.Contents) + (if path == [] then [] else [path])
    {
      path := Find(Lifo, start, end);
    }

    method FindPathBFS(start: Point, end: Point) returns (path: seq<Point>)
      requires Valid() && InBounds(matrix, start)
      modifies visitHistory, visitHistory.Repr, foundPaths, foundPaths.Repr
      ensures Valid()
      ensures fresh(visitHistory.Repr - old(visitHistory.Repr)) && fresh(foundPaths.Repr - old(foundPaths.Repr))
      ensures path == Search(matrix, Fifo, start, end).path
      ensures visitHistory.Contents == Search(matrix, Fifo, start, end).history
      ensures foundPaths.Contents == old(foundPaths.Contents) + (if path == [] then [] else [path])
    {
      path := Find(Fifo, start, end);
    }

    /** Clears both lists and repeats the breadth-first search up to `maxPaths` times,
        stopping at the first empty result: `maxPaths` copies of one path when `end` is
        reachable, none otherwise, and the history of the last search run. */
    method FindMultiplePaths(start: Point, end: Point, maxPaths: int)
      requires Valid() && InBounds(matrix, start)
      modifies visitHistory, visitHistory.Repr, foundPaths, foundPaths.Repr
      ensures Valid()
      ensures var o := Search(matrix, Fifo, start, end);
        foundPaths.Contents == Copies(o.path, if maxPaths > 0 && Reachable(matrix, start, end) then maxPaths else 0)
      ensures visitHistory.Contents == if maxPaths <= 0 then [] else Search(matrix, Fifo, start, end).history
    {
      ghost var P, H := Search(matrix, Fifo, start, end).path, Search(matrix, Fifo, start, end).history;
      ghost var reachable := P != [];
      assert reachable <==> Reachable(matrix, start, end) by {
        SearchCorrect(matrix, Fifo, start, end);
      }
      foundPaths.Clear();
      visitHistory.Clear();
      var i := 0;
      while i < maxPaths
        invariant 0 <= i <= (if maxPaths > 0 then maxPaths else 0)
        invariant Valid()
        invariant fresh(visitHistory.Repr - old(visitHistory.Repr))
        invariant fresh(foundPaths.Repr - old(foundPaths.Repr))
        invariant foundPaths.Contents == Copies(P, i)
        invariant visitHistory.Contents == if i == 0 then [] else H
        invariant i > 0 ==> reachable
      {
        var path := FindPathBFS(start, end);
        if path == [] {
          break;
        }
        CopiesSnoc(path, i);
        i := i + 1;
      }
    }

    /** `null` for a null node or one without a successor, otherwise the successor's data.
        For a node of `foundPaths` that is the next path in the list, if there is one. */
    method GetNextPath(currentNode: DoublyNode?<seq<Point>>) returns (r: Option<seq<Point>>)
      requires Valid()
      ensures currentNode == null || currentNode.next == null ==> r == None
      ensures currentNode != null && currentNode.next != null ==> r == Some(currentNode.next.data)
      ensures currentNode != null && currentNode in foundPaths.nodes ==>
        var k := IndexOf(foundPaths.nodes, currentNode);
        r == if k + 1 < |foundPaths.Contents| then Some(foundPaths.Contents[k + 1]) else None
    {
      if currentNode == null || currentNode.next == null {
        return None;
      }
      return Some(currentNode.next.data);
    }

    /** `null` for a null node or one without a predecessor, otherwise the predecessor's
        data. For a node of `foundPaths` that is the previous path in the list, if any. */
    method GetPreviousPath(currentNode: DoublyNode?<seq<Point>>) returns (r: Option<seq<Point>>)
      requires Valid()
      ensures currentNode == null || currentNode.prev == null ==> r == None
      ensures currentNode != null && currentNode.prev != null ==> r == Some(currentNode.prev.data)
      ensures currentNode != null && currentNode in foundPaths.nodes ==>
        var k := IndexOf(foundPaths.nodes, currentNode);
        r == if k > 0 then Some(foundPaths.Contents[k - 1]) else None
    {
      if currentNode == null || currentNode.prev == null {
        return None;
      }
      return Some(currentNode.prev.data);
    }
  }
}
