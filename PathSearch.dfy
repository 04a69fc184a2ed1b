/** The search loop of `findPathBFS` and `findPathDFS`, written as the finders write it: a
    `visited` and a `parent` array the size of the matrix, a work container, the loop over
    the four `DIRECTIONS`, and `reconstructPath`. Each run is proved to compute exactly
    `GridSearch.Search`, whose properties are proved there. */
module PathSearch {
  import opened Wrappers
  import opened Points
  import opened Grid
  import opened GridSearch

  /** `visited[r][c]` is set exactly for the marked cells. */
  ghost predicate MarksAgree(visited: array2<bool>, V: set<Point>)
    reads visited
  {
    forall r, c :: 0 <= r < visited.Length0 && 0 <= c < visited.Length1 ==>
      (visited[r, c] <==> Point(r, c) in V)
  }

  /** `parent[r][c]` holds the parent link of the cell, `null` (here `None`) where it has none. */
  ghost predicate LinksAgree(parent: array2<Option<Point>>, L: map<Point, Point>)
    reads parent
  {
    forall r, c :: 0 <= r < parent.Length0 && 0 <= c < parent.Length1 ==>
      parent[r, c] == (if Point(r, c) in L then Some(L[Point(r, c)]) else None)
  }

  /** The arrays have the matrix's dimensions. */
  predicate Sized<T>(g: Matrix, a: array2<T>)
    requires WellFormed(g)
  {
    a.Length0 == Rows(g) && a.Length1 == Cols(g)
  }

  /** The arrays and the container and history of a run hold exactly the search state `S`. */
  ghost predicate Mirrors(g: Matrix, visited: array2<bool>, parent: array2<Option<Point>>,
                          frontier: seq<Point>, history: seq<Point>, S: State)
    requires WellFormed(g)
    reads visited, parent
  {
    && Sized(g, visited) && Sized(g, parent)
    && frontier == S.frontier && history == S.history
    && MarksAgree(visited, S.visited) && LinksAgree(parent, S.parent)
  }

  function Reversed(s: seq<Point>): (r: seq<Point>)
    ensures |r| == |s| && forall i :: 0 <= i < |s| ==> r[i] == s[|s| - 1 - i]
  {
    if |s| == 0 then [] else [s[|s| - 1]] + Reversed(s[..|s| - 1])
  }

  lemma ReversedSnoc(s: seq<Point>, x: Point)
    ensures Reversed(s + [x]) == [x] + Reversed(s)
  {
    assert (s + [x])[..|s|] == s;
  }

  /** `reconstructPath`: collect `end` and its ancestors by following `parent` until `null`,
      then reverse. The result is the start-to-`end` path of the parent tree. */
  method ReconstructPath(g: Matrix, parent: array2<Option<Point>>, end: Point, ghost S: State)
    returns (path: seq<Point>)
    requires WellFormed(g) && Shape(g, S) && Sized(g, parent) && LinksAgree(parent, S.parent)
    requires end in S.visited
    ensures path == PathTo(S, end)
  {
    var collected: seq<Point> := [];
    var current: Option<Point> := Some(end);
    while current.Some?
      invariant current.Some? ==> current.value in S.depth
      invariant (if current.Some? then PathTo(S, current.value) else []) + Reversed(collected) == PathTo(S, end)
      decreases if current.Some? then S.depth[current.value] + 1 else 0
    {
      var c := current.value;
      CellInBounds(g, c);
      ReversedSnoc(collected, c);
      collected := collected + [c];
      current := parent[c.row, c.col];
    }
    path := Reversed(collected);
  }

  /** One round of the loop over `DIRECTIONS`: if the neighbour of `current` in direction `k`
      is inside the matrix, not yet visited and not '#', it is added to the container, marked,
      given `current` as parent and recorded. `V` and `L` are the marks and links so far. */
  method TryNeighbor(g: Matrix, current: Point, k: nat, visited: array2<bool>, parent: array2<Option<Point>>,
                     frontier0: seq<Point>, history0: seq<Point>, ghost V: set<Point>, ghost L: map<Point, Point>)
    returns (frontier: seq<Point>, history: seq<Point>, ghost added: seq<Point>)
    requires WellFormed(g) && k < DIRS && Sized(g, visited) && Sized(g, parent)
    requires MarksAgree(visited, V) && LinksAgree(parent, L)
    modifies visited, parent
    ensures added == (if Admits(g, current, k, V) then [Neighbor(current, k)] else [])
    ensures frontier == frontier0 + added && history == history0 + added
    ensures MarksAgree(visited, V + Elems(added))
    ensures LinksAgree(parent, if added == [] then L else L[Neighbor(current, k) := current])
  {
    frontier, history, added := frontier0, history0, [];
    var newRow, newCol := current.row + DIRECTIONS[k].0, current.col + DIRECTIONS[k].1;
    if IsValid(g, newRow, newCol) && !visited[newRow, newCol] && g[newRow][newCol] != OBSTACLE {
      var neighbor := Point(newRow, newCol);
      frontier := frontier + [neighbor];
      visited[newRow, newCol] := true;
      parent[newRow, newCol] := Some(current);
      history := history + [neighbor];
      added := [neighbor];
    }
    assert Elems(added) == set x | x in added;
  }

  /** What the loop over `DIRECTIONS` has done after `k` rounds while expanding `current` from
      state `P`: the cells `A` added so far, and the container, history, marks and links. */
  ghost predicate Rounds(g: Matrix, current: Point, k: nat, P: State, visited: array2<bool>,
                         parent: array2<Option<Point>>, frontier: seq<Point>, history: seq<Point>,
                         A: seq<Point>)
    requires WellFormed(g) && k <= DIRS
    reads visited, parent
  {
    && A == Found(g, current, k, P.visited)
    && frontier == P.frontier + A && history == P.history + A
    && MarksAgree(visited, P.visited + Elems(A))
    && LinksAgree(parent, P.parent + (map v | v in A :: current))
  }

  /** Round `k` of that loop. */
  method Round(g: Matrix, current: Point, k: nat, visited: array2<bool>, parent: array2<Option<Point>>,
               frontier0: seq<Point>, history0: seq<Point>, ghost P: State, ghost A0: seq<Point>)
    returns (frontier: seq<Point>, history: seq<Point>, ghost A: seq<Point>)
    requires WellFormed(g) && k < DIRS && Sized(g, visited) && Sized(g, parent)
    requires Rounds(g, current, k, P, visited, parent, frontier0, history0, A0)
    modifies visited, parent
    ensures Rounds(g, current, k + 1, P, visited, parent, frontier, history, A)
  {
    FoundStep(g, current, k, P.visited);
    ghost var added;
    ghost var L := P.parent + (map v | v in A0 :: current);
    frontier, history, added := TryNeighbor(g, current, k, visited, parent, frontier0, history0,
                                            P.visited + Elems(A0), L);
    if added != [] {
      ElemsSnoc(A0, Neighbor(current, k));
      MapSnoc(P.parent, A0, Neighbor(current, k), current);
    }
    assert P.frontier + (A0 + added) == (P.frontier + A0) + added;
    assert P.history + (A0 + added) == (P.history + A0) + added;
    A := A0 + added;
  }

  /** The loop over `DIRECTIONS` while expanding `current`: the state afterwards is
      `Expand(g, current, P)`. */
  method ExploreNeighbors(g: Matrix, current: Point, visited: array2<bool>, parent: array2<Option<Point>>,
                          frontier0: seq<Point>, history0: seq<Point>, ghost P: State)
    returns (frontier: seq<Point>, history: seq<Point>)
    requires WellFormed(g) && current in P.depth
    requires Mirrors(g, visited, parent, frontier0, history0, P)
    modifies visited, parent
    ensures Mirrors(g, visited, parent, frontier, history, Expand(g, current, P))
  {
    frontier, history := frontier0, history0;
    ghost var A: seq<Point> := [];
    assert P.visited + Elems(A) == P.visited && P.parent + (map v | v in A :: current) == P.parent;
    for k := 0 to DIRS
      invariant Rounds(g, current, k, P, visited, parent, frontier, history, A)
    {
      frontier, history, A := Round(g, current, k, visited, parent, frontier, history, P, A);
    }
  }

  /** One search over `g` from `start` for `end`: `Fifo` is `findPathBFS`, `Lifo` is
      `findPathDFS`. Returns the path (empty if `end` is never removed) and the visit history
      (`start`, then every cell in the order it was marked). */
  method Search(g: Matrix, d: Discipline, start: Point, end: Point)
    returns (path: seq<Point>, history: seq<Point>)
    requires WellFormed(g) && InBounds(g, start)
    ensures path == GridSearch.Search(g, d, start, end).path
    ensures history == GridSearch.Search(g, d, start, end).history
  {
    var rows, cols := |g|, |g[0]|;
    var visited := new bool[rows, cols]((r, c) => false);
    var parent := new Option<Point>[rows, cols]((r, c) => None);
    var frontier := [start];
    visited[start.row, start.col] := true;
    history := [start];
    ghost var S := Initial(start);
    while |frontier| > 0
      invariant Shape(g, S) && Mirrors(g, visited, parent, frontier, history, S)
      invariant Run(g, d, end, S) == GridSearch.Search(g, d, start, end)
      decreases |AllCells(g) - S.visited|, |S.frontier|
    {
      var current;
      if d == Fifo {
        current := frontier[0];
        frontier := frontier[1..];
      } else {
        current := frontier[|frontier| - 1];
        frontier := frontier[..|frontier| - 1];
      }
      assert current == Take(d, S.frontier) && frontier == Rest(d, S.frontier);
      ghost var P := Pop(d, S);
      PopShape(g, d, S);
      if current == end {
        path := ReconstructPath(g, parent, end, P);
        return;
      }
      StepShape(g, d, S);
      StepProgress(g, d, S);
      frontier, history := ExploreNeighbors(g, current, visited, parent, frontier, history, P);
      S := Expand(g, current, P);
    }
    path := [];
  }
}
