/** The search that `findPathBFS` and `findPathDFS` perform, as a function of the matrix, the
    discipline of the work container (a FIFO queue or a LIFO stack), `start` and `end`.

    One step removes the next cell from the container; if it is `end` the search stops and
    rebuilds the path from the parent links, otherwise it looks at the four `DIRECTIONS` in order
    and, for every neighbour that is inside the matrix, not yet visited and not '#', marks it
    visited, records its parent, records it in the visit history and adds it to the container.
    `start` is marked visited (and recorded) before the first step. */
module GridSearch {
  import opened Points
  import opened Grid

  datatype Discipline = Fifo | Lifo

  /** The search state: the container's contents (`frontier`, removal end given by the
      discipline, insertion always at the back), the cells marked visited, the parent links,
      the depth of every visited cell in the parent tree (a measure the code does not keep),
      the visit history and the number of removals so far. */
  datatype State = State(frontier: seq<Point>, visited: set<Point>, parent: map<Point, Point>,
                         depth: map<Point, nat>, history: seq<Point>, removals: nat)

  /** What a search leaves behind: the path it returns (empty when `end` was never removed),
      the visit history, the visited cells and the number of removals. */
  datatype Outcome = Outcome(path: seq<Point>, history: seq<Point>, visited: set<Point>, removals: nat)

  function Initial(start: Point): State {
    State([start], {start}, map[], map[start := 0], [start], 0)
  }

  /** The cell the container gives back next. */
  function Take(d: Discipline, f: seq<Point>): Point
    requires |f| > 0
  {
    if d == Fifo then f[0] else f[|f| - 1]
  }

  /** The container after that removal. */
  function Rest(d: Discipline, f: seq<Point>): seq<Point>
    requires |f| > 0
  {
    if d == Fifo then f[1..] else f[..|f| - 1]
  }

  function Elems(s: seq<Point>): set<Point> {
    set x | x in s
  }

  /** Removal takes exactly one cell out of a container without repeats. */
  lemma TakeRest(d: Discipline, f: seq<Point>)
    requires |f| > 0
    ensures Take(d, f) in f && |Rest(d, f)| == |f| - 1
    ensures forall x :: x in f <==> x == Take(d, f) || x in Rest(d, f)
    ensures NoRepeats(f) ==> NoRepeats(Rest(d, f)) && Take(d, f) !in Rest(d, f)
  {
    if d == Fifo {
      assert f == [f[0]] + f[1..];
    } else {
      assert f == f[..|f| - 1] + [f[|f| - 1]];
    }
  }

  /** Every parent link points to a cell of smaller depth: parents can be followed back. */
  predicate Linked(S: State) {
    && S.parent.Keys <= S.depth.Keys
    && (forall v :: v in S.parent ==> S.parent[v] in S.depth && S.depth[S.parent[v]] < S.depth[v])
  }

  /** The structural facts the search needs to terminate and to rebuild paths. */
  predicate Shape(g: Matrix, S: State)
    requires WellFormed(g)
  {
    && S.visited <= AllCells(g)
    && S.depth.Keys == S.visited
    && Linked(S)
    && (forall i :: 0 <= i < |S.frontier| ==> S.frontier[i] in S.visited)
  }

  /** The test of the direction loop: the neighbour in direction `k` is inside the matrix,
      not yet visited and not '#'. */
  predicate Admits(g: Matrix, cur: Point, k: nat, vis: set<Point>)
    requires WellFormed(g) && k < DIRS
  {
    var n := Neighbor(cur, k);
    IsValid(g, n.row, n.col) && n !in vis && g[n.row][n.col] != OBSTACLE
  }

  /** The neighbours of `cur` that the first `k` rounds of the direction loop add, when `vis`
      is the visited set before the loop. */
  function Found(g: Matrix, cur: Point, k: nat, vis: set<Point>): seq<Point>
    requires WellFormed(g) && k <= DIRS
  {
    if k == 0 then []
    else Found(g, cur, k - 1, vis) + (if Admits(g, cur, k - 1, vis) then [Neighbor(cur, k - 1)] else [])
  }

  /** The added cells are distinct, new, passable neighbours of `cur`, every passable new
      neighbour in the first `k` directions is among them, and no later neighbour is. */
  lemma {:induction false} FoundFacts(g: Matrix, cur: Point, k: nat, vis: set<Point>)
    requires WellFormed(g) && k <= DIRS
    ensures var N := Found(g, cur, k, vis);
      && NoRepeats(N)
      && (forall x :: x in N ==> Passable(g, x) && x !in vis && Adjacent(cur, x))
      && (forall j :: 0 <= j < k && Passable(g, Neighbor(cur, j)) && Neighbor(cur, j) !in vis ==>
            Neighbor(cur, j) in N)
      && (forall j :: k <= j < DIRS ==> Neighbor(cur, j) !in N)
  {
    if k > 0 {
      FoundFacts(g, cur, k - 1, vis);
      NeighborAdjacent(cur, k - 1);
    }
  }

  /** Round `k` of the direction loop, judged against the cells marked so far, adds exactly
      what `Found` adds. */
  lemma FoundStep(g: Matrix, cur: Point, k: nat, vis: set<Point>)
    requires WellFormed(g) && k < DIRS
    ensures var N := Found(g, cur, k, vis);
      && Neighbor(cur, k) !in N
      && Found(g, cur, k + 1, vis) ==
           N + (if Admits(g, cur, k, vis + Elems(N)) then [Neighbor(cur, k)] else [])
  {
    FoundFacts(g, cur, k, vis);
  }

  /** The state after the direction loop has added the cells `N` as children of `cur`. */
  function Children(S: State, cur: Point, N: seq<Point>): State
    requires cur in S.depth
  {
    S.(frontier := S.frontier + N, visited := S.visited + Elems(N),
       parent := S.parent + (map v | v in N :: cur),
       depth := S.depth + (map v | v in N :: S.depth[cur] + 1),
       history := S.history + N)
  }

  /** One more added cell: the marks and the links the loop body adds. */
  lemma ElemsSnoc(N: seq<Point>, n: Point)
    ensures Elems(N + [n]) == Elems(N) + {n}
  {
  }

  lemma MapSnoc<T>(M: map<Point, T>, N: seq<Point>, n: Point, val: T)
    ensures M + (map v | v in N + [n] :: val) == (M + (map v | v in N :: val))[n := val]
  {
  }

  /** Expanding `cur`: the whole direction loop. */
  function Expand(g: Matrix, cur: Point, S: State): State
    requires WellFormed(g) && cur in S.depth
  {
    Children(S, cur, Found(g, cur, DIRS, S.visited))
  }

  /** Removing the next cell from the container. */
  function Pop(d: Discipline, S: State): State
    requires |S.frontier| > 0
  {
    S.(frontier := Rest(d, S.frontier), removals := S.removals + 1)
  }

  /** `reconstructPath`: the parent links followed back from `v`, in start-to-`v` order. */
  function PathTo(S: State, v: Point): seq<Point>
    requires Linked(S) && v in S.depth
    decreases S.depth[v]
  {
    if v in S.parent then PathTo(S, S.parent[v]) + [v] else [v]
  }

  lemma PopShape(g: Matrix, d: Discipline, S: State)
    requires WellFormed(g) && Shape(g, S) && |S.frontier| > 0
    ensures Shape(g, Pop(d, S)) && Take(d, S.frontier) in S.visited
  {
    TakeRest(d, S.frontier);
    var R := Rest(d, S.frontier);
    forall i | 0 <= i < |R| ensures R[i] in S.visited {
      assert R[i] in S.frontier;
    }
  }

  /** Adding new cells of the matrix as children of a visited cell keeps the shape. */
  lemma ChildrenShape(g: Matrix, S: State, cur: Point, N: seq<Point>)
    requires WellFormed(g) && Shape(g, S) && cur in S.visited
    requires forall x :: x in N ==> x in AllCells(g) && x !in S.visited
    ensures Shape(g, Children(S, cur, N))
  {
    var E := Children(S, cur, N);
    assert E.depth[cur] == S.depth[cur];
    forall i | 0 <= i < |E.frontier| ensures E.frontier[i] in E.visited {
      if i >= |S.frontier| {
        assert E.frontier[i] == N[i - |S.frontier|];
      }
    }
  }

  /** One step keeps the shape ... */
  lemma StepShape(g: Matrix, d: Discipline, S: State)
    requires WellFormed(g) && Shape(g, S) && |S.frontier| > 0
    ensures Shape(g, Expand(g, Take(d, S.frontier), Pop(d, S)))
  {
    var cur := Take(d, S.frontier);
    var P := Pop(d, S);
    PopShape(g, d, S);
    var N := Found(g, cur, DIRS, P.visited);
    FoundFacts(g, cur, DIRS, P.visited);
    forall x | x in N ensures x in AllCells(g) && x !in P.visited {
      CellInBounds(g, x);
    }
    ChildrenShape(g, P, cur, N);
  }

  /** ... and makes progress: either a new cell is marked or the container shrinks. */
  lemma StepProgress(g: Matrix, d: Discipline, S: State)
    requires WellFormed(g) && Shape(g, S) && |S.frontier| > 0
    ensures var E := Expand(g, Take(d, S.frontier), Pop(d, S));
      || |AllCells(g) - E.visited| < |AllCells(g) - S.visited|
      || (E.visited == S.visited && |E.frontier| < |S.frontier|)
  {
    var cur := Take(d, S.frontier);
    var P := Pop(d, S);
    PopShape(g, d, S);
    var N := Found(g, cur, DIRS, P.visited);
    FoundFacts(g, cur, DIRS, P.visited);
    TakeRest(d, S.frontier);
    forall x | x in N ensures x in AllCells(g) && x !in S.visited {
      CellInBounds(g, x);
    }
    Progress(AllCells(g), S.visited, N, S.frontier, P.frontier);
  }

  /** Marking new cells of `A` leaves fewer unmarked cells; marking none shrinks the container. */
  lemma Progress(A: set<Point>, V: set<Point>, N: seq<Point>, F: seq<Point>, R: seq<Point>)
    requires forall x :: x in N ==> x in A && x !in V
    requires |R| + 1 == |F|
    ensures || |A - (V + Elems(N))| < |A - V|
            || (V + Elems(N) == V && |R + N| < |F|)
  {
    if |N| > 0 {
      Shrink(A, V, V + Elems(N), N[0]);
    } else {
      assert Elems(N) == {};
    }
  }

  /** Marking a cell of `A` that was not marked leaves fewer unmarked cells. */
  lemma Shrink(A: set<Point>, V: set<Point>, V': set<Point>, x: Point)
    requires V <= V' && x in A && x in V' && x !in V
    ensures |A - V'| < |A - V|
  {
    var B, C := A - V, A - V';
    assert B == C + (B - C) && C * (B - C) == {};
    assert x in B - C;
  }

  /** The search loop from state `S` on, with the container discipline `d`. */
  function Run(g: Matrix, d: Discipline, end: Point, S: State): Outcome
    requires WellFormed(g) && Shape(g, S)
    decreases |AllCells(g) - S.visited|, |S.frontier|
  {
    if |S.frontier| == 0 then Outcome([], S.history, S.visited, S.removals)
    else
      var cur := Take(d, S.frontier);
      var P := Pop(d, S);
      if cur == end then Outcome(PathTo(P, end), P.history, P.visited, P.removals)
      else
        StepShape(g, d, S);
        StepProgress(g, d, S);
        Run(g, d, end, Expand(g, cur, P))
  }

  /** The whole search from `start`: `findPathBFS` with `Fifo`, `findPathDFS` with `Lifo`. */
  function Search(g: Matrix, d: Discipline, start: Point, end: Point): Outcome
    requires WellFormed(g) && InBounds(g, start)
  {
    Run(g, d, end, Initial(start))
  }

  /** A cell that has been taken out of the container and expanded. */
  predicate Processed(S: State, u: Point) {
    u in S.visited && u !in S.frontier
  }

  /** The parent links form a tree rooted at `start`: each link joins adjacent cells, the child
      is passable and one level deeper. */
  predicate Tree(g: Matrix, start: Point, S: State)
    requires WellFormed(g)
  {
    && start in S.depth && S.depth[start] == 0
    && S.parent.Keys == S.visited - {start}
    && (forall v :: v in S.parent ==>
          && S.parent[v] in S.depth && v in S.depth
          && Adjacent(S.parent[v], v) && Passable(g, v)
          && S.depth[v] == S.depth[S.parent[v]] + 1)
  }

  /** Every passable neighbour of an expanded cell is marked. */
  ghost predicate Closed(g: Matrix, S: State)
    requires WellFormed(g)
  {
    forall u, j :: Processed(S, u) && 0 <= j < DIRS && Passable(g, Neighbor(u, j)) ==>
      Neighbor(u, j) in S.visited
  }

  /** The visit history starts with `start`, lists every marked cell exactly once, and every
      recorded cell is either removed already or still in the container. */
  predicate Recorded(start: Point, S: State) {
    && |S.history| > 0 && S.history[0] == start
    && NoRepeats(S.history) && Elems(S.history) == S.visited
    && S.removals + |S.frontier| == |S.history|
  }

  /** The breadth-first layering of a FIFO search: depths never decrease along the queue and
      span at most two levels, expanded cells are no deeper than the head of the queue, and a
      passable neighbour of an expanded cell is at most one level deeper. */
  ghost predicate Layers(g: Matrix, S: State)
    requires WellFormed(g) && Shape(g, S)
  {
    QueueOrdered(S) && HeadBound(S) && NeighborBound(g, S)
  }

  predicate QueueOrdered(S: State)
    requires forall i :: 0 <= i < |S.frontier| ==> S.frontier[i] in S.depth
  {
    forall i, j :: 0 <= i < j < |S.frontier| ==> S.depth[S.frontier[i]] <= S.depth[S.frontier[j]]
  }

  ghost predicate HeadBound(S: State)
    requires S.visited <= S.depth.Keys
    requires forall i :: 0 <= i < |S.frontier| ==> S.frontier[i] in S.depth
  {
    var F := S.frontier;
    |F| > 0 ==>
      && (forall i :: 0 <= i < |F| ==> S.depth[F[i]] <= S.depth[F[0]] + 1)
      && (forall u :: Processed(S, u) ==> S.depth[u] <= S.depth[F[0]])
  }

  ghost predicate NeighborBound(g: Matrix, S: State)
    requires WellFormed(g) && S.visited <= S.depth.Keys
  {
    forall u, j :: Processed(S, u) && 0 <= j < DIRS && Passable(g, Neighbor(u, j)) ==>
      Neighbor(u, j) in S.depth && S.depth[Neighbor(u, j)] <= S.depth[u] + 1
  }

  /** What holds before every removal of a search from `start` for `end`. */
  ghost predicate Inv(g: Matrix, d: Discipline, start: Point, end: Point, S: State)
    requires WellFormed(g)
  {
    && Shape(g, S)
    && Tree(g, start, S)
    && Closed(g, S)
    && Recorded(start, S)
    && NoRepeats(S.frontier)
    && (end in S.visited ==> end in S.frontier)
    && (d == Fifo ==> Layers(g, S))
  }

  lemma InitialInv(g: Matrix, d: Discipline, start: Point, end: Point)
    requires WellFormed(g) && InBounds(g, start)
    ensures Inv(g, d, start, end, Initial(start))
  {
    CellInBounds(g, start);
    assert Elems([start]) == {start};
  }

  /** The parts of the state after one step, in terms of the state before it. */
  lemma StepFacts(g: Matrix, d: Discipline, S: State)
    requires WellFormed(g) && Shape(g, S) && |S.frontier| > 0
    ensures var cur, E := Take(d, S.frontier), Expand(g, Take(d, S.frontier), Pop(d, S));
      var N := Found(g, cur, DIRS, S.visited);
      && cur in S.visited
      && E.frontier == Rest(d, S.frontier) + N
      && E.visited == S.visited + Elems(N)
      && E.history == S.history + N
      && E.removals == S.removals + 1
      && (forall v :: v in E.parent <==> v in S.parent || v in N)
      && (forall v :: v in E.depth <==> v in S.depth || v in N)
      && (forall v :: v in N ==> E.parent[v] == cur && E.depth[v] == S.depth[cur] + 1)
      && (forall v :: v in S.parent ==> E.parent[v] == S.parent[v])
      && (forall v :: v in S.depth ==> E.depth[v] == S.depth[v])
  {
    PopShape(g, d, S);
    FoundFacts(g, Take(d, S.frontier), DIRS, S.visited);
  }

  /** Joining two sequences without repeats and without common elements gives none. */
  lemma NoRepeatsAppend(a: seq<Point>, b: seq<Point>)
    requires NoRepeats(a) && NoRepeats(b)
    requires forall x :: x in b ==> x !in a
    ensures NoRepeats(a + b) && Elems(a + b) == Elems(a) + Elems(b)
  {
    forall i, j | 0 <= i < j < |a + b| ensures (a + b)[i] != (a + b)[j] {
      if j < |a| {
        assert (a + b)[i] == a[i] && (a + b)[j] == a[j];
      } else if i < |a| {
        assert (a + b)[i] == a[i] && (a + b)[j] == b[j - |a|];
        assert b[j - |a|] in b;
      } else {
        assert (a + b)[i] == b[i - |a|] && (a + b)[j] == b[j - |a|];
      }
    }
  }

  /** A step keeps the parent tree. */
  lemma StepTree(g: Matrix, d: Discipline, start: Point, S: State)
    requires WellFormed(g) && Shape(g, S) && Tree(g, start, S) && |S.frontier| > 0
    ensures Tree(g, start, Expand(g, Take(d, S.frontier), Pop(d, S)))
  {
    var cur := Take(d, S.frontier);
    var E := Expand(g, cur, Pop(d, S));
    var N := Found(g, cur, DIRS, S.visited);
    StepFacts(g, d, S);
    FoundFacts(g, cur, DIRS, S.visited);
    assert E.parent.Keys == E.visited - {start};
    forall v | v in E.parent
      ensures E.parent[v] in E.depth && v in E.depth && Adjacent(E.parent[v], v) && Passable(g, v)
      ensures E.depth[v] == E.depth[E.parent[v]] + 1
    {
      if v in N {
        assert E.parent[v] == cur && cur in S.depth;
      } else {
        assert v in S.parent && E.parent[v] == S.parent[v];
      }
    }
  }

  /** A step keeps every expanded cell's passable neighbours marked. */
  lemma StepClosed(g: Matrix, d: Discipline, S: State)
    requires WellFormed(g) && Shape(g, S) && Closed(g, S) && NoRepeats(S.frontier) && |S.frontier| > 0
    ensures Closed(g, Expand(g, Take(d, S.frontier), Pop(d, S)))
  {
    var cur := Take(d, S.frontier);
    var E := Expand(g, cur, Pop(d, S));
    var N := Found(g, cur, DIRS, S.visited);
    StepFacts(g, d, S);
    FoundFacts(g, cur, DIRS, S.visited);
    TakeRest(d, S.frontier);
    forall u, j | Processed(E, u) && 0 <= j < DIRS && Passable(g, Neighbor(u, j))
      ensures Neighbor(u, j) in E.visited
    {
      assert u !in N && u in S.visited;
      if u != cur {
        assert Processed(S, u);
      }
    }
  }

  /** A step keeps the history, the container without repeats and `end` in the container. */
  lemma StepRecorded(g: Matrix, d: Discipline, start: Point, end: Point, S: State)
    requires WellFormed(g) && Shape(g, S) && Recorded(start, S) && NoRepeats(S.frontier)
    requires |S.frontier| > 0 && Take(d, S.frontier) != end
    requires end in S.visited ==> end in S.frontier
    ensures var E := Expand(g, Take(d, S.frontier), Pop(d, S));
      && Recorded(start, E) && NoRepeats(E.frontier)
      && (end in E.visited ==> end in E.frontier)
  {
    var cur := Take(d, S.frontier);
    var N := Found(g, cur, DIRS, S.visited);
    StepFacts(g, d, S);
    FoundFacts(g, cur, DIRS, S.visited);
    TakeRest(d, S.frontier);
    var R := Rest(d, S.frontier);
    NoRepeatsAppend(S.history, N);
    assert forall x :: x in R ==> x in S.visited;
    NoRepeatsAppend(R, N);
  }

  /** The depths along the queue after a FIFO step: the old queue without its head, then the
      new cells one level below the head. */
  lemma StepQueueDepths(g: Matrix, S: State)
    requires WellFormed(g) && Shape(g, S) && |S.frontier| > 0
    ensures var F, E := S.frontier, Expand(g, S.frontier[0], Pop(Fifo, S));
      && |E.frontier| >= |F| - 1
      && forall i :: 0 <= i < |E.frontier| ==>
           E.frontier[i] in E.depth &&
           E.depth[E.frontier[i]] == (if i < |F| - 1 then S.depth[F[i + 1]] else S.depth[F[0]] + 1)
  {
    var F := S.frontier;
    var E := Expand(g, F[0], Pop(Fifo, S));
    var N := Found(g, F[0], DIRS, S.visited);
    StepFacts(g, Fifo, S);
    StepShape(g, Fifo, S);
    forall i | 0 <= i < |E.frontier|
      ensures E.frontier[i] in E.depth
      ensures E.depth[E.frontier[i]] == (if i < |F| - 1 then S.depth[F[i + 1]] else S.depth[F[0]] + 1)
    {
      if i < |F| - 1 {
        assert E.frontier[i] == F[i + 1];
      } else {
        assert E.frontier[i] == N[i - (|F| - 1)];
      }
    }
  }

  /** The cells expanded after a step: the old ones and the removed cell. */
  lemma StepProcessed(g: Matrix, d: Discipline, S: State, u: Point)
    requires WellFormed(g) && Shape(g, S) && NoRepeats(S.frontier) && |S.frontier| > 0
    requires Processed(Expand(g, Take(d, S.frontier), Pop(d, S)), u)
    ensures u == Take(d, S.frontier) || Processed(S, u)
  {
    StepFacts(g, d, S);
    FoundFacts(g, Take(d, S.frontier), DIRS, S.visited);
    TakeRest(d, S.frontier);
  }

  /** A FIFO step keeps the queue ordered by depth ... */
  lemma StepOrdered(g: Matrix, S: State)
    requires WellFormed(g) && Shape(g, S) && Layers(g, S) && |S.frontier| > 0
    ensures Shape(g, Expand(g, S.frontier[0], Pop(Fifo, S)))
    ensures QueueOrdered(Expand(g, S.frontier[0], Pop(Fifo, S)))
  {
    StepShape(g, Fifo, S);
    StepQueueDepths(g, S);
  }

  /** ... and the bounds relative to the head of the queue. */
  lemma StepHead(g: Matrix, S: State)
    requires WellFormed(g) && Shape(g, S) && Layers(g, S) && NoRepeats(S.frontier) && |S.frontier| > 0
    ensures Shape(g, Expand(g, S.frontier[0], Pop(Fifo, S)))
    ensures HeadBound(Expand(g, S.frontier[0], Pop(Fifo, S)))
  {
    var F := S.frontier;
    var D := S.depth[F[0]];
    var E := Expand(g, F[0], Pop(Fifo, S));
    StepShape(g, Fifo, S);
    StepFacts(g, Fifo, S);
    StepQueueDepths(g, S);
    assert |E.frontier| > 0 ==> D <= E.depth[E.frontier[0]];
    forall u | Processed(E, u) ensures E.depth[u] <= D {
      StepProcessed(g, Fifo, S, u);
    }
  }

  /** A FIFO step keeps neighbours of expanded cells at most one level deeper. */
  lemma StepNeighbors(g: Matrix, S: State)
    requires WellFormed(g) && Shape(g, S) && Layers(g, S) && NoRepeats(S.frontier) && |S.frontier| > 0
    ensures Shape(g, Expand(g, S.frontier[0], Pop(Fifo, S)))
    ensures NeighborBound(g, Expand(g, S.frontier[0], Pop(Fifo, S)))
  {
    var F := S.frontier;
    var cur := F[0];
    var E := Expand(g, cur, Pop(Fifo, S));
    StepShape(g, Fifo, S);
    StepFacts(g, Fifo, S);
    FoundFacts(g, cur, DIRS, S.visited);
    forall u, j | Processed(E, u) && 0 <= j < DIRS && Passable(g, Neighbor(u, j))
      ensures Neighbor(u, j) in E.depth && E.depth[Neighbor(u, j)] <= E.depth[u] + 1
    {
      var w := Neighbor(u, j);
      StepProcessed(g, Fifo, S, u);
      if u != cur {
        assert Processed(S, u);
      } else if w in S.visited {
        if w in F {
          var i :| 0 <= i < |F| && F[i] == w;
        } else {
          assert Processed(S, w);
        }
      }
    }
  }

  /** A FIFO step keeps the breadth-first layering. */
  lemma StepLayers(g: Matrix, S: State)
    requires WellFormed(g) && Shape(g, S) && Layers(g, S) && NoRepeats(S.frontier) && |S.frontier| > 0
    ensures Shape(g, Expand(g, Take(Fifo, S.frontier), Pop(Fifo, S)))
    ensures Layers(g, Expand(g, Take(Fifo, S.frontier), Pop(Fifo, S)))
  {
    StepOrdered(g, S);
    StepHead(g, S);
    StepNeighbors(g, S);
  }

  /** A step that does not remove `end` keeps the invariant. */
  lemma StepInv(g: Matrix, d: Discipline, start: Point, end: Point, S: State)
    requires WellFormed(g) && Inv(g, d, start, end, S) && |S.frontier| > 0 && Take(d, S.frontier) != end
    ensures Inv(g, d, start, end, Expand(g, Take(d, S.frontier), Pop(d, S)))
  {
    StepShape(g, d, S);
    StepTree(g, d, start, S);
    StepClosed(g, d, S);
    StepRecorded(g, d, start, end, S);
    if d == Fifo {
      StepLayers(g, S);
    }
  }

  /** `reconstructPath` yields a path from `start` to `v` whose i-th cell lies at depth i. */
  lemma {:induction false} PathToFacts(g: Matrix, start: Point, S: State, v: Point)
    requires WellFormed(g) && Shape(g, S) && Tree(g, start, S) && v in S.visited
    ensures var p := PathTo(S, v);
      && ValidPath(g, p, start, v) && |p| == S.depth[v] + 1
      && (forall i :: 0 <= i < |p| ==> p[i] in S.depth && S.depth[p[i]] == i)
      && NoRepeats(p)
    decreases S.depth[v]
  {
    if v in S.parent {
      var u := S.parent[v];
      PathToFacts(g, start, S, u);
      var q := PathTo(S, u);
      assert PathTo(S, v) == q + [v];
      assert q[|q| - 1] == u;
    } else {
      assert v == start;
    }
  }

  /** With an empty container every walk from a marked cell stays among marked cells. */
  lemma {:induction false} WalkStays(g: Matrix, S: State, p: seq<Point>, i: nat)
    requires WellFormed(g) && Closed(g, S) && |S.frontier| == 0
    requires |p| > 0 && p[0] in S.visited && Steps(g, p) && i < |p|
    ensures p[i] in S.visited
  {
    if i > 0 {
      WalkStays(g, S, p, i - 1);
      var k := DirectionOf(p[i - 1], p[i]);
      assert Processed(S, p[i - 1]) && Passable(g, Neighbor(p[i - 1], k));
    }
  }

  /** In a FIFO search, a walk of at most `depth(head)` steps from `start` never reaches a cell
      deeper than its number of steps. */
  lemma {:induction false} WalkDepth(g: Matrix, start: Point, S: State, p: seq<Point>, i: nat)
    requires WellFormed(g) && Shape(g, S) && Tree(g, start, S) && Layers(g, S) && |S.frontier| > 0
    requires |p| > 0 && p[0] == start && Steps(g, p) && i < |p| && i <= S.depth[S.frontier[0]]
    ensures p[i] in S.depth && S.depth[p[i]] <= i
  {
    if i > 0 {
      WalkDepth(g, start, S, p, i - 1);
      var u := p[i - 1];
      var k := DirectionOf(u, p[i]);
      assert forall j :: 0 <= j < |S.frontier| ==> S.depth[S.frontier[0]] <= S.depth[S.frontier[j]];
      assert Processed(S, u) && Passable(g, Neighbor(u, k));
    }
  }

  /** Hence in a FIFO search no path to the head of the queue is shorter than its depth. */
  lemma HeadIsNearest(g: Matrix, start: Point, S: State, p: seq<Point>)
    requires WellFormed(g) && Shape(g, S) && Tree(g, start, S) && Layers(g, S) && |S.frontier| > 0
    requires ValidPath(g, p, start, S.frontier[0])
    ensures |p| >= S.depth[S.frontier[0]] + 1
  {
    var D := S.depth[S.frontier[0]];
    if |p| <= D {
      WalkDepth(g, start, S, p, |p| - 1);
      assert false;
    }
  }

  /** Some path from `start` to `end` avoids '#' and moves by `DIRECTIONS` offsets. */
  ghost predicate Reachable(g: Matrix, start: Point, end: Point)
    requires WellFormed(g)
  {
    exists p :: ValidPath(g, p, start, end)
  }

  /** What a search promises about its outcome. */
  ghost predicate Promised(g: Matrix, d: Discipline, start: Point, end: Point, o: Outcome)
    requires WellFormed(g)
  {
    // the path is empty exactly when `end` cannot be reached, and otherwise a path without
    // repeated cells from `start` to `end`
    && (o.path == [] <==> !Reachable(g, start, end))
    && (o.path != [] ==> ValidPath(g, o.path, start, end) && NoRepeats(o.path))
    // the breadth-first path is a shortest one
    && (d == Fifo && o.path != [] ==> forall p :: ValidPath(g, p, start, end) ==> |o.path| <= |p|)
    // the history lists every marked cell once, `start` first; each removal takes a recorded cell
    && |o.history| > 0 && o.history[0] == start
    && NoRepeats(o.history) && Elems(o.history) == o.visited && o.visited <= AllCells(g)
    && o.removals <= |o.history|
  }

  /** The search loop keeps its promise from any state satisfying the invariant. */
  lemma {:induction false} RunCorrect(g: Matrix, d: Discipline, start: Point, end: Point, S: State)
    requires WellFormed(g) && Inv(g, d, start, end, S)
    ensures Promised(g, d, start, end, Run(g, d, end, S))
    decreases |AllCells(g) - S.visited|, |S.frontier|
  {
    if |S.frontier| == 0 {
      forall p | ValidPath(g, p, start, end) ensures false {
        WalkStays(g, S, p, |p| - 1);
      }
    } else {
      var cur := Take(d, S.frontier);
      var P := Pop(d, S);
      if cur == end {
        PopShape(g, d, S);
        assert Tree(g, start, P);
        PathToFacts(g, start, P, end);
        if d == Fifo {
          forall p | ValidPath(g, p, start, end) ensures |PathTo(P, end)| <= |p| {
            HeadIsNearest(g, start, S, p);
          }
        }
      } else {
        StepShape(g, d, S);
        StepProgress(g, d, S);
        StepInv(g, d, start, end, S);
        RunCorrect(g, d, start, end, Expand(g, cur, P));
      }
    }
  }

  /** `findPathBFS` (with `Fifo`) and `findPathDFS` (with `Lifo`) keep that promise. */
  lemma SearchCorrect(g: Matrix, d: Discipline, start: Point, end: Point)
    requires WellFormed(g) && InBounds(g, start)
    ensures Promised(g, d, start, end, Search(g, d, start, end))
  {
    InitialInv(g, d, start, end);
    RunCorrect(g, d, start, end, Initial(start));
  }

  /** When `start == end` the first removal finds `end`: the path is `[start]`, the history is
      `[start]` and nothing else is marked. */
  lemma SearchSame(g: Matrix, d: Discipline, start: Point)
    requires WellFormed(g) && InBounds(g, start)
    ensures Search(g, d, start, start) == Outcome([start], [start], {start}, 1)
  {
  }

  /** A sequence without repeats has as many distinct elements as entries. */
  lemma {:induction false} ElemsSize(s: seq<Point>)
    requires NoRepeats(s)
    ensures |Elems(s)| == |s|
  {
    if |s| > 0 {
      var t := s[..|s| - 1];
      assert s == t + [s[|s| - 1]];
      ElemsSize(t);
      assert Elems(s) == Elems(t) + {s[|s| - 1]};
    } else {
      assert Elems(s) == {};
    }
  }

  /** Each search marks, records and removes at most `rows * cols` cells. */
  lemma SearchBound(g: Matrix, d: Discipline, start: Point, end: Point)
    requires WellFormed(g) && InBounds(g, start)
    ensures var o := Search(g, d, start, end);
      o.removals <= |o.history| == |o.visited| <= Rows(g) * Cols(g)
  {
    var o := Search(g, d, start, end);
    SearchCorrect(g, d, start, end);
    ElemsSize(o.history);
    CellCount(g);
    assert |o.visited| <= |AllCells(g)| by {
      SubsetSize(o.visited, AllCells(g));
    }
  }

  lemma SubsetSize(A: set<Point>, B: set<Point>)
    requires A <= B
    ensures |A| <= |B|
  {
    assert B == A + (B - A) && A * (B - A) == {};
  }
}
