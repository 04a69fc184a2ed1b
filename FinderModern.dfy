/** `MatrixPathFinderModern`: a breadth-first search whose queue holds whole partial paths,
    with one `visitedCells` set for the whole search, that stores each completed path under
    its id in three stores (the list `allPaths`, the id index `pathIndex` and the length
    groups `pathsByLength`), and the queries over the stored records. */
module FinderModern {
  import opened Wrappers
  import opened Points
  import opened Grid
  import opened GridSearch
  import opened Streams
  import opened PathRecords

  /** A queued path: it starts at `start` and takes valid steps to its last cell. */
  predicate QueuedPath(g: Matrix, p: seq<Point>, start: Point)
    requires WellFormed(g)
  {
    |p| > 0 && ValidPath(g, p, start, p[|p| - 1])
  }

  /** The paths the direction loop adds to the queue: `path` extended by each cell of `N`. */
  function Extend(path: seq<Point>, N: seq<Point>): (r: seq<seq<Point>>)
    ensures |r| == |N| && forall i :: 0 <= i < |N| ==> r[i] == path + [N[i]]
  {
    if N == [] then [] else Extend(path, N[..|N| - 1]) + [path + [N[|N| - 1]]]
  }

  lemma ExtendSnoc(path: seq<Point>, N: seq<Point>, n: Point)
    ensures Extend(path, N + [n]) == Extend(path, N) + [path + [n]]
  {
    assert (N + [n])[..|N|] == N;
  }

  /** How many queued paths end at `end`. */
  function EndCount(q: seq<seq<Point>>, end: Point): nat {
    if q == [] then 0
    else (if |q[0]| > 0 && q[0][|q[0]| - 1] == end then 1 else 0) + EndCount(q[1..], end)
  }

  lemma {:induction false} EndCountConcat(a: seq<seq<Point>>, b: seq<seq<Point>>, end: Point)
    ensures EndCount(a + b, end) == EndCount(a, end) + EndCount(b, end)
  {
    if a == [] {
      assert a + b == b;
    } else {
      assert (a + b)[0] == a[0] && (a + b)[1..] == a[1..] + b;
      EndCountConcat(a[1..], b, end);
    }
  }

  /** Extending one path by distinct cells gives one path ending at `end` if `end` is among
      them, and none otherwise. */
  lemma {:induction false} EndCountExtend(path: seq<Point>, N: seq<Point>, end: Point)
    requires NoRepeats(N)
    ensures EndCount(Extend(path, N), end) == if end in N then 1 else 0
  {
    if N != [] {
      var M, n := N[..|N| - 1], N[|N| - 1];
      assert N == M + [n];
      EndCountExtend(path, M, end);
      EndCountConcat(Extend(path, M), [path + [n]], end);
      assert EndCount([path + [n]], end) == if n == end then 1 else 0;
    }
  }

  /** The facts about the queue that the search keeps: the marks stay inside the matrix,
      every queued path starts at `start`, and the queued paths ending at `end` plus the
      `stored` records number at most one when `end` is marked, plus one when
      `start == end`. */
  ghost predicate Frontier(g: Matrix, start: Point, end: Point, queue: seq<seq<Point>>,
                           V: set<Point>, stored: nat)
    requires WellFormed(g)
  {
    && V <= AllCells(g)
    && (forall i :: 0 <= i < |queue| ==> QueuedPath(g, queue[i], start))
    && EndCount(queue, end) + stored <= (if end in V then 1 else 0) + (if start == end then 1 else 0)
  }

  /** The extensions of a queued path to the unmarked neighbours of its last cell, queued
      behind the rest of the queue, are queued paths. */
  lemma ExtendQueued(g: Matrix, start: Point, queue0: seq<seq<Point>>, V: set<Point>)
    requires WellFormed(g) && |queue0| > 0 && |queue0[0]| > 0
    requires forall i :: 0 <= i < |queue0| ==> QueuedPath(g, queue0[i], start)
    ensures var p := queue0[0];
      var q := queue0[1..] + Extend(p, Found(g, p[|p| - 1], DIRS, V));
      forall i :: 0 <= i < |q| ==> QueuedPath(g, q[i], start)
  {
    var currentPath, rest := queue0[0], queue0[1..];
    assert QueuedPath(g, currentPath, start);
    var cur := currentPath[|currentPath| - 1];
    var N := Found(g, cur, DIRS, V);
    FoundFacts(g, cur, DIRS, V);
    var E := Extend(currentPath, N);
    forall i | 0 <= i < |E|
      ensures QueuedPath(g, E[i], start)
    {
      assert N[i] in N;
      assert E[i] == currentPath + [N[i]];
    }
    var q := rest + E;
    forall i | 0 <= i < |q|
      ensures QueuedPath(g, q[i], start)
    {
      if i < |rest| {
        assert q[i] == queue0[i + 1];
      } else {
        assert q[i] == E[i - |rest|];
      }
    }
  }

  /** The queue of the single path `[start]`, with nothing marked and nothing stored. */
  lemma FrontierStart(g: Matrix, start: Point, end: Point)
    requires WellFormed(g)
    ensures Frontier(g, start, end, [[start]], {}, 0)
  {
    assert [[start]][1..] == [];
  }

  /** Dequeuing a path that does not end at `end` and queuing its extensions to the unmarked
      neighbours of its last cell keeps the facts, and either the unmarked cells get fewer or
      nothing is queued. */
  lemma ExpandFacts(g: Matrix, start: Point, end: Point, queue0: seq<seq<Point>>,
                    V: set<Point>, stored: nat)
    requires WellFormed(g) && Frontier(g, start, end, queue0, V, stored)
    requires |queue0| > 0 && queue0[0][|queue0[0]| - 1] != end
    ensures var p, rest := queue0[0], queue0[1..];
      var N := Found(g, p[|p| - 1], DIRS, V);
      var q := rest + Extend(p, N);
      && Frontier(g, start, end, q, V + Elems(N), stored)
      && (N == [] ==> q == rest && V + Elems(N) == V)
      && (N != [] ==> |AllCells(g) - (V + Elems(N))| < |AllCells(g) - V|)
  {
    var currentPath, rest := queue0[0], queue0[1..];
    assert QueuedPath(g, currentPath, start);
    var cur := currentPath[|currentPath| - 1];
    var N := Found(g, cur, DIRS, V);
    FoundFacts(g, cur, DIRS, V);
    ExtendQueued(g, start, queue0, V);
    ExpandCount(currentPath, rest, N, end);
    assert EndCount(queue0, end) == EndCount(rest, end);
    MarkFacts(g, N, V);
  }

  /** Queuing the extensions of a path to distinct cells adds one path ending at `end` if
      `end` is among them. */
  lemma ExpandCount(p: seq<Point>, rest: seq<seq<Point>>, N: seq<Point>, end: Point)
    requires NoRepeats(N)
    ensures var q := rest + Extend(p, N);
      && EndCount(q, end) == EndCount(rest, end) + (if end in N then 1 else 0)
      && (N == [] ==> q == rest)
  {
    EndCountConcat(rest, Extend(p, N), end);
    EndCountExtend(p, N, end);
    if N == [] {
      assert rest + Extend(p, N) == rest;
    }
  }

  /** Marking cells of the matrix keeps the marks inside it, and marking at least one
      unmarked cell leaves fewer unmarked. */
  lemma MarkFacts(g: Matrix, N: seq<Point>, V: set<Point>)
    requires WellFormed(g) && V <= AllCells(g)
    requires forall x :: x in N ==> InBounds(g, x) && x !in V
    ensures V + Elems(N) <= AllCells(g)
    ensures N == [] ==> V + Elems(N) == V
    ensures N != [] ==> |AllCells(g) - (V + Elems(N))| < |AllCells(g) - V|
  {
    forall x | x in Elems(N)
      ensures x in AllCells(g)
    {
      CellInBounds(g, x);
    }
    if N == [] {
      assert Elems(N) == {};
    } else {
      assert N[0] in Elems(N);
      Shrink(AllCells(g), V, V + Elems(N), N[0]);
    }
  }

  /** A stored record: a non-empty path, its number of cells as length and its
      `generatePathId` as id. */
  predicate StoredRecord(p: PathInfo) {
    |p.path| > 0 && p.length == |p.path| && p.id == GeneratePathId(p.path)
  }

  /** The sort key of `comparingInt(PathInfo::getLength)`. */
  function ByLength(p: PathInfo): Key {
    (p.length, 0)
  }

  /** Length ascending, then timestamp descending. */
  function ByLengthThenNewest(p: PathInfo): Key {
    (p.length, -p.timestamp)
  }

  /** Timestamp descending. */
  function ByNewest(p: PathInfo): Key {
    (-p.timestamp, 0)
  }

  /** The records with `minLength <= length <= maxLength`. */
  function InRange(minLength: int, maxLength: int): PathInfo -> bool {
    (p: PathInfo) => minLength <= p.length <= maxLength
  }

  /** The paths of the records. */
  function PathsOf(all: seq<PathInfo>): (r: seq<seq<Point>>)
    ensures |r| == |all| && forall i :: 0 <= i < |all| ==> r[i] == all[i].path
  {
    if all == [] then [] else [all[0].path] + PathsOf(all[1..])
  }

  /** The number of occurrences of `c`, summed path by path. */
  function Occurrences(paths: seq<seq<Point>>, c: Point): nat {
    if paths == [] then 0 else multiset(paths[0])[c] + Occurrences(paths[1..], c)
  }

  lemma {:induction false} FlattenCount(paths: seq<seq<Point>>, c: Point)
    ensures multiset(Flatten(paths))[c] == Occurrences(paths, c)
  {
    if paths != [] {
      FlattenCount(paths[1..], c);
    }
  }

  /** The distinct elements of `s`, in the order they first occur. */
  function Distinct(s: seq<Point>): (r: seq<Point>)
    ensures NoRepeats(r) && forall x :: x in r <==> x in s
  {
    if s == [] then []
    else
      var d, x := Distinct(s[..|s| - 1]), s[|s| - 1];
      assert s == s[..|s| - 1] + [x];
      if x in d then d else d + [x]
  }

  /** A cell with its count, as a `Map.Entry<Point, Long>`. */
  type Entry = (Point, int)

  /** `Map.Entry.comparingByValue().reversed()`. */
  function ByCountDesc(e: Entry): Key {
    (-e.1, 0)
  }

  /** Each cell of `cells` with its count in `freq`. */
  function Entries(cells: seq<Point>, freq: map<Point, int>): (r: seq<Entry>)
    requires forall c :: c in cells ==> c in freq
    ensures |r| == |cells| && forall i :: 0 <= i < |cells| ==> r[i] == (cells[i], freq[cells[i]])
  {
    if cells == [] then [] else [(cells[0], freq[cells[0]])] + Entries(cells[1..], freq)
  }

  /** The entries of `countCellFrequency` for the records `all`: one per distinct cell, with
      its count, in the order the cells first occur. */
  function VisitedEntries(all: seq<PathInfo>): seq<Entry> {
    var cells := Flatten(PathsOf(all));
    Entries(Distinct(cells), Tally(cells))
  }

  /** The cells of some entries. */
  function EntryCells(es: seq<Entry>): set<Point> {
    set e | e in es :: e.0
  }

  /** A sequence without repeats holds each element at most once. */
  lemma {:induction false} NoRepeatsCount<X>(s: seq<X>, x: X)
    requires NoRepeats(s)
    ensures multiset(s)[x] <= 1
  {
    if s != [] {
      var t := s[1..];
      assert s == [s[0]] + t;
      assert NoRepeats(t);
      NoRepeatsCount(t, x);
      if s[0] == x {
        assert x !in t;
      }
    }
  }

  /** Part of the elements of a sequence without repeats has no repeats. */
  lemma SubNoRepeats<X>(r: seq<X>, s: seq<X>)
    requires NoRepeats(s) && multiset(r) <= multiset(s)
    ensures NoRepeats(r)
  {
    forall i, j | 0 <= i < j < |r|
      ensures r[i] != r[j]
    {
      var x := r[i];
      NoRepeatsCount(s, x);
      assert r == r[..i] + [r[i]] + r[i + 1..j] + [r[j]] + r[j + 1..];
      assert r[i] == r[j] ==> multiset(r)[x] >= 2;
    }
  }

  /** The entries of distinct cells that are exactly the keys of `freq`: the cells with their
      counts, once each. */
  lemma EntriesFacts(cells: seq<Point>, freq: map<Point, int>)
    requires NoRepeats(cells) && forall c :: c in freq <==> c in cells
    ensures var es := Entries(cells, freq);
      && |es| == |freq|
      && NoRepeats(es)
      && (forall e :: e in es ==> e.0 in freq && e.1 == freq[e.0])
      && (forall c :: c in freq ==> (c, freq[c]) in es)
  {
    var es := Entries(cells, freq);
    assert freq.Keys == Elems(cells);
    ElemsSize(cells);
    forall i, j | 0 <= i < j < |es|
      ensures es[i] != es[j]
    {
      assert es[i].0 == cells[i] && es[j].0 == cells[j];
    }
    forall c | c in freq
      ensures (c, freq[c]) in es
    {
      var k :| 0 <= k < |cells| && cells[k] == c;
      assert es[k] == (c, freq[c]);
    }
  }

  /** The entries of the records `all` are exactly the cells with their counts, once each. */
  lemma VisitedEntriesFacts(all: seq<PathInfo>)
    ensures var freq := Tally(Flatten(PathsOf(all)));
      var entries := VisitedEntries(all);
      && |entries| == |freq|
      && NoRepeats(entries)
      && (forall e :: e in entries ==> e.0 in freq && e.1 == freq[e.0])
      && (forall c :: c in freq ==> (c, freq[c]) in entries)
  {
    var cells := Flatten(PathsOf(all));
    EntriesFacts(Distinct(cells), Tally(cells));
  }

  /** The first `n` entries by count descending, from entries that are the cells of `freq`
      with their counts once each: `n` of them (or all), each a cell with its count, no cell
      twice, by count descending, and no cell left out counted more often than one kept. */
  lemma TopEntriesFacts(entries: seq<Entry>, freq: map<Point, int>, n: nat)
    requires |entries| == |freq| && NoRepeats(entries)
    requires forall e :: e in entries ==> e.0 in freq && e.1 == freq[e.0]
    requires forall c :: c in freq ==> (c, freq[c]) in entries
    ensures var es := TopBy(entries, ByCountDesc, n);
      && |es| == (if n < |freq| then n else |freq|)
      && (forall i :: 0 <= i < |es| ==> es[i].0 in freq && es[i].1 == freq[es[i].0])
      && (forall i, j :: 0 <= i < j < |es| ==> es[i].0 != es[j].0 && es[i].1 >= es[j].1)
      && (forall i, c :: 0 <= i < |es| && c in freq && c !in EntryCells(es) ==> freq[c] <= es[i].1)
  {
    var es := TopBy(entries, ByCountDesc, n);
    TopByShape(entries, ByCountDesc, n);
    TopByMembers(entries, ByCountDesc, n);
    assert NoRepeats(es) by {
      TopByFacts(entries, ByCountDesc, n);
      SubNoRepeats(es, entries);
    }
    forall i | 0 <= i < |es|
      ensures es[i].0 in freq && es[i].1 == freq[es[i].0]
    {
      assert es[i] in es;
    }
    forall i, j | 0 <= i < j < |es|
      ensures es[i].0 != es[j].0 && es[i].1 >= es[j].1
    {
      assert es[i] in es && es[j] in es;
      assert KeyLe(ByCountDesc(es[i]), ByCountDesc(es[j]));
    }
    forall i, c | 0 <= i < |es| && c in freq && c !in EntryCells(es)
      ensures freq[c] <= es[i].1
    {
      var e := (c, freq[c]);
      assert e in entries;
      assert e in es ==> c in EntryCells(es);
      assert es[i] in es;
      assert KeyLe(ByCountDesc(es[i]), ByCountDesc(e));
    }
  }

  /** What `getTopVisitedCells(n)` keeps of the records `all`. */
  lemma TopVisitedFacts(all: seq<PathInfo>, n: nat)
    ensures var freq := Tally(Flatten(PathsOf(all)));
      var es := TopBy(VisitedEntries(all), ByCountDesc, n);
      && |es| == (if n < |freq| then n else |freq|)
      && (forall i :: 0 <= i < |es| ==> es[i].0 in freq && es[i].1 == freq[es[i].0])
      && (forall i, j :: 0 <= i < j < |es| ==> es[i].0 != es[j].0 && es[i].1 >= es[j].1)
      && (forall i, c :: 0 <= i < |es| && c in freq && c !in EntryCells(es) ==> freq[c] <= es[i].1)
  {
    VisitedEntriesFacts(all);
    TopEntriesFacts(VisitedEntries(all), Tally(Flatten(PathsOf(all))), n);
  }

  /** The records `pipelineExample` summarises: those of length in range, shortest first,
      the first `limit` of them. */
  function Pipeline(all: seq<PathInfo>, minLength: int, maxLength: int, limit: nat): (r: seq<PathInfo>)
    ensures forall p :: p in r ==> p in all
  {
    FilterMembers(all, InRange(minLength, maxLength));
    TopByMembers(Filter(all, InRange(minLength, maxLength)), ByLength, limit);
    TopBy(Filter(all, InRange(minLength, maxLength)), ByLength, limit)
  }

  /** `limit` of the records in range (or all of them), stored ones, shortest first, and no
      record in range left out shorter than one kept. */
  lemma PipelineFacts(all: seq<PathInfo>, minLength: int, maxLength: int, limit: nat)
    ensures var kept := Filter(all, InRange(minLength, maxLength));
      var t := Pipeline(all, minLength, maxLength, limit);
      && |t| == (if limit < |kept| then limit else |kept|)
      && (forall i :: 0 <= i < |t| ==> t[i] in all && minLength <= t[i].length <= maxLength)
      && (forall i, j :: 0 <= i < j < |t| ==> t[i].length <= t[j].length)
      && (forall i, p :: 0 <= i < |t| && p in all && minLength <= p.length <= maxLength && p !in t ==>
            t[i].length <= p.length)
      && (forall l :: var a, b := Filter(t, HasLength(l)), Filter(all, HasLength(l)); |a| <= |b| && a == b[..|a|])
  {
    var f := InRange(minLength, maxLength);
    var kept := Filter(all, f);
    var t := Pipeline(all, minLength, maxLength, limit);
    FilterMembers(all, f);
    TopByShape(kept, ByLength, limit);
    TopByMembers(kept, ByLength, limit);
    forall i | 0 <= i < |t|
      ensures t[i] in all && minLength <= t[i].length <= maxLength
    {
      assert t[i] in t;
      assert t[i] in kept;
      assert f(t[i]);
    }
    forall i, j | 0 <= i < j < |t|
      ensures t[i].length <= t[j].length
    {
      assert KeyLe(ByLength(t[i]), ByLength(t[j]));
    }
    forall i, p | 0 <= i < |t| && p in all && minLength <= p.length <= maxLength && p !in t
      ensures t[i].length <= p.length
    {
      assert f(p) && p in kept && t[i] in t;
      assert KeyLe(ByLength(t[i]), ByLength(p));
    }
    forall l
      ensures var a, b := Filter(t, HasLength(l)), Filter(all, HasLength(l)); |a| <= |b| && a == b[..|a|]
    {
      PipelineStable(all, minLength, maxLength, limit, l);
    }
  }

  /** The sort in `pipelineExample` is stable: of the records of one length it keeps the
      first ones in list order (none, for a length out of range). */
  lemma PipelineStable(all: seq<PathInfo>, minLength: int, maxLength: int, limit: nat, l: int)
    ensures var a, b := Filter(Pipeline(all, minLength, maxLength, limit), HasLength(l)), Filter(all, HasLength(l));
      |a| <= |b| && a == b[..|a|]
  {
    var f := InRange(minLength, maxLength);
    var kept := Filter(all, f);
    var t := Pipeline(all, minLength, maxLength, limit);
    ShortestStable(kept, limit, l);
    if minLength <= l <= maxLength {
      FilterNested(all, f, HasLength(l));
    } else {
      FilterMembers(all, f);
      TopByMembers(kept, ByLength, limit);
      forall x | x in t
        ensures !HasLength(l)(x)
      {
        assert x in kept;
      }
      FilterNone(t, HasLength(l));
    }
  }

  /** The sort by length is stable: of the records of one length, the first `n` by length
      keep the first ones in list order. */
  lemma ShortestStable(s: seq<PathInfo>, n: nat, l: int)
    ensures var a, b := Filter(TopBy(s, ByLength, n), HasLength(l)), Filter(s, HasLength(l));
      |a| <= |b| && a == b[..|a|]
  {
    TopByStable(s, ByLength, n, (l, 0));
    forall x
      ensures HasKey(ByLength, (l, 0))(x) == HasLength(l)(x)
    {
      assert HasKey(ByLength, (l, 0))(x) == (ByLength(x) == (l, 0));
      assert ByLength(x) == (x.length, 0);
    }
    FilterSame(TopBy(s, ByLength, n), HasKey(ByLength, (l, 0)), HasLength(l));
    FilterSame(s, HasKey(ByLength, (l, 0)), HasLength(l));
  }

  /** The first `n` records by length: `n` of them (or all), shortest first, none shorter
      than a record left out, and among records of one length the first ones in list order. */
  lemma TopShortestFacts(all: seq<PathInfo>, n: nat)
    ensures var r := TopBy(all, ByLength, n);
      && |r| == (if n < |all| then n else |all|)
      && multiset(r) <= multiset(all)
      && (forall i, j :: 0 <= i < j < |r| ==> r[i].length <= r[j].length)
      && (forall x, y :: x in r && y in multiset(all) - multiset(r) ==> x.length <= y.length)
      && (forall l :: var a, b := Filter(r, HasLength(l)), Filter(all, HasLength(l)); |a| <= |b| && a == b[..|a|])
  {
    var r := TopBy(all, ByLength, n);
    TopByFacts(all, ByLength, n);
    forall l
      ensures var a, b := Filter(r, HasLength(l)), Filter(all, HasLength(l)); |a| <= |b| && a == b[..|a|]
    {
      ShortestStable(all, n, l);
    }
    forall i, j | 0 <= i < j < |r|
      ensures r[i].length <= r[j].length
    {
      assert KeyLe(ByLength(r[i]), ByLength(r[j]));
    }
    forall x, y | x in r && y in multiset(all) - multiset(r)
      ensures x.length <= y.length
    {
      assert KeyLe(ByLength(x), ByLength(y));
    }
  }

  /** The summaries `pipelineExample` returns, from the facts about its records. */
  lemma PipelineSummaryFacts(all: seq<PathInfo>, minLength: int, maxLength: int, limit: nat)
    requires forall p :: p in all ==> |p.path| > 0
    ensures var kept := Filter(all, InRange(minLength, maxLength));
      var s := Summaries(Pipeline(all, minLength, maxLength, limit));
      && |s| == (if limit < |kept| then limit else |kept|)
      && (forall i :: 0 <= i < |s| ==>
            minLength <= s[i].length <= maxLength && exists p :: p in all && s[i] == Summarize(p))
      && (forall i, j :: 0 <= i < j < |s| ==> s[i].length <= s[j].length)
      && (forall i, p ::
            0 <= i < |s| && p in all && minLength <= p.length <= maxLength && Summarize(p) !in s ==>
            s[i].length <= p.length)
  {
    var t := Pipeline(all, minLength, maxLength, limit);
    PipelineFacts(all, minLength, maxLength, limit);
    var s := Summaries(t);
    SummariesMembers(t);
    forall i | 0 <= i < |s|
      ensures exists p :: p in all && s[i] == Summarize(p)
    {
      assert t[i] in all && s[i] == Summarize(t[i]);
    }
    forall i, p | 0 <= i < |s| && p in all && minLength <= p.length <= maxLength && Summarize(p) !in s
      ensures s[i].length <= p.length
    {
      assert p !in t;
      assert s[i].length == t[i].length;
    }
  }

  /** For every length at once: the summaries `pipelineExample` returns of that length are the first ones
      of `transformPathsToSummary`, in list order. */
  lemma PipelineSummaryOrder(all: seq<PathInfo>, minLength: int, maxLength: int, limit: nat)
    requires forall p :: p in all ==> |p.path| > 0
    ensures forall l :: var a, b := Filter(Summaries(Pipeline(all, minLength, maxLength, limit)), SummaryHasLength(l)),
                                    Filter(Summaries(all), SummaryHasLength(l));
      |a| <= |b| && a == b[..|a|]
  {
    forall l
      ensures var a, b := Filter(Summaries(Pipeline(all, minLength, maxLength, limit)), SummaryHasLength(l)),
                          Filter(Summaries(all), SummaryHasLength(l));
        |a| <= |b| && a == b[..|a|]
    {
      PipelineSummaryStable(all, minLength, maxLength, limit, l);
    }
  }

  /** The sort in `pipelineExample` is stable: of the summaries of one length it returns the
      first ones of `transformPathsToSummary`, in list order. */
  lemma PipelineSummaryStable(all: seq<PathInfo>, minLength: int, maxLength: int, limit: nat, l: int)
    requires forall p :: p in all ==> |p.path| > 0
    ensures forall p :: p in Pipeline(all, minLength, maxLength, limit) ==> |p.path| > 0
    ensures var a, b := Filter(Summaries(Pipeline(all, minLength, maxLength, limit)), SummaryHasLength(l)),
                        Filter(Summaries(all), SummaryHasLength(l));
      |a| <= |b| && a == b[..|a|]
  {
    var t := Pipeline(all, minLength, maxLength, limit);
    PipelineFacts(all, minLength, maxLength, limit);
    var A, B := Filter(t, HasLength(l)), Filter(all, HasLength(l));
    assert |A| <= |B| && A == B[..|A|];
    SummariesFilter(t, l);
    SummariesFilter(all, l);
    SummariesPrefix(B, |A|);
  }

  /** A list argument with `null` read as the empty list. */
  function OrEmpty(path: Option<seq<Point>>): seq<Point> {
    if path.None? then [] else path.value
  }

  class MatrixPathFinderModern {
    const matrix: Matrix
    const rows: int
    const cols: int
    var allPaths: seq<PathInfo>
    var visitedCells: set<Point>
    var pathIndex: map<string, PathInfo>
    var pathsByLength: map<int, seq<PathInfo>>

    /** The matrix is well formed, the three stores agree and every record is a
        `StoredRecord`. */
    predicate Valid()
      reads this`allPaths, this`pathIndex, this`pathsByLength
    {
      && WellFormed(matrix) && rows == |matrix| && cols == |matrix[0]|
      && Indexed(allPaths, pathIndex, pathsByLength)
      && (forall i :: 0 <= i < |allPaths| ==> StoredRecord(allPaths[i]))
    }

    constructor (matrix: Matrix)
      requires WellFormed(matrix)
      ensures Valid() && this.matrix == matrix
      ensures allPaths == [] && visitedCells == {} && pathIndex == map[] && pathsByLength == map[]
    {
      this.matrix := matrix;
      rows := |matrix|;
      cols := |matrix[0]|;
      allPaths := [];
      visitedCells := {};
      pathIndex := map[];
      pathsByLength := map[];
    }

    /** `addPath`: the record goes at the end of `allPaths`, under its id in `pathIndex` and at
        the end of its length group. A record with a new id keeps the stores in agreement,
        after which looking it up by id or by length finds it. */
    method AddPath(info: PathInfo)
      modifies this`allPaths, this`pathIndex, this`pathsByLength
      ensures allPaths == old(allPaths) + [info]
      ensures pathIndex == old(pathIndex)[info.id := info]
      ensures pathsByLength == AddToGroup(old(pathsByLength), info)
      ensures old(Valid()) && info.id !in old(pathIndex) && StoredRecord(info) ==> Valid()
      ensures FindPathById(info.id) == Some(info)
      ensures info in FindPathsByLength(info.length)
    {
      ghost var all0, index0, groups0 := allPaths, pathIndex, pathsByLength;
      ghost var keeps := Valid() && info.id !in pathIndex && StoredRecord(info);
      allPaths := allPaths + [info];
      pathIndex := pathIndex[info.id := info];
      pathsByLength := AddToGroup(pathsByLength, info);
      if keeps {
        assert Valid() by {
          IndexedAdd(all0, index0, groups0, info);
        }
      }
    }

    /** The direction loop of `findMultiplePaths`: every in-bounds, non-'#' neighbour of the
        last cell that is not yet in `visitedCells` is appended to the path, the new path is
        queued and the neighbour is marked. */
    method Explore(currentPath: seq<Point>, queue0: seq<seq<Point>>) returns (queue: seq<seq<Point>>)
      requires WellFormed(matrix) && |currentPath| > 0
      modifies this`visitedCells
      ensures var N := Found(matrix, currentPath[|currentPath| - 1], DIRS, old(visitedCells));
        queue == queue0 + Extend(currentPath, N) && visitedCells == old(visitedCells) + Elems(N)
    {
      ghost var V := visitedCells;
      queue := queue0;
      assert Elems([]) == {} && queue0 + [] == queue0;
      for k := 0 to DIRS
        invariant queue == queue0 + Extend(currentPath, Found(matrix, currentPath[|currentPath| - 1], k, V))
        invariant visitedCells == V + Elems(Found(matrix, currentPath[|currentPath| - 1], k, V))
      {
        queue := Round(currentPath, k, queue, queue0, V);
      }
    }

    /** Round `k` of that loop, with `V` the marks before the loop and `queue0` the queue. */
    method Round(currentPath: seq<Point>, k: nat, queue1: seq<seq<Point>>, ghost queue0: seq<seq<Point>>,
                 ghost V: set<Point>) returns (queue: seq<seq<Point>>)
      requires WellFormed(matrix) && |currentPath| > 0 && k < DIRS
      requires var N := Found(matrix, currentPath[|currentPath| - 1], k, V);
        queue1 == queue0 + Extend(currentPath, N) && visitedCells == V + Elems(N)
      modifies this`visitedCells
      ensures var N := Found(matrix, currentPath[|currentPath| - 1], k + 1, V);
        queue == queue0 + Extend(currentPath, N) && visitedCells == V + Elems(N)
    {
      var current := currentPath[|currentPath| - 1];
      ghost var N := Found(matrix, current, k, V);
      FoundStep(matrix, current, k, V);
      queue := queue1;
      var newRow, newCol := current.row + DIRECTIONS[k].0, current.col + DIRECTIONS[k].1;
      assert Point(newRow, newCol) == Neighbor(current, k);
      if IsValid(matrix, newRow, newCol) && matrix[newRow][newCol] != OBSTACLE {
        var neighbor := Point(newRow, newCol);
        if neighbor !in visitedCells {
          assert Found(matrix, current, k + 1, V) == N + [neighbor];
          var newPath := currentPath + [neighbor];
          ExtendSnoc(currentPath, N, neighbor);
          assert queue0 + Extend(currentPath, N + [neighbor]) == queue + [newPath];
          queue := queue + [newPath];
          visitedCells := visitedCells + {neighbor};
          ElemsSnoc(N, neighbor);
        }
      }
    }

    /** What the search keeps true of the stores: they agree, `pathIds` holds the stored
        ids, every record is a path from `start` to `end` stamped `now`, and there are at
        most `maxPaths` of them. */
    ghost predicate Stored(start: Point, end: Point, maxPaths: int, now: int, pathIds: set<string>)
      reads this`allPaths, this`pathIndex, this`pathsByLength
    {
      && Valid()
      && pathIds == pathIndex.Keys
      && (forall i :: 0 <= i < |allPaths| ==>
            ValidPath(matrix, allPaths[i].path, start, end) && allPaths[i].timestamp == now)
      && |allPaths| <= (if maxPaths > 0 then maxPaths else 0)
    }

    /** The loop invariant of `findMultiplePaths` for the queue `queue` and the id set
        `pathIds`: the stores as above, the queue facts of `Frontier`, and, when
        `start == end`, nothing is ever marked and the only path is `[start]`. */
    ghost predicate Searching(start: Point, end: Point, maxPaths: int, now: int,
                              queue: seq<seq<Point>>, pathIds: set<string>)
      reads this
    {
      && Stored(start, end, maxPaths, now, pathIds)
      && Frontier(matrix, start, end, queue, visitedCells, |allPaths|)
      && (start == end ==>
            && visitedCells == {}
            && ((queue == [[start]] && allPaths == [])
                || (queue == [] && |allPaths| == 1 && allPaths[0].path == [start])))
    }

    /** `findMultiplePaths`: empties the stores, then runs the breadth-first search over
        partial paths, storing each completed path whose id is new, until the queue is empty
        or `maxPaths` records are stored. `now` is what `System.currentTimeMillis()` returns
        while it runs. Every cell is marked when it is first queued, so `end` completes at
        most one queued path and at most one record is stored. */
    method FindMultiplePaths(start: Point, end: Point, maxPaths: int, now: int)
      requires Valid()
      modifies this
      ensures Valid() && visitedCells <= AllCells(matrix)
      ensures |allPaths| <= 1 && |allPaths| <= (if maxPaths > 0 then maxPaths else 0)
      ensures forall i :: 0 <= i < |allPaths| ==>
        ValidPath(matrix, allPaths[i].path, start, end) && allPaths[i].timestamp == now
      ensures start == end && maxPaths > 0 ==> |allPaths| == 1 && allPaths[0].path == [start]
    {
      allPaths := [];
      visitedCells := {};
      pathIndex := map[];
      pathsByLength := map[];
      var queue: seq<seq<Point>> := [[start]];
      var pathIds: set<string> := {};
      FrontierStart(matrix, start, end);
      assert Stored(start, end, maxPaths, now, pathIds);
      while |queue| > 0 && |allPaths| < maxPaths
        invariant Searching(start, end, maxPaths, now, queue, pathIds)
        decreases |AllCells(matrix) - visitedCells|, |queue|
      {
        queue, pathIds := Step(start, end, maxPaths, now, queue, pathIds);
      }
    }

    /** One turn of the loop: the first queued path is dequeued; if it ends at `end` it is
        stored (unless its id is known) and otherwise it is expanded. Either the unmarked
        cells get fewer or the queue gets shorter. */
    method Step(start: Point, end: Point, maxPaths: int, now: int, queue0: seq<seq<Point>>,
                pathIds0: set<string>) returns (queue: seq<seq<Point>>, pathIds: set<string>)
      requires Searching(start, end, maxPaths, now, queue0, pathIds0)
      requires |queue0| > 0 && |allPaths| < maxPaths
      modifies this`allPaths, this`pathIndex, this`pathsByLength, this`visitedCells
      ensures Searching(start, end, maxPaths, now, queue, pathIds)
      ensures || |AllCells(matrix) - visitedCells| < |AllCells(matrix) - old(visitedCells)|
              || (visitedCells == old(visitedCells) && |queue| < |queue0|)
    {
      var currentPath := queue0[0];
      var current := currentPath[|currentPath| - 1];
      if current == end {
        pathIds := Store(start, end, maxPaths, now, queue0, pathIds0);
        queue := queue0[1..];
      } else {
        pathIds := pathIds0;
        queue := Advance(start, end, maxPaths, now, queue0, pathIds0);
      }
    }

    /** The loop body when the dequeued path ends at `end`: its id is stored unless it is
        already among `pathIds`. */
    method Store(start: Point, end: Point, maxPaths: int, now: int, queue: seq<seq<Point>>,
                 pathIds: set<string>) returns (pathIds': set<string>)
      requires Searching(start, end, maxPaths, now, queue, pathIds)
      requires |queue| > 0 && |allPaths| < maxPaths && queue[0][|queue[0]| - 1] == end
      modifies this`allPaths, this`pathIndex, this`pathsByLength
      ensures Searching(start, end, maxPaths, now, queue[1..], pathIds')
    {
      var currentPath := queue[0];
      assert QueuedPath(matrix, currentPath, start);
      assert EndCount(queue, end) == 1 + EndCount(queue[1..], end);
      assert forall i :: 0 <= i < |queue[1..]| ==> queue[1..][i] == queue[i + 1];
      var pathId := GeneratePathId(currentPath);
      pathIds' := pathIds;
      if pathId !in pathIds {
        pathIds' := pathIds + {pathId};
        AddPath(PathInfo(pathId, currentPath, |currentPath|, now));
      }
    }

    /** The loop body otherwise: the path is extended to the unmarked neighbours of its last
        cell, which get marked; either the unmarked cells get fewer or the queue gets
        shorter. */
    method Advance(start: Point, end: Point, maxPaths: int, now: int, queue0: seq<seq<Point>>,
                   pathIds: set<string>) returns (queue: seq<seq<Point>>)
      requires Searching(start, end, maxPaths, now, queue0, pathIds)
      requires |queue0| > 0 && queue0[0][|queue0[0]| - 1] != end
      modifies this`visitedCells
      ensures Searching(start, end, maxPaths, now, queue, pathIds)
      ensures || |AllCells(matrix) - visitedCells| < |AllCells(matrix) - old(visitedCells)|
              || (visitedCells == old(visitedCells) && |queue| < |queue0|)
    {
      var currentPath := queue0[0];
      var rest := queue0[1..];
      assert start != end;
      ExpandFacts(matrix, start, end, queue0, visitedCells, |allPaths|);
      queue := Explore(currentPath, rest);
    }

    /** `findPathById`: the record stored under `id`, if any. In agreeing stores that is
        the record of `allPaths` with that id. */
    function FindPathById(id: string): (r: Option<PathInfo>)
      reads this
      ensures Valid() ==> (r.Some? <==> exists i :: 0 <= i < |allPaths| && allPaths[i].id == id)
      ensures Valid() && r.Some? ==> r.value in allPaths && r.value.id == id
    {
      if id in pathIndex then Some(pathIndex[id]) else None
    }

    /** `findPathsByLength`: the group of `length`, empty when there is none. In agreeing
        stores these are the records of that length, in list order. */
    function FindPathsByLength(length: int): (r: seq<PathInfo>)
      reads this
      ensures Valid() ==> r == Filter(allPaths, HasLength(length))
    {
      if length in pathsByLength then pathsByLength[length]
      else
        assert Valid() ==> Filter(allPaths, HasLength(length)) == [] by {
          if Valid() {
            FilterAbsent(allPaths, length);
          }
        }
        []
    }

    /** `transformPathsToSummary`: one summary per record, in list order, with the record's
        id, first cell, last cell and length. */
    function TransformPathsToSummary(): (r: seq<PathSummary>)
      reads this
      requires forall p :: p in allPaths ==> |p.path| > 0
      ensures |r| == |allPaths|
      ensures forall i :: 0 <= i < |r| ==>
        && r[i].id == allPaths[i].id && r[i].length == allPaths[i].length
        && r[i].start == allPaths[i].path[0] && r[i].end == allPaths[i].path[|allPaths[i].path| - 1]
    {
      Summaries(allPaths)
    }

    /** `filterPathsByLength`: the records with `minLength <= length <= maxLength`, in list
        order, each as often as it is stored. */
    function FilterPathsByLength(minLength: int, maxLength: int): (r: seq<PathInfo>)
      reads this
      ensures forall p :: p in r <==> p in allPaths && minLength <= p.length <= maxLength
      ensures multiset(r) <= multiset(allPaths)
      ensures Subsequence(r, allPaths)
      ensures forall p :: multiset(r)[p] == if minLength <= p.length <= maxLength then multiset(allPaths)[p] else 0
    {
      FilterMembers(allPaths, InRange(minLength, maxLength));
      FilterOrder(allPaths, InRange(minLength, maxLength));
      Filter(allPaths, InRange(minLength, maxLength))
    }

    /** `filterPathsContainingPoint`: nothing for `null`, otherwise the records whose path
        passes through the point, in list order, each as often as it is stored. */
    function FilterPathsContainingPoint(point: Option<Point>): (r: seq<PathInfo>)
      reads this
      ensures point.None? ==> r == []
      ensures point.Some? ==> forall p :: p in r <==> p in allPaths && point.value in p.path
      ensures multiset(r) <= multiset(allPaths)
      ensures Subsequence(r, allPaths)
      ensures point.Some? ==>
        forall p :: multiset(r)[p] == if point.value in p.path then multiset(allPaths)[p] else 0
    {
      if point.None? then
        assert Picks([], [], allPaths);
        []
      else
        var through := (p: PathInfo) => point.value in p.path;
        FilterMembers(allPaths, through);
        FilterOrder(allPaths, through);
        Filter(allPaths, through)
    }

    /** `sortPathsByLengthAndTime`: the records rearranged, shorter first and among equal
        lengths newer first; records equal in both keep their list order. */
    function SortPathsByLengthAndTime(): (r: seq<PathInfo>)
      reads this
      ensures multiset(r) == multiset(allPaths)
      ensures forall i, j :: 0 <= i < j < |r| ==>
        r[i].length < r[j].length || (r[i].length == r[j].length && r[i].timestamp >= r[j].timestamp)
      ensures forall k :: Filter(r, HasKey(ByLengthThenNewest, k)) == Filter(allPaths, HasKey(ByLengthThenNewest, k))
    {
      SortBySorted(allPaths, ByLengthThenNewest);
      assert forall k :: Filter(SortBy(allPaths, ByLengthThenNewest), HasKey(ByLengthThenNewest, k))
                         == Filter(allPaths, HasKey(ByLengthThenNewest, k)) by {
        forall k {
          SortByStable(allPaths, ByLengthThenNewest, k);
        }
      }
      SortBy(allPaths, ByLengthThenNewest)
    }

    /** `sortPathsByTimestampDesc`: the records rearranged, newest first; records with the
        same timestamp keep their list order. */
    function SortPathsByTimestampDesc(): (r: seq<PathInfo>)
      reads this
      ensures multiset(r) == multiset(allPaths)
      ensures forall i, j :: 0 <= i < j < |r| ==> r[i].timestamp >= r[j].timestamp
      ensures forall k :: Filter(r, HasKey(ByNewest, k)) == Filter(allPaths, HasKey(ByNewest, k))
    {
      SortBySorted(allPaths, ByNewest);
      assert forall k :: Filter(SortBy(allPaths, ByNewest), HasKey(ByNewest, k))
                         == Filter(allPaths, HasKey(ByNewest, k)) by {
        forall k {
          SortByStable(allPaths, ByNewest, k);
        }
      }
      SortBy(allPaths, ByNewest)
    }

    /** `unionOfVisitedCells`: nothing for `null` or no paths, otherwise every cell of some
        path. */
    function UnionOfVisitedCells(paths: Option<seq<seq<Point>>>): (r: set<Point>)
      ensures paths.None? ==> r == {}
      ensures paths.Some? ==> forall c :: c in r <==> exists i :: 0 <= i < |paths.value| && c in paths.value[i]
    {
      if paths.None? || paths.value == [] then {} else Elems(Flatten(paths.value))
    }

    /** `intersectionOfPaths`: nothing for `null` or no paths, otherwise the cells of the
        first path that every later path keeps. */
    method IntersectionOfPaths(paths: Option<seq<seq<Point>>>) returns (r: set<Point>)
      ensures paths.None? || paths.value == [] ==> r == {}
      ensures paths.Some? && paths.value != [] ==>
        forall c :: c in r <==> forall i :: 0 <= i < |paths.value| ==> c in paths.value[i]
    {
      if paths.None? || paths.value == [] {
        return {};
      }
      var ps := paths.value;
      r := Elems(ps[0]);
      for i := 1 to |ps|
        invariant forall c :: c in r <==> forall j :: 0 <= j < i ==> c in ps[j]
      {
        r := r * Elems(ps[i]);
      }
    }

    /** `differenceOfPaths`: with `null` read as the empty list, the cells of the first path
        that the second does not contain. */
    function DifferenceOfPaths(path1: Option<seq<Point>>, path2: Option<seq<Point>>): (r: set<Point>)
      ensures forall c :: c in r <==> c in OrEmpty(path1) && c !in OrEmpty(path2)
    {
      Elems(OrEmpty(path1)) - Elems(OrEmpty(path2))
    }

    /** `countCellFrequency`: every cell of a stored path, mapped to the number of times it
        occurs in the stored paths, path by path. */
    function CountCellFrequency(): (r: map<Point, int>)
      reads this
      ensures forall c :: c in r <==> exists i :: 0 <= i < |allPaths| && c in allPaths[i].path
      ensures forall c :: c in r ==> r[c] == Occurrences(PathsOf(allPaths), c)
    {
      var cells := Flatten(PathsOf(allPaths));
      assert forall c :: c in cells ==> multiset(cells)[c] == Occurrences(PathsOf(allPaths), c) by {
        forall c | c in cells {
          FlattenCount(PathsOf(allPaths), c);
        }
      }
      Tally(cells)
    }

    /** `groupPathsByLength`: the records grouped by length, each group in list order. In
        agreeing stores that is `pathsByLength`. */
    function GroupPathsByLength(): (r: map<int, seq<PathInfo>>)
      reads this
      ensures GroupedBy(allPaths, r)
      ensures Valid() ==> r == pathsByLength
    {
      Group(allPaths)
    }

    /** `getTopShortestPaths`: nothing for `n <= 0`, otherwise `n` of the records (or all),
        shortest first, none shorter than a record left out; the sort is stable, so of the
        records of one length it keeps the first ones, in list order. */
    function GetTopShortestPaths(n: int): (r: seq<PathInfo>)
      reads this
      ensures n <= 0 ==> r == []
      ensures n > 0 ==>
        && |r| == (if n < |allPaths| then n else |allPaths|)
        && multiset(r) <= multiset(allPaths)
        && (forall i, j :: 0 <= i < j < |r| ==> r[i].length <= r[j].length)
        && (forall x, y :: x in r && y in multiset(allPaths) - multiset(r) ==> x.length <= y.length)
        && (forall l :: var a, b := Filter(r, HasLength(l)), Filter(allPaths, HasLength(l));
              |a| <= |b| && a == b[..|a|])
    {
      if n <= 0 then []
      else
        TopShortestFacts(allPaths, n);
        TopBy(allPaths, ByLength, n)
    }

    /** `getTopVisitedCells`: a negative `n` makes `limit` throw; otherwise `n` of the cells
        of the stored paths (or all), each with its count, no cell twice, most visited first,
        and no cell left out visited more often than one kept. */
    function GetTopVisitedCells(n: int): (r: Result<seq<Entry>, ContainerError>)
      reads this
      ensures n < 0 ==> r == Failure(IllegalArgument)
      ensures n >= 0 ==> r.Success?
      ensures r.Success? ==>
        var freq := CountCellFrequency();
        var es := r.value;
        && |es| == (if n < |freq| then n else |freq|)
        && (forall i :: 0 <= i < |es| ==> es[i].0 in freq && es[i].1 == freq[es[i].0])
        && (forall i, j :: 0 <= i < j < |es| ==> es[i].0 != es[j].0 && es[i].1 >= es[j].1)
        && (forall i, c :: 0 <= i < |es| && c in freq && c !in EntryCells(es) ==> freq[c] <= es[i].1)
    {
      if n < 0 then Failure(IllegalArgument)
      else
        TopVisitedFacts(allPaths, n);
        Success(TopBy(VisitedEntries(allPaths), ByCountDesc, n))
    }

    /** `pipelineExample`: a negative `limit` makes `limit` throw; otherwise the summaries of
        `limit` of the records with length in range (or all of them), shortest first, no
        record in range left out shorter than one summarised, and, the sort being stable, of
        each length the first records in list order. */
    function PipelineExample(minLength: int, maxLength: int, limit: int): (r: Result<seq<PathSummary>, ContainerError>)
      reads this
      requires forall p :: p in allPaths ==> |p.path| > 0
      ensures limit < 0 ==> r == Failure(IllegalArgument)
      ensures limit >= 0 ==> r.Success?
      ensures r.Success? ==>
        var kept := Filter(allPaths, InRange(minLength, maxLength));
        var s := r.value;
        && |s| == (if limit < |kept| then limit else |kept|)
        && (forall i :: 0 <= i < |s| ==>
              minLength <= s[i].length <= maxLength && exists p :: p in allPaths && s[i] == Summarize(p))
        && (forall i, j :: 0 <= i < j < |s| ==> s[i].length <= s[j].length)
        && (forall i, p ::
              0 <= i < |s| && p in allPaths && minLength <= p.length <= maxLength && Summarize(p) !in s ==>
              s[i].length <= p.length)
        && (forall l :: var a, b := Filter(s, SummaryHasLength(l)), Filter(Summaries(allPaths), SummaryHasLength(l));
              |a| <= |b| && a == b[..|a|])
    {
      if limit < 0 then Failure(IllegalArgument)
      else
        PipelineSummaryFacts(allPaths, minLength, maxLength, limit);
        PipelineSummaryOrder(allPaths, minLength, maxLength, limit);
        Success(Summaries(Pipeline(allPaths, minLength, maxLength, limit)))
    }
  }
}
