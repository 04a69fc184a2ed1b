/** The records the modern path finder stores: `PathInfo` and its summary `PathSummary`,
    the textual path id, and the two indexes kept beside the list of records (by id and by
    length), with the facts that keep the three consistent. */
module PathRecords {
  import opened Wrappers
  import opened Decimal
  import opened Points
  import opened Streams

  /** `PathInfo`: an id, the cells of the path, `length` (set to `path.size()` by the
      constructor) and the clock reading taken when the record was made. */
  datatype PathInfo = PathInfo(id: string, path: seq<Point>, length: int, timestamp: int)

  /** The argument of `PathInfo.equals(Object)`: null, a `PathInfo`, or an object of another
      class. */
  datatype InfoObj = NullInfo | Info(info: PathInfo) | OtherInfoClass

  /** `PathInfo.equals`: the same object, or another `PathInfo` with an equal id; false for
      null and for objects of other classes. */
  function Equals(a: PathInfo, o: InfoObj): (r: bool)
    ensures !o.Info? ==> !r
    ensures o.Info? && o.info == a ==> r
  {
    o.Info? && o.info.id == a.id
  }

  /** Equality by id is an equivalence: reflexive, symmetric and transitive. */
  lemma EqualsEquivalence(a: PathInfo, b: PathInfo, c: PathInfo)
    ensures Equals(a, Info(a))
    ensures Equals(a, Info(b)) <==> Equals(b, Info(a))
    ensures Equals(a, Info(b)) && Equals(b, Info(c)) ==> Equals(a, Info(c))
  {
  }

  /** `PathSummary`: the id, the first and the last cell and the length of a record. */
  datatype PathSummary = PathSummary(id: string, start: Point, end: Point, length: int)

  /** The summary `transformPathsToSummary` and `pipelineExample` build; the Java code
      fails on an empty path (`get(0)`). */
  function Summarize(p: PathInfo): PathSummary
    requires |p.path| > 0
  {
    PathSummary(p.id, p.path[0], p.path[|p.path| - 1], p.length)
  }

  function Summaries(ps: seq<PathInfo>): (r: seq<PathSummary>)
    requires forall p :: p in ps ==> |p.path| > 0
    ensures |r| == |ps| && forall i :: 0 <= i < |ps| ==> r[i] == Summarize(ps[i])
  {
    if ps == [] then [] else [Summarize(ps[0])] + Summaries(ps[1..])
  }

  /** The summaries of length `length`. */
  function SummaryHasLength(length: int): PathSummary -> bool {
    (s: PathSummary) => s.length == length
  }

  /** Summarising and then keeping one length is keeping that length and then summarising. */
  lemma {:induction false} SummariesFilter(ps: seq<PathInfo>, length: int)
    requires forall p :: p in ps ==> |p.path| > 0
    ensures forall p :: p in Filter(ps, HasLength(length)) ==> |p.path| > 0
    ensures Filter(Summaries(ps), SummaryHasLength(length)) == Summaries(Filter(ps, HasLength(length)))
  {
    FilterMembers(ps, HasLength(length));
    if ps != [] {
      var t := ps[1..];
      assert forall p :: p in t ==> p in ps;
      SummariesFilter(t, length);
      var S := Summaries(ps);
      assert S[0] == Summarize(ps[0]) && S[1..] == Summaries(t);
      var rest := Filter(t, HasLength(length));
      if ps[0].length == length {
        var kept := [ps[0]] + rest;
        assert Filter(ps, HasLength(length)) == kept;
        assert kept[0] == ps[0] && kept[1..] == rest;
        assert Summaries(kept) == [Summarize(ps[0])] + Summaries(rest);
      } else {
        assert Filter(ps, HasLength(length)) == rest;
      }
    }
  }

  /** The summaries of a prefix are a prefix of the summaries. */
  lemma SummariesPrefix(ps: seq<PathInfo>, m: nat)
    requires forall p :: p in ps ==> |p.path| > 0
    requires m <= |ps|
    ensures forall p :: p in ps[..m] ==> |p.path| > 0
    ensures Summaries(ps[..m]) == Summaries(ps)[..m]
  {
  }

  /** Every record of the list has its summary among the summaries. */
  lemma SummariesMembers(ps: seq<PathInfo>)
    requires forall p :: p in ps ==> |p.path| > 0
    ensures forall p :: p in ps ==> Summarize(p) in Summaries(ps)
  {
    forall p | p in ps
      ensures Summarize(p) in Summaries(ps)
    {
      var k :| 0 <= k < |ps| && ps[k] == p;
      assert Summaries(ps)[k] == Summarize(p);
    }
  }

  /** `p.row + "," + p.col`. */
  function CellId(p: Point): string {
    IntToString(p.row) + "," + IntToString(p.col)
  }

  /** `generatePathId`: the cell ids joined by "->"; the empty path gives "". */
  function GeneratePathId(path: seq<Point>): string {
    if |path| == 0 then ""
    else CellId(path[0]) + (if |path| == 1 then "" else "->" + GeneratePathId(path[1..]))
  }

  /** A cell id followed by text that cannot continue a number identifies the cell and what
      follows it. */
  lemma CellIdSplit(p: Point, x: string, q: Point, y: string)
    requires EndsNumber(x) && EndsNumber(y)
    requires CellId(p) + x == CellId(q) + y
    ensures p == q && x == y
  {
    CellIdPieces(p, x);
    CellIdPieces(q, y);
    IntSplit(p.row, "," + IntToString(p.col) + x, q.row, "," + IntToString(q.col) + y);
    IntSplit(p.col, x, q.col, y);
  }

  /** A cell id followed by `x` is the row, then "," and the column followed by `x`. */
  lemma CellIdPieces(p: Point, x: string)
    ensures CellId(p) + x == IntToString(p.row) + ("," + IntToString(p.col) + x)
    ensures ("," + IntToString(p.col) + x)[1..] == IntToString(p.col) + x
  {
    var r, c := IntToString(p.row), IntToString(p.col);
    assert CellId(p) + x == r + ("," + c + x);
  }

  /** Distinct paths have distinct ids, for any coordinates: every "->" is followed by a
      cell id, and a minus sign right after the digits of a number can only start "->". */
  lemma {:induction false} PathIdInjective(a: seq<Point>, b: seq<Point>)
    requires GeneratePathId(a) == GeneratePathId(b)
    ensures a == b
  {
    if a != [] && b != [] {
      PathIdHeads(a, b);
      if |a| > 1 {
        PathIdInjective(a[1..], b[1..]);
      }
      assert a == [a[0]] + a[1..] && b == [b[0]] + b[1..];
    }
  }

  /** The text after the first cell id: "" for a single cell, otherwise "->" and the id of
      the rest. */
  function PathIdTail(path: seq<Point>): string
    requires |path| > 0
  {
    if |path| == 1 then "" else "->" + GeneratePathId(path[1..])
  }

  /** Equal ids of non-empty paths have the same first cell and the same rest. */
  lemma PathIdHeads(a: seq<Point>, b: seq<Point>)
    requires a != [] && b != [] && GeneratePathId(a) == GeneratePathId(b)
    ensures a[0] == b[0] && (|a| > 1 <==> |b| > 1)
    ensures |a| > 1 ==> GeneratePathId(a[1..]) == GeneratePathId(b[1..])
  {
    var ta, tb := PathIdTail(a), PathIdTail(b);
    assert GeneratePathId(a) == CellId(a[0]) + ta;
    assert GeneratePathId(b) == CellId(b[0]) + tb;
    CellIdSplit(a[0], ta, b[0], tb);
    if |a| > 1 && |b| > 1 {
      assert GeneratePathId(a[1..]) == ta[2..] && GeneratePathId(b[1..]) == tb[2..];
    }
  }

  function Ids(all: seq<PathInfo>): set<string> {
    set p | p in all :: p.id
  }

  function Lengths(all: seq<PathInfo>): set<int> {
    set p | p in all :: p.length
  }

  /** The records of length `length`. */
  function HasLength(length: int): PathInfo -> bool {
    (p: PathInfo) => p.length == length
  }

  /** `m` groups `all` by length, as `groupingBy(PathInfo::getLength)` does: one key per
      length that occurs, holding the records of that length in list order. */
  predicate GroupedBy(all: seq<PathInfo>, m: map<int, seq<PathInfo>>) {
    && m.Keys == Lengths(all)
    && (forall length :: length in m ==> m[length] == Filter(all, HasLength(length)))
  }

  /** `computeIfAbsent(length, k -> new ArrayList<>()).add(p)`. */
  function AddToGroup(m: map<int, seq<PathInfo>>, p: PathInfo): map<int, seq<PathInfo>> {
    m[p.length := (if p.length in m then m[p.length] else []) + [p]]
  }

  /** Nothing in `all` has a length that is not a key of its grouping. */
  lemma FilterAbsent(all: seq<PathInfo>, length: int)
    requires length !in Lengths(all)
    ensures Filter(all, HasLength(length)) == []
  {
    FilterNone(all, HasLength(length));
  }

  /** Adding a record to the list and to its group keeps the grouping. */
  lemma GroupAdd(all: seq<PathInfo>, m: map<int, seq<PathInfo>>, p: PathInfo)
    requires GroupedBy(all, m)
    ensures GroupedBy(all + [p], AddToGroup(m, p))
  {
    var m' := AddToGroup(m, p);
    assert Lengths(all + [p]) == Lengths(all) + {p.length};
    forall length | length in m'
      ensures m'[length] == Filter(all + [p], HasLength(length))
    {
      FilterConcat(all, [p], HasLength(length));
      FilterCons(p, [], HasLength(length));
      assert [p] + [] == [p];
      if length == p.length && length !in m {
        FilterAbsent(all, length);
      }
    }
  }

  /** There is only one grouping of a list. */
  lemma GroupedUnique(all: seq<PathInfo>, m1: map<int, seq<PathInfo>>, m2: map<int, seq<PathInfo>>)
    requires GroupedBy(all, m1) && GroupedBy(all, m2)
    ensures m1 == m2
  {
  }

  /** `groupingBy(PathInfo::getLength)`, accumulating the records one at a time. */
  function Group(all: seq<PathInfo>): (m: map<int, seq<PathInfo>>)
    ensures GroupedBy(all, m)
  {
    if all == [] then map[]
    else
      var rest := all[..|all| - 1];
      assert all == rest + [all[|all| - 1]];
      GroupAdd(rest, Group(rest), all[|all| - 1]);
      AddToGroup(Group(rest), all[|all| - 1])
  }

  /** The three stores agree: ids are distinct, `index` maps exactly the stored ids to their
      records and `byLength` groups the records by length. */
  predicate Indexed(all: seq<PathInfo>, index: map<string, PathInfo>, byLength: map<int, seq<PathInfo>>) {
    && (forall i, j :: 0 <= i < j < |all| ==> all[i].id != all[j].id)
    && index.Keys == Ids(all)
    && (forall i :: 0 <= i < |all| ==> all[i].id in index && index[all[i].id] == all[i])
    && GroupedBy(all, byLength)
  }

  /** Appending a record adds its id. */
  lemma IdsSnoc(all: seq<PathInfo>, p: PathInfo)
    ensures Ids(all + [p]) == Ids(all) + {p.id}
  {
    forall x | x in Ids(all + [p])
      ensures x in Ids(all) + {p.id}
    {
      var q :| q in all + [p] && q.id == x;
      assert q in all || q == p;
    }
    forall x | x in Ids(all)
      ensures x in Ids(all + [p])
    {
      var q :| q in all && q.id == x;
      assert q in all + [p];
    }
    assert p in all + [p];
  }

  /** `addPath` of a record with a new id keeps the stores in agreement. */
  lemma IndexedAdd(all: seq<PathInfo>, index: map<string, PathInfo>, byLength: map<int, seq<PathInfo>>, p: PathInfo)
    requires Indexed(all, index, byLength) && p.id !in index
    ensures Indexed(all + [p], index[p.id := p], AddToGroup(byLength, p))
  {
    var all', index' := all + [p], index[p.id := p];
    GroupAdd(all, byLength, p);
    IdsSnoc(all, p);
    forall i, j | 0 <= i < j < |all'|
      ensures all'[i].id != all'[j].id
    {
      if j == |all| {
        assert all'[i].id in Ids(all);
      } else {
        assert all'[i] == all[i] && all'[j] == all[j];
      }
    }
    forall i | 0 <= i < |all'|
      ensures all'[i].id in index' && index'[all'[i].id] == all'[i]
    {
      if i < |all| {
        assert all'[i] == all[i];
      }
    }
  }

  /** The sizes of the groups of lengths `0` to `n - 1`, in key order. */
  function GroupSizes(byLength: map<int, seq<PathInfo>>, n: nat): nat {
    if n == 0 then 0
    else GroupSizes(byLength, n - 1) + (if n - 1 in byLength then |byLength[n - 1]| else 0)
  }

  /** The records shorter than `n`. */
  function ShorterThan(n: int): PathInfo -> bool {
    (p: PathInfo) => p.length < n
  }

  /** The records shorter than `n + 1` are those shorter than `n` and those of length `n`. */
  lemma {:induction false} ShorterSplit(all: seq<PathInfo>, n: int)
    ensures |Filter(all, ShorterThan(n + 1))| == |Filter(all, ShorterThan(n))| + |Filter(all, HasLength(n))|
  {
    if all != [] {
      ShorterSplit(all[1..], n);
      FilterCons(all[0], all[1..], ShorterThan(n + 1));
      FilterCons(all[0], all[1..], ShorterThan(n));
      FilterCons(all[0], all[1..], HasLength(n));
      assert [all[0]] + all[1..] == all;
    }
  }

  lemma {:induction false} GroupSizesCount(all: seq<PathInfo>, byLength: map<int, seq<PathInfo>>, n: nat)
    requires GroupedBy(all, byLength) && forall p :: p in all ==> p.length >= 0
    ensures GroupSizes(byLength, n) == |Filter(all, ShorterThan(n))|
  {
    if n == 0 {
      FilterNone(all, ShorterThan(0));
    } else {
      GroupSizesCount(all, byLength, n - 1);
      ShorterSplit(all, n - 1);
      if n - 1 !in byLength {
        FilterAbsent(all, n - 1);
      }
    }
  }

  /** The number of records is the sum of the sizes of the length groups. */
  lemma SizeIsSumOfGroups(all: seq<PathInfo>, index: map<string, PathInfo>, byLength: map<int, seq<PathInfo>>, n: nat)
    requires Indexed(all, index, byLength)
    requires forall p :: p in all ==> 0 <= p.length < n
    ensures |all| == GroupSizes(byLength, n)
  {
    GroupSizesCount(all, byLength, n);
    FilterAll(all, ShorterThan(n));
  }
}
