/** The stream operations the modern path finder chains together: `filter`, a stable
    `sorted` on a comparator key, `flatMap` and `groupingBy(..., counting())`. Each is a
    function on sequences with the properties the Java library documents proved about it. */
module Streams {

  /** `filter(f)`: the elements that satisfy `f`, in their order. */
  function Filter<X(!new)>(s: seq<X>, f: X -> bool): (r: seq<X>)
    ensures |r| <= |s|
  {
    if s == [] then [] else (if f(s[0]) then [s[0]] else []) + Filter(s[1..], f)
  }

  /** The filter keeps exactly the elements that satisfy `f`, none of them more often than
      they occur. */
  lemma {:induction false} FilterMembers<X(!new)>(s: seq<X>, f: X -> bool)
    ensures forall x :: x in Filter(s, f) <==> x in s && f(x)
    ensures multiset(Filter(s, f)) <= multiset(s)
  {
    if s != [] {
      FilterMembers(s[1..], f);
      assert s == [s[0]] + s[1..];
    }
  }

  /** A filter that no element passes keeps nothing. */
  lemma {:induction false} FilterNone<X(!new)>(s: seq<X>, f: X -> bool)
    requires forall x :: x in s ==> !f(x)
    ensures Filter(s, f) == []
  {
    if s != [] {
      assert s[0] in s && forall j :: 0 <= j < |s[1..]| ==> s[1..][j] == s[j + 1];
      FilterNone(s[1..], f);
    }
  }

  /** Filtering works piece by piece, so it keeps the order of the elements it keeps. */
  lemma {:induction false} FilterConcat<X(!new)>(a: seq<X>, b: seq<X>, f: X -> bool)
    ensures Filter(a + b, f) == Filter(a, f) + Filter(b, f)
  {
    if a == [] {
      assert a + b == b;
    } else {
      var h := if f(a[0]) then [a[0]] else [];
      assert (a + b)[0] == a[0] && (a + b)[1..] == a[1..] + b;
      assert Filter(a + b, f) == h + Filter(a[1..] + b, f);
      FilterConcat(a[1..], b, f);
      assert Filter(a, f) == h + Filter(a[1..], f);
      assert h + (Filter(a[1..], f) + Filter(b, f)) == (h + Filter(a[1..], f)) + Filter(b, f);
    }
  }

  /** `idx` picks the elements of `r` out of `s`: `r[i]` is `s[idx[i]]`, at increasing
      positions. */
  predicate Picks<X(==)>(idx: seq<nat>, r: seq<X>, s: seq<X>) {
    && |idx| == |r|
    && (forall i :: 0 <= i < |idx| ==> idx[i] < |s| && r[i] == s[idx[i]])
    && (forall i, j :: 0 <= i < j < |idx| ==> idx[i] < idx[j])
  }

  /** `r` is `s` with some elements left out and the rest in their order. */
  ghost predicate Subsequence<X>(r: seq<X>, s: seq<X>) {
    exists idx: seq<nat> :: Picks(idx, r, s)
  }

  /** The filter keeps the elements that satisfy `f` in their order, and keeps every
      occurrence of them: no other sequence has both properties. */
  lemma FilterOrder<X(!new)>(s: seq<X>, f: X -> bool)
    ensures Subsequence(Filter(s, f), s)
    ensures forall x :: multiset(Filter(s, f))[x] == if f(x) then multiset(s)[x] else 0
  {
    var idx := FilterPicks(s, f);
    FilterCount(s, f);
  }

  /** The positions of `s` the filter keeps. */
  lemma {:induction false} FilterPicks<X(!new)>(s: seq<X>, f: X -> bool) returns (idx: seq<nat>)
    ensures Picks(idx, Filter(s, f), s)
  {
    if s == [] {
      idx := [];
    } else {
      var t := s[1..];
      var idx0 := FilterPicks(t, f);
      PicksShift(idx0, Filter(t, f), s);
      var shifted: seq<nat> := seq(|idx0|, i requires 0 <= i < |idx0| => idx0[i] + 1);
      if f(s[0]) {
        idx := [0] + shifted;
        assert Filter(s, f) == [s[0]] + Filter(t, f);
      } else {
        idx := shifted;
        assert Filter(s, f) == Filter(t, f);
      }
    }
  }

  /** Positions picked out of the tail of `s`, moved up by one, pick the same elements out
      of `s`. */
  lemma PicksShift<X>(idx0: seq<nat>, r: seq<X>, s: seq<X>)
    requires |s| > 0 && Picks(idx0, r, s[1..])
    ensures Picks(seq(|idx0|, i requires 0 <= i < |idx0| => idx0[i] + 1), r, s)
    ensures Picks([0] + seq(|idx0|, i requires 0 <= i < |idx0| => idx0[i] + 1), [s[0]] + r, s)
  {
  }

  /** Every element that satisfies `f` is kept as often as it occurs; no other is kept. */
  lemma {:induction false} FilterCount<X(!new)>(s: seq<X>, f: X -> bool)
    ensures forall x :: multiset(Filter(s, f))[x] == if f(x) then multiset(s)[x] else 0
  {
    if s != [] {
      var t := s[1..];
      FilterCount(t, f);
      var h := if f(s[0]) then [s[0]] else [];
      assert Filter(s, f) == h + Filter(t, f);
      assert s == [s[0]] + t;
      assert multiset(s) == multiset{s[0]} + multiset(t);
      assert multiset(Filter(s, f)) == multiset(h) + multiset(Filter(t, f));
    }
  }

  /** Filtering by `g` after a weaker filter `f` is filtering by `g`. */
  lemma {:induction false} FilterNested<X(!new)>(s: seq<X>, f: X -> bool, g: X -> bool)
    requires forall x :: g(x) ==> f(x)
    ensures Filter(Filter(s, f), g) == Filter(s, g)
  {
    if s != [] {
      FilterNested(s[1..], f, g);
      var h := if f(s[0]) then [s[0]] else [];
      FilterConcat(h, Filter(s[1..], f), g);
      assert Filter(h, g) == (if g(s[0]) then [s[0]] else []) by {
        if f(s[0]) {
          assert h[1..] == [];
        }
      }
    }
  }

  /** A filter that every element passes changes nothing. */
  lemma {:induction false} FilterAll<X(!new)>(s: seq<X>, f: X -> bool)
    requires forall x :: x in s ==> f(x)
    ensures Filter(s, f) == s
  {
    if s != [] {
      assert s[0] in s && forall j :: 0 <= j < |s[1..]| ==> s[1..][j] == s[j + 1];
      FilterAll(s[1..], f);
      assert Filter(s, f) == [s[0]] + s[1..];
    }
  }

  /** Sort keys: an ascending primary key and an ascending tie-breaker. A descending
      comparison is an ascending one on the negated value. */
  type Key = (int, int)

  predicate KeyLe(a: Key, b: Key) {
    a.0 < b.0 || (a.0 == b.0 && a.1 <= b.1)
  }

  predicate SortedBy<X>(s: seq<X>, key: X -> Key) {
    forall i, j :: 0 <= i < j < |s| ==> KeyLe(key(s[i]), key(s[j]))
  }

  /** The elements whose key is `k`. */
  function HasKey<X>(key: X -> Key, k: Key): X -> bool {
    x => key(x) == k
  }

  /** Puts `x` before the first element whose key is not smaller than its own. */
  function InsertBy<X>(x: X, s: seq<X>, key: X -> Key): (r: seq<X>)
    ensures |r| == |s| + 1 && multiset(r) == multiset(s) + multiset{x}
  {
    if s == [] then [x]
    else if KeyLe(key(x), key(s[0])) then [x] + s
    else
      assert s == [s[0]] + s[1..];
      [s[0]] + InsertBy(x, s[1..], key)
  }

  /** `sorted(comparator)`: the stable sort of the Java library, written as an insertion
      sort that inserts each element in front of the elements of equal key that follow it. */
  function SortBy<X>(s: seq<X>, key: X -> Key): (r: seq<X>)
    ensures |r| == |s| && multiset(r) == multiset(s)
  {
    if s == [] then []
    else
      assert s == [s[0]] + s[1..];
      InsertBy(s[0], SortBy(s[1..], key), key)
  }

  /** An element no greater than the head of a sorted sequence can go in front of it. */
  lemma SortedCons<X>(a: X, s: seq<X>, key: X -> Key)
    requires SortedBy(s, key) && (s != [] ==> KeyLe(key(a), key(s[0])))
    ensures SortedBy([a] + s, key)
  {
    var r := [a] + s;
    forall i, j | 0 <= i < j < |r|
      ensures KeyLe(key(r[i]), key(r[j]))
    {
      if i == 0 && j > 1 {
        assert KeyLe(key(s[0]), key(s[j - 1]));
      }
    }
  }

  lemma {:induction false} InsertBySorted<X>(x: X, s: seq<X>, key: X -> Key)
    requires SortedBy(s, key)
    ensures var r := InsertBy(x, s, key);
      SortedBy(r, key) && r[0] == (if s == [] || KeyLe(key(x), key(s[0])) then x else s[0])
  {
    if s == [] {
    } else if KeyLe(key(x), key(s[0])) {
      SortedCons(x, s, key);
    } else {
      var t := s[1..];
      assert SortedBy(t, key);
      InsertBySorted(x, t, key);
      assert t != [] ==> t[0] == s[1];
      SortedCons(s[0], InsertBy(x, t, key), key);
    }
  }

  /** The sort orders by key. */
  lemma {:induction false} SortBySorted<X>(s: seq<X>, key: X -> Key)
    ensures SortedBy(SortBy(s, key), key)
  {
    if s != [] {
      SortBySorted(s[1..], key);
      InsertBySorted(s[0], SortBy(s[1..], key), key);
    }
  }

  /** Filtering a sequence with a given first element. */
  lemma FilterCons<X(!new)>(a: X, s: seq<X>, f: X -> bool)
    ensures Filter([a] + s, f) == (if f(a) then [a] else []) + Filter(s, f)
  {
    assert ([a] + s)[0] == a && ([a] + s)[1..] == s;
  }

  /** Inserting into a sorted sequence puts `x` ahead of the elements with its key. */
  lemma {:induction false} InsertByStable<X(!new)>(x: X, s: seq<X>, key: X -> Key, k: Key)
    requires SortedBy(s, key)
    ensures key(x) == k ==> Filter(InsertBy(x, s, key), HasKey(key, k)) == [x] + Filter(s, HasKey(key, k))
    ensures key(x) != k ==> Filter(InsertBy(x, s, key), HasKey(key, k)) == Filter(s, HasKey(key, k))
  {
    var f := HasKey(key, k);
    if s == [] || KeyLe(key(x), key(s[0])) {
      assert InsertBy(x, s, key) == [x] + s;
      FilterCons(x, s, f);
      assert f(x) == (key(x) == k);
    } else {
      var t := s[1..];
      assert SortedBy(t, key);
      InsertByStable(x, t, key, k);
      FilterCons(s[0], InsertBy(x, t, key), f);
      FilterCons(s[0], t, f);
      assert [s[0]] + t == s;
      assert f(s[0]) == (key(s[0]) == k) && f(x) == (key(x) == k);
      assert key(s[0]) != key(x);
      var F := Filter(t, f);
      if key(x) == k {
        assert Filter(s, f) == F;
        assert Filter(InsertBy(x, s, key), f) == [x] + F;
      } else if key(s[0]) == k {
        assert Filter(s, f) == [s[0]] + F;
        assert Filter(InsertBy(x, s, key), f) == [s[0]] + F;
      } else {
        assert Filter(s, f) == F;
        assert Filter(InsertBy(x, s, key), f) == F;
      }
    }
  }

  /** The sort is stable: the elements of any one key keep their order. */
  lemma {:induction false} SortByStable<X(!new)>(s: seq<X>, key: X -> Key, k: Key)
    ensures Filter(SortBy(s, key), HasKey(key, k)) == Filter(s, HasKey(key, k))
  {
    if s != [] {
      SortByStable(s[1..], key, k);
      SortBySorted(s[1..], key);
      InsertByStable(s[0], SortBy(s[1..], key), key, k);
    }
  }

  /** Filters that agree on the elements select the same elements. */
  lemma {:induction false} FilterSame<X(!new)>(s: seq<X>, f: X -> bool, g: X -> bool)
    requires forall x :: x in s ==> f(x) == g(x)
    ensures Filter(s, f) == Filter(s, g)
  {
    if s != [] {
      assert s[0] in s && forall j :: 0 <= j < |s[1..]| ==> s[1..][j] == s[j + 1];
      FilterSame(s[1..], f, g);
    }
  }

  /** `sorted(comparator).limit(n)`: the first `n` elements of the stable sort. */
  function TopBy<X>(s: seq<X>, key: X -> Key, n: nat): seq<X> {
    var t := SortBy(s, key);
    t[..if n < |t| then n else |t|]
  }

  /** The first `n` of the sort are `n` (or all) of the elements, in key order, and no
      element left out has a smaller key than one kept. */
  lemma TopByFacts<X>(s: seq<X>, key: X -> Key, n: nat)
    ensures var r := TopBy(s, key, n);
      && |r| == (if n < |s| then n else |s|)
      && SortedBy(r, key)
      && multiset(r) <= multiset(s)
      && forall x, y :: x in r && y in multiset(s) - multiset(r) ==> KeyLe(key(x), key(y))
  {
    var t := SortBy(s, key);
    SortBySorted(s, key);
    var m := if n < |t| then n else |t|;
    SortedSplit(t, key, m);
    assert multiset(t) == multiset(s);
  }

  /** The sort keeps the order of equal keys, so among the elements of one key the first
      `n` of the sort keep the first ones of the input, in input order. */
  lemma TopByStable<X(!new)>(s: seq<X>, key: X -> Key, n: nat, k: Key)
    ensures var a, b := Filter(TopBy(s, key, n), HasKey(key, k)), Filter(s, HasKey(key, k));
      |a| <= |b| && a == b[..|a|]
  {
    var t := SortBy(s, key);
    var m := if n < |t| then n else |t|;
    assert t == t[..m] + t[m..];
    FilterConcat(t[..m], t[m..], HasKey(key, k));
    SortByStable(s, key, k);
  }

  /** A sorted sequence cut in two: the parts make up the whole, and every element of the
      front is no greater than every element of the back. */
  lemma SortedSplit<X>(t: seq<X>, key: X -> Key, m: nat)
    requires SortedBy(t, key) && m <= |t|
    ensures SortedBy(t[..m], key)
    ensures multiset(t[..m]) <= multiset(t) && multiset(t) - multiset(t[..m]) == multiset(t[m..])
    ensures forall x, y :: x in t[..m] && y in multiset(t) - multiset(t[..m]) ==> KeyLe(key(x), key(y))
  {
    var r, rest := t[..m], t[m..];
    assert t == r + rest;
    assert multiset(t) == multiset(r) + multiset(rest);
    forall x, y | x in r && y in multiset(rest)
      ensures KeyLe(key(x), key(y))
    {
      var i :| 0 <= i < |r| && r[i] == x;
      var j :| 0 <= j < |rest| && rest[j] == y;
      assert t[i] == x && t[m + j] == y;
    }
  }

  /** The first `n` of the sort are `n` (or all) of the elements, in key order. */
  lemma TopByShape<X>(s: seq<X>, key: X -> Key, n: nat)
    ensures var r := TopBy(s, key, n);
      |r| == (if n < |s| then n else |s|) && SortedBy(r, key)
  {
    SortBySorted(s, key);
  }

  /** In elements: what the first `n` keep comes from `s`, and an element of `s` they leave
      out has no smaller key than any they keep. */
  lemma TopByMembers<X>(s: seq<X>, key: X -> Key, n: nat)
    ensures var r := TopBy(s, key, n);
      && (forall x :: x in r ==> x in s)
      && (forall x, y :: x in r && y in s && y !in r ==> KeyLe(key(x), key(y)))
  {
    var r := TopBy(s, key, n);
    TopByFacts(s, key, n);
    forall x | x in r
      ensures x in s
    {
      assert x in multiset(r);
    }
    forall x, y | x in r && y in s && y !in r
      ensures KeyLe(key(x), key(y))
    {
      assert y in multiset(s) - multiset(r);
    }
  }

  /** `flatMap(List::stream)`: the elements of every list, list after list. */
  function Flatten<X(!new)>(ss: seq<seq<X>>): (r: seq<X>)
    ensures forall x :: x in r <==> exists i :: 0 <= i < |ss| && x in ss[i]
  {
    if ss == [] then []
    else
      assert forall i :: 0 < i < |ss| ==> ss[i] == ss[1..][i - 1];
      ss[0] + Flatten(ss[1..])
  }

  /** `groupingBy(x -> x, counting())`: every element mapped to the number of its
      occurrences, counted one element at a time. */
  function Tally<X(==,!new)>(s: seq<X>): (m: map<X, int>)
    ensures forall x :: x in m <==> x in s
    ensures forall x :: x in m ==> m[x] == multiset(s)[x]
  {
    if s == [] then map[]
    else
      var t, x := Tally(s[..|s| - 1]), s[|s| - 1];
      assert s == s[..|s| - 1] + [x];
      t[x := (if x in t then t[x] else 0) + 1]
  }
}
