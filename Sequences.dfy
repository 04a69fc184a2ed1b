/** Positional insertion and deletion on sequences, used to state what the
    linked lists' indexed operations do to their contents. */
module Sequences {

  /** `s` with `x` placed at position `k`, described element by element. */
  function Insert<X>(s: seq<X>, k: nat, x: X): (r: seq<X>)
    requires k <= |s|
    ensures |r| == |s| + 1 && r[k] == x
    ensures forall j :: 0 <= j < k ==> r[j] == s[j]
    ensures forall j :: k < j < |r| ==> r[j] == s[j - 1]
  {
    s[..k] + [x] + s[k..]
  }

  /** `s` without its element at position `k`, described element by element. */
  function Delete<X>(s: seq<X>, k: nat): (r: seq<X>)
    requires k < |s|
    ensures |r| == |s| - 1
    ensures forall j :: 0 <= j < k ==> r[j] == s[j]
    ensures forall j :: k <= j < |r| ==> r[j] == s[j + 1]
  {
    s[..k] + s[k + 1..]
  }

  /** The position of the first occurrence of `x` in `s`. */
  function IndexOf<X(==)>(s: seq<X>, x: X): (k: nat)
    requires x in s
    ensures k < |s| && s[k] == x && x !in s[..k]
  {
    if s[0] == x then 0 else 1 + IndexOf(s[1..], x)
  }

  /** `n` copies of `x`. */
  function Copies<X>(x: X, n: nat): (r: seq<X>)
    ensures |r| == n && forall j :: 0 <= j < n ==> r[j] == x
  {
    seq(n, _ => x)
  }

  /** One more copy at the end gives one more copy. */
  lemma CopiesSnoc<X>(x: X, n: nat)
    ensures Copies(x, n) + [x] == Copies(x, n + 1)
  {
    assert forall j :: 0 <= j < n + 1 ==> (Copies(x, n) + [x])[j] == x;
  }
}
