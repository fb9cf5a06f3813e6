/** Sorting by a number, the largest first. */
module Sorting {

  ghost predicate Descending<T>(s: seq<T>, rank: T -> int) {
    forall j, k :: 0 <= j < k < |s| ==> rank(s[j]) >= rank(s[k])
  }

  /** Callers may rely on no order among elements of one rank. */
  method SortDown<T>(s: seq<T>, rank: T -> int) returns (sorted: seq<T>)
    ensures multiset(sorted) == multiset(s) && Descending(sorted, rank)
  {
    sorted := [];
    for i := 0 to |s|
      invariant multiset(sorted) == multiset(s[..i]) && Descending(sorted, rank)
    {
      assert s[..i + 1] == s[..i] + [s[i]];
      sorted := InsertDown(sorted, rank, s[i]);
    }
    assert s[..|s|] == s;
  }

  method InsertDown<T>(sorted: seq<T>, rank: T -> int, x: T) returns (more: seq<T>)
    requires Descending(sorted, rank)
    ensures multiset(more) == multiset(sorted) + multiset{x} && Descending(more, rank)
  {
    hide Descending;
    var k := 0;
    while k < |sorted| && rank(sorted[k]) >= rank(x)
      invariant k <= |sorted|
      invariant forall j :: 0 <= j < k ==> rank(sorted[j]) >= rank(x)
    {
      k := k + 1;
    }
    InsertPermutes(sorted, x, k);
    InsertKeepsOrder(sorted, rank, x, k);
    more := sorted[..k] + ([x] + sorted[k..]);
  }

  lemma InsertPermutes<T>(sorted: seq<T>, x: T, k: nat)
    requires k <= |sorted|
    ensures multiset(sorted[..k] + ([x] + sorted[k..])) == multiset(sorted) + multiset{x}
  {
    assert sorted == sorted[..k] + sorted[k..];
  }

  lemma InsertKeepsOrder<T>(sorted: seq<T>, rank: T -> int, x: T, k: nat)
    requires Descending(sorted, rank) && k <= |sorted|
    requires forall j :: 0 <= j < k ==> rank(sorted[j]) >= rank(x)
    requires k < |sorted| ==> rank(sorted[k]) < rank(x)
    ensures Descending(sorted[..k] + ([x] + sorted[k..]), rank)
  {
    var more := sorted[..k] + ([x] + sorted[k..]);
    forall i, j | 0 <= i < j < |more| ensures rank(more[i]) >= rank(more[j]) {
      assert more[i] == if i < k then sorted[i] else if i == k then x else sorted[i - 1];
      assert more[j] == if j < k then sorted[j] else if j == k then x else sorted[j - 1];
      assert k < j ==> rank(sorted[k]) >= rank(sorted[j - 1]);
    }
  }
}
