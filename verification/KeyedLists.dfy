/**
 Lists that are kept sorted by a textual key, each key once: pending proposals, environment entries,
 entry names. They are updated in place under a known key, and sorted again after a new key is appended.
 */
module KeyedLists {
  import opened Options

  // ----- The order of keys -----

  predicate Less(a: string, b: string) {
    if b == "" then false
    else if a == "" then true
    else a[0] < b[0] || (a[0] == b[0] && Less(a[1..], b[1..]))
  }

  /** One key is a proper beginning of the other, or the first character in which they differ is the smaller one. */
  predicate DecidedAt(a: string, b: string, n: nat) {
    n <= |a| && n < |b| && a[..n] == b[..n] && (n < |a| ==> a[n] < b[n])
  }

  /** Keys are in the order of a dictionary, character by character. */
  lemma {:induction false} LessIsLexicographic(a: string, b: string)
    ensures Less(a, b) <==> exists n: nat :: DecidedAt(a, b, n)
  {
    if a == "" || b == "" || a[0] != b[0] {
      assert Less(a, b) ==> DecidedAt(a, b, 0);
      assert forall n: nat :: n > 0 && n <= |a| && n < |b| ==> a[..n][0] == a[0] && b[..n][0] == b[0];
    } else {
      LessIsLexicographic(a[1..], b[1..]);
      forall n: nat
        ensures DecidedAt(a[1..], b[1..], n) <==> DecidedAt(a, b, n + 1)
      {
        OneOn(a, b, n);
      }
      assert !DecidedAt(a, b, 0);
      forall n: nat | DecidedAt(a, b, n)
        ensures DecidedAt(a[1..], b[1..], n - 1)
      {
      }
    }
  }

  lemma OneOn(a: string, b: string, n: nat)
    requires a != "" && b != "" && a[0] == b[0]
    ensures DecidedAt(a[1..], b[1..], n) <==> DecidedAt(a, b, n + 1)
  {
    if n < |a| && n < |b| {
      assert a[..n + 1] == [a[0]] + a[1..][..n] && b[..n + 1] == [b[0]] + b[1..][..n];
      assert a[..n + 1][1..] == a[1..][..n] && b[..n + 1][1..] == b[1..][..n];
    }
  }

  lemma {:induction false} LessIsTransitive(a: string, b: string, c: string)
    requires Less(a, b) && Less(b, c)
    ensures Less(a, c)
  {
    if a != "" && a[0] == b[0] == c[0] {
      LessIsTransitive(a[1..], b[1..], c[1..]);
    }
  }

  lemma {:induction false} LessIsTotal(a: string, b: string)
    ensures a == b || Less(a, b) || Less(b, a)
  {
    if a != "" && b != "" && a[0] == b[0] {
      LessIsTotal(a[1..], b[1..]);
      assert a == [a[0]] + a[1..] && b == [b[0]] + b[1..];
    }
  }

  lemma {:induction false} LessIsIrreflexive(a: string)
    ensures !Less(a, a)
  {
    if a != "" {
      LessIsIrreflexive(a[1..]);
    }
  }

  /** Sorted, every key once. */
  ghost predicate InOrder<T>(s: seq<T>, key: T -> string) {
    forall j, k :: 0 <= j < k < |s| ==> Less(key(s[j]), key(s[k]))
  }

  lemma OrderedAreDistinct<T>(s: seq<T>, key: T -> string, j: nat, k: nat)
    requires InOrder(s, key) && j < |s| && k < |s| && key(s[j]) == key(s[k])
    ensures j == k
  {
    LessIsIrreflexive(key(s[j]));
  }

  // ----- Operations on values -----

  function IndexOf<T>(s: seq<T>, key: T -> string, id: string): (k: nat)
    ensures k <= |s|
    ensures k < |s| ==> key(s[k]) == id
    ensures forall j :: 0 <= j < k ==> key(s[j]) != id
  {
    if s == [] || key(s[0]) == id then 0 else 1 + IndexOf(s[1..], key, id)
  }

  predicate Has<T>(s: seq<T>, key: T -> string, id: string) {
    IndexOf(s, key, id) < |s|
  }

  function Find<T>(s: seq<T>, key: T -> string, id: string): (x: Option<T>)
    ensures x.Some? ==> x.value in s && key(x.value) == id
    ensures x == None ==> forall y :: y in s ==> key(y) != id
  {
    if Has(s, key, id) then Some(s[IndexOf(s, key, id)]) else None
  }

  /** The place of a key that is not there yet. */
  function PlaceOf<T>(s: seq<T>, key: T -> string, id: string): (k: nat)
    ensures k <= |s|
    ensures forall j :: 0 <= j < k ==> Less(key(s[j]), id)
    ensures k < |s| ==> !Less(key(s[k]), id)
  {
    if s == [] || !Less(key(s[0]), id) then 0 else 1 + PlaceOf(s[1..], key, id)
  }

  function Upserted<T>(s: seq<T>, key: T -> string, x: T): seq<T> {
    if Has(s, key, key(x)) then s[IndexOf(s, key, key(x)) := x]
    else s[..PlaceOf(s, key, key(x))] + [x] + s[PlaceOf(s, key, key(x))..]
  }

  function Removed<T>(s: seq<T>, key: T -> string, id: string): seq<T> {
    if Has(s, key, id) then s[..IndexOf(s, key, id)] + s[IndexOf(s, key, id) + 1..] else s
  }

  // ----- What the operations mean -----

  lemma FoundIfThere<T>(s: seq<T>, key: T -> string, k: nat)
    requires InOrder(s, key) && k < |s|
    ensures IndexOf(s, key, key(s[k])) == k && Find(s, key, key(s[k])) == Some(s[k])
  {
    OrderedAreDistinct(s, key, IndexOf(s, key, key(s[k])), k);
  }

  lemma UpsertInserts<T>(s: seq<T>, key: T -> string, x: T)
    requires InOrder(s, key) && !Has(s, key, key(x))
    ensures InOrder(Upserted(s, key, x), key)
  {
    var place := PlaceOf(s, key, key(x));
    forall k | place <= k < |s| ensures Less(key(x), key(s[k])) {
      LessIsTotal(key(s[place]), key(x));
      assert Less(key(x), key(s[place]));
      if place < k {
        LessIsTransitive(key(x), key(s[place]), key(s[k]));
      }
    }
  }

  /** Upsert changes what is found under one key and nothing else. */
  lemma UpsertMeans<T(!new)>(s: seq<T>, key: T -> string, x: T, id: string)
    requires InOrder(s, key)
    ensures InOrder(Upserted(s, key, x), key)
    ensures Find(Upserted(s, key, x), key, id) == if id == key(x) then Some(x) else Find(s, key, id)
  {
    var after := Upserted(s, key, x);
    if Has(s, key, key(x)) {
      var k := IndexOf(s, key, key(x));
      assert forall j :: 0 <= j < |s| ==> key(after[j]) == key(s[j]);
      FoundIfThere(after, key, k);
    } else {
      UpsertInserts(s, key, x);
      FoundIfThere(after, key, PlaceOf(s, key, key(x)));
    }
    if id != key(x) {
      SameFind(s, after, key, id);
    }
  }

  /** Remove takes one key out and nothing else. */
  lemma RemoveMeans<T(!new)>(s: seq<T>, key: T -> string, removed: string, id: string)
    requires InOrder(s, key)
    ensures InOrder(Removed(s, key, removed), key)
    ensures Find(Removed(s, key, removed), key, id) == if id == removed then None else Find(s, key, id)
  {
    var after := Removed(s, key, removed);
    if id != removed {
      SameFind(s, after, key, id);
    } else if Has(after, key, id) && Has(s, key, id) {
      var k := IndexOf(after, key, id);
      OrderedAreDistinct(s, key, IndexOf(s, key, id), if k < IndexOf(s, key, id) then k else k + 1);
    }
  }

  /** Two lists that hold the same elements under a key find the same there. */
  lemma SameFind<T(!new)>(before: seq<T>, after: seq<T>, key: T -> string, id: string)
    requires InOrder(before, key) && InOrder(after, key)
    requires forall x: T :: key(x) == id ==> (x in before <==> x in after)
    ensures Find(before, key, id) == Find(after, key, id)
  {
    if Has(before, key, id) {
      var x := before[IndexOf(before, key, id)];
      assert x in after;
      var k :| 0 <= k < |after| && after[k] == x;
      FoundIfThere(after, key, k);
    } else {
      assert forall k :: 0 <= k < |after| ==> after[k] in after;
      assert forall x :: x in before ==> key(x) != id;
    }
  }

  // ----- Sorting -----

  ghost predicate InWeakOrder<T>(s: seq<T>, key: T -> string) {
    forall j, k :: 0 <= j < k < |s| ==> !Less(key(s[k]), key(s[j]))
  }

  /** Sorts by key. Callers may rely on no order among equal keys. */
  method SortBy<T>(s: seq<T>, key: T -> string) returns (sorted: seq<T>)
    ensures multiset(sorted) == multiset(s)
    ensures InWeakOrder(sorted, key)
  {
    sorted := [];
    for i := 0 to |s|
      invariant multiset(sorted) == multiset(s[..i])
      invariant InWeakOrder(sorted, key)
    {
      assert s[..i + 1] == s[..i] + [s[i]];
      sorted := InsertBy(sorted, key, s[i]);
    }
    assert s[..|s|] == s;
  }

  method InsertBy<T>(sorted: seq<T>, key: T -> string, x: T) returns (more: seq<T>)
    requires InWeakOrder(sorted, key)
    ensures multiset(more) == multiset(sorted) + multiset{x}
    ensures InWeakOrder(more, key)
  {
    var k := PlaceOf(sorted, key, key(x));
    InsertKeepsOrder(sorted, key, x, k);
    assert sorted == sorted[..k] + sorted[k..];
    more := sorted[..k] + [x] + sorted[k..];
  }

  lemma InsertKeepsOrder<T>(sorted: seq<T>, key: T -> string, x: T, k: nat)
    requires InWeakOrder(sorted, key) && k == PlaceOf(sorted, key, key(x))
    ensures InWeakOrder(sorted[..k] + [x] + sorted[k..], key)
  {
    forall j | 0 <= j < k ensures !Less(key(x), key(sorted[j])) {
      if Less(key(x), key(sorted[j])) {
        LessIsTransitive(key(x), key(sorted[j]), key(x));
        LessIsIrreflexive(key(x));
      }
    }
    forall j | k <= j < |sorted| ensures !Less(key(sorted[j]), key(x)) {
      if Less(key(sorted[j]), key(x)) && k < j {
        LessIsTotal(key(sorted[k]), key(x));
        if key(sorted[k]) != key(x) {
          LessIsTransitive(key(sorted[j]), key(x), key(sorted[k]));
        }
      }
    }
  }

  /** Sorting after appending puts a new key in its place. */
  lemma SortedIsInserted<T>(s: seq<T>, key: T -> string, x: T, sorted: seq<T>)
    requires InOrder(s, key) && !Has(s, key, key(x))
    requires multiset(sorted) == multiset(s + [x]) && InWeakOrder(sorted, key)
    ensures sorted == Upserted(s, key, x)
  {
    hide Less;
    UpsertInserts(s, key, x);
    UpsertPermutes(s, key, x);
    OrderIsUnique(Upserted(s, key, x), sorted, key);
  }

  lemma UpsertPermutes<T>(s: seq<T>, key: T -> string, x: T)
    requires !Has(s, key, key(x))
    ensures multiset(Upserted(s, key, x)) == multiset(s + [x])
  {
    var place := PlaceOf(s, key, key(x));
    assert s == s[..place] + s[place..];
  }

  lemma {:induction false} OrderIsUnique<T>(strict: seq<T>, weak: seq<T>, key: T -> string)
    requires InOrder(strict, key) && InWeakOrder(weak, key) && multiset(strict) == multiset(weak)
    ensures strict == weak
  {
    hide Less;
    assert |strict| == |multiset(strict)| == |weak|;
    if strict == [] {
    } else {
      SameFirst(strict, weak, key);
      SameRest(strict, weak);
      OrderIsUnique(strict[1..], weak[1..], key);
      assert strict == [strict[0]] + strict[1..] && weak == [weak[0]] + weak[1..];
    }
  }

  lemma SameRest<T>(a: seq<T>, b: seq<T>)
    requires a != [] && b != [] && a[0] == b[0] && multiset(a) == multiset(b)
    ensures multiset(a[1..]) == multiset(b[1..])
  {
    assert a == [a[0]] + a[1..] && b == [b[0]] + b[1..];
    assert multiset(a[1..]) == multiset(a) - multiset{a[0]} && multiset(b[1..]) == multiset(b) - multiset{b[0]};
  }

  lemma SameFirst<T>(strict: seq<T>, weak: seq<T>, key: T -> string)
    requires InOrder(strict, key) && InWeakOrder(weak, key) && multiset(strict) == multiset(weak)
    requires strict != [] && weak != []
    ensures strict[0] == weak[0]
  {
    assert strict[0] in multiset(weak) && weak[0] in multiset(strict);
    var j :| 0 <= j < |weak| && weak[j] == strict[0];
    var k :| 0 <= k < |strict| && strict[k] == weak[0];
    assert 0 < k ==> Less(key(strict[0]), key(strict[k]));
    assert 0 < j ==> !Less(key(weak[j]), key(weak[0]));
  }
}
