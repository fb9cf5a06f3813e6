/** The distance by which mistyped commands are matched (cmd/ironrun/errors.go). */
module EditDistance {
  import opened ByteStrings

  function Min3(x: int, y: int, z: int): int {
    Min(Min(x, y), z)
  }

  predicate Swapped(a: Bytes, b: Bytes, i: nat, j: nat)
    requires i <= |a| && j <= |b|
  {
    i > 1 && j > 1 && a[i - 1] == b[j - 2] && a[i - 2] == b[j - 1]
  }

  /**
   The optimal-string-alignment distance of the first i bytes of a and the first j bytes of b: the
   best of deleting, inserting, keeping or replacing, and exchanging the last two bytes.
   */
  function Distance(a: Bytes, b: Bytes, i: nat, j: nat): (d: nat)
    requires i <= |a| && j <= |b|
    decreases i + j
  {
    if i == 0 then j
    else if j == 0 then i
    else
      Best(a, b, i, j, Distance(a, b, i - 1, j), Distance(a, b, i, j - 1), Distance(a, b, i - 1, j - 1),
           if Swapped(a, b, i, j) then Distance(a, b, i - 2, j - 2) else 0)
  }

  /** The best way to end an edit of the two prefixes, given the distances of shorter prefixes. */
  function Best(a: Bytes, b: Bytes, i: nat, j: nat, deleted: nat, inserted: nat, both: nat, exchanged: nat): (d: nat)
    requires 0 < i <= |a| && 0 < j <= |b|
  {
    var plain := Min3(deleted + 1, inserted + 1, both + Differs(a, b, i, j));
    if Swapped(a, b, i, j) then Min(plain, exchanged + 1) else plain
  }

  function Differs(a: Bytes, b: Bytes, i: nat, j: nat): (cost: nat)
    requires 0 < i <= |a| && 0 < j <= |b|
  {
    if a[i - 1] == b[j - 1] then 0 else 1
  }

  /** One step of the recursion. */
  lemma Step(a: Bytes, b: Bytes, i: nat, j: nat)
    requires 0 < i <= |a| && 0 < j <= |b|
    ensures Distance(a, b, i, j)
         == Best(a, b, i, j, Distance(a, b, i - 1, j), Distance(a, b, i, j - 1), Distance(a, b, i - 1, j - 1),
                 if Swapped(a, b, i, j) then Distance(a, b, i - 2, j - 2) else 0)
  {
    hide Best;
  }

  lemma Edge(a: Bytes, b: Bytes, i: nat, j: nat)
    requires i <= |a| && j <= |b| && (i == 0 || j == 0)
    ensures Distance(a, b, i, j) == i + j
  {
  }

  /** Fills the whole matrix, row by row. */
  method Levenshtein(a: Bytes, b: Bytes) returns (dist: nat)
    ensures dist == Distance(a, b, |a|, |b|)
  {
    hide Distance;
    var m, n := |a|, |b|;
    var d := new nat[m + 1, n + 1];
    for i := 0 to m + 1
      invariant forall x: nat :: x < i ==> d[x, 0] == x
    {
      d[i, 0] := i;
    }
    for j := 1 to n + 1
      invariant forall x: nat :: x <= m ==> d[x, 0] == x
      invariant forall y: nat :: y < j ==> d[0, y] == y
    {
      d[0, j] := j;
    }
    FirstRow(a, b);
    for i := 1 to m + 1
      invariant forall x: nat, y: nat :: x < i && y <= n ==> d[x, y] == Distance(a, b, x, y)
      invariant forall x: nat :: x <= m ==> d[x, 0] == x
    {
      Edge(a, b, i, 0);
      for j := 1 to n + 1
        invariant forall x: nat, y: nat :: x < i && y <= n ==> d[x, y] == Distance(a, b, x, y)
        invariant forall x: nat :: x <= m ==> d[x, 0] == x
        invariant forall y: nat :: y < j ==> d[i, y] == Distance(a, b, i, y)
      {
        Step(a, b, i, j);
        var cost := 0;
        if a[i - 1] != b[j - 1] {
          cost := 1;
        }
        d[i, j] := Min3(d[i - 1, j] + 1, d[i, j - 1] + 1, d[i - 1, j - 1] + cost);
        if i > 1 && j > 1 && a[i - 1] == b[j - 2] && a[i - 2] == b[j - 1] {
          d[i, j] := Min(d[i, j], d[i - 2, j - 2] + 1);
        }
      }
    }
    return d[m, n];
  }

  lemma FirstRow(a: Bytes, b: Bytes)
    ensures forall y: nat :: y <= |b| ==> Distance(a, b, 0, y) == y
  {
  }

  // ----- Edit scripts -----

  /** One edit; a swap exchanges two adjacent bytes, and no edit touches them again. */
  datatype Edit = Keep(x: Byte) | Subst(x: Byte, y: Byte) | Delete(x: Byte) | Insert(y: Byte) | Swap(x: Byte, y: Byte) {
    function Before(): Bytes {
      match this
      case Keep(x) => [x]
      case Subst(x, _) => [x]
      case Delete(x) => [x]
      case Insert(_) => []
      case Swap(x, y) => [x, y]
    }

    function After(): Bytes {
      match this
      case Keep(x) => [x]
      case Subst(_, y) => [y]
      case Delete(_) => []
      case Insert(y) => [y]
      case Swap(x, y) => [y, x]
    }

    function Cost(): nat {
      if Keep? then 0 else 1
    }
  }

  function Source(script: seq<Edit>): Bytes {
    if script == [] then [] else Source(script[..|script| - 1]) + script[|script| - 1].Before()
  }

  function Target(script: seq<Edit>): Bytes {
    if script == [] then [] else Target(script[..|script| - 1]) + script[|script| - 1].After()
  }

  function Cost(script: seq<Edit>): nat {
    if script == [] then 0 else Cost(script[..|script| - 1]) + script[|script| - 1].Cost()
  }

  lemma EmptyScript()
    ensures Source([]) == [] && Target([]) == [] && Cost([]) == 0
  {
  }

  lemma Snoc(script: seq<Edit>, e: Edit)
    ensures Source(script + [e]) == Source(script) + e.Before()
    ensures Target(script + [e]) == Target(script) + e.After()
    ensures Cost(script + [e]) == Cost(script) + e.Cost()
  {
    assert (script + [e])[..|script|] == script;
  }

  /** Some script turns the one prefix into the other at the cost of their distance. */
  lemma {:induction false} DistanceIsReached(a: Bytes, b: Bytes, i: nat, j: nat) returns (script: seq<Edit>)
    requires i <= |a| && j <= |b|
    ensures Source(script) == a[..i] && Target(script) == b[..j]
    ensures Cost(script) == Distance(a, b, i, j)
    decreases i + j
  {
    hide Distance, Source, Target, Cost;
    if i == 0 || j == 0 {
      Edge(a, b, i, j);
    } else {
      Step(a, b, i, j);
    }
    var d := Distance(a, b, i, j);
    var e;
    if i == 0 && j == 0 {
      EmptyScript();
      return [];
    } else if i == 0 || (j > 0 && d == Distance(a, b, i, j - 1) + 1) {
      if i == 0 {
        Edge(a, b, 0, j - 1);
      }
      script := DistanceIsReached(a, b, i, j - 1);
      e := Insert(b[j - 1]);
      assert b[..j] == b[..j - 1] + [b[j - 1]];
    } else if j == 0 || d == Distance(a, b, i - 1, j) + 1 {
      if j == 0 {
        Edge(a, b, i - 1, 0);
      }
      script := DistanceIsReached(a, b, i - 1, j);
      e := Delete(a[i - 1]);
      assert a[..i] == a[..i - 1] + [a[i - 1]];
    } else if Swapped(a, b, i, j) && d == Distance(a, b, i - 2, j - 2) + 1 {
      script := DistanceIsReached(a, b, i - 2, j - 2);
      e := Swap(a[i - 2], a[i - 1]);
      assert a[..i] == a[..i - 2] + [a[i - 2], a[i - 1]] && b[..j] == b[..j - 2] + [b[j - 2], b[j - 1]];
    } else {
      script := DistanceIsReached(a, b, i - 1, j - 1);
      e := if a[i - 1] == b[j - 1] then Keep(a[i - 1]) else Subst(a[i - 1], b[j - 1]);
      assert a[..i] == a[..i - 1] + [a[i - 1]] && b[..j] == b[..j - 1] + [b[j - 1]];
    }
    Snoc(script, e);
    script := script + [e];
  }

  /** No script turns the one prefix into the other for less. */
  lemma {:induction false} DistanceIsLeast(a: Bytes, b: Bytes, script: seq<Edit>)
    requires Source(script) <= a && Target(script) <= b
    ensures Cost(script) >= Distance(a, b, |Source(script)|, |Target(script)|)
    decreases |script|
  {
    hide Distance;
    if script == [] {
      Edge(a, b, 0, 0);
    } else {
      var init, e := script[..|script| - 1], script[|script| - 1];
      EndsWith(a, Source(init), e.Before());
      EndsWith(b, Target(init), e.After());
      DistanceIsLeast(a, b, init);
      EditCost(a, b, |Source(init)|, |Target(init)|, e);
    }
  }

  /** An edit that continues two prefixes raises their distance by at most its cost. */
  lemma EditCost(a: Bytes, b: Bytes, i: nat, j: nat, e: Edit)
    requires i + |e.Before()| <= |a| && j + |e.After()| <= |b|
    requires a[i..i + |e.Before()|] == e.Before() && b[j..j + |e.After()|] == e.After()
    ensures Distance(a, b, i + |e.Before()|, j + |e.After()|) <= Distance(a, b, i, j) + e.Cost()
  {
    hide Distance;
    var x, y := i + |e.Before()|, j + |e.After()|;
    DistanceSteps(a, b, x, y);
    if e.Swap? {
      assert a[i] == a[i..x][0] && a[i + 1] == a[i..x][1] && b[j] == b[j..y][0] && b[j + 1] == b[j..y][1];
    } else if e.Keep? {
      assert a[i] == a[i..x][0] && b[j] == b[j..y][0];
    }
  }

  lemma EndsWith(text: Bytes, init: Bytes, last: Bytes)
    requires init + last <= text
    ensures init <= text && text[|init|..|init| + |last|] == last
  {
    assert init == (init + last)[..|init|];
    assert text[|init|..|init| + |last|] == (init + last)[|init|..];
  }

  /** No single edit can lower the distance by more than its cost. */
  lemma DistanceSteps(a: Bytes, b: Bytes, i: nat, j: nat)
    requires i <= |a| && j <= |b|
    ensures i > 0 ==> Distance(a, b, i, j) <= Distance(a, b, i - 1, j) + 1
    ensures j > 0 ==> Distance(a, b, i, j) <= Distance(a, b, i, j - 1) + 1
    ensures i > 0 && j > 0 ==> Distance(a, b, i, j) <= Distance(a, b, i - 1, j - 1) + Differs(a, b, i, j)
    ensures Swapped(a, b, i, j) ==> Distance(a, b, i, j) <= Distance(a, b, i - 2, j - 2) + 1
  {
    hide Distance;
    if i > 0 && j > 0 {
      Step(a, b, i, j);
    } else {
      Edge(a, b, i, j);
      if i > 0 {
        Edge(a, b, i - 1, j);
      }
      if j > 0 {
        Edge(a, b, i, j - 1);
      }
    }
  }

  /** What the matrix program computes: the least cost of any script from a to b. */
  lemma MinimumOverScripts(a: Bytes, b: Bytes)
    ensures exists script :: Source(script) == a && Target(script) == b && Cost(script) == Distance(a, b, |a|, |b|)
    ensures forall script :: Source(script) == a && Target(script) == b ==> Cost(script) >= Distance(a, b, |a|, |b|)
  {
    hide Distance;
    var script := DistanceIsReached(a, b, |a|, |b|);
    assert a[..|a|] == a && b[..|b|] == b;
    forall other | Source(other) == a && Target(other) == b
      ensures Cost(other) >= Distance(a, b, |a|, |b|)
    {
      DistanceIsLeast(a, b, other);
    }
  }

  lemma {:induction false} DistanceIsSymmetric(a: Bytes, b: Bytes, i: nat, j: nat)
    requires i <= |a| && j <= |b|
    ensures Distance(a, b, i, j) == Distance(b, a, j, i)
    decreases i + j
  {
    hide Distance;
    if i == 0 || j == 0 {
      Edge(a, b, i, j);
      Edge(b, a, j, i);
    } else {
      Step(a, b, i, j);
      Step(b, a, j, i);
      DistanceIsSymmetric(a, b, i - 1, j);
      DistanceIsSymmetric(a, b, i, j - 1);
      DistanceIsSymmetric(a, b, i - 1, j - 1);
      if Swapped(a, b, i, j) {
        DistanceIsSymmetric(a, b, i - 2, j - 2);
      }
    }
  }

  /** The distance lies between the difference of the lengths and the greater length. */
  lemma {:induction false} DistanceBounds(a: Bytes, b: Bytes, i: nat, j: nat)
    requires i <= |a| && j <= |b|
    ensures i - j <= Distance(a, b, i, j) && j - i <= Distance(a, b, i, j)
    ensures Distance(a, b, i, j) <= Max(i, j)
    decreases i + j
  {
    hide Distance;
    if i == 0 || j == 0 {
      Edge(a, b, i, j);
    } else {
      Step(a, b, i, j);
      DistanceBounds(a, b, i - 1, j);
      DistanceBounds(a, b, i, j - 1);
      DistanceBounds(a, b, i - 1, j - 1);
      if Swapped(a, b, i, j) {
        DistanceBounds(a, b, i - 2, j - 2);
      }
    }
  }

  /** Only equal texts are at distance zero. */
  lemma {:induction false} ZeroMeansEqual(a: Bytes, b: Bytes, i: nat, j: nat)
    requires i <= |a| && j <= |b|
    ensures Distance(a, b, i, j) == 0 <==> a[..i] == b[..j]
    decreases i + j
  {
    hide Distance;
    DistanceBounds(a, b, i, j);
    if i > 0 && j > 0 {
      ZeroMeansEqual(a, b, i - 1, j - 1);
      assert a[..i] == a[..i - 1] + [a[i - 1]] && b[..j] == b[..j - 1] + [b[j - 1]];
      Step(a, b, i, j);
      if Swapped(a, b, i, j) {
        DistanceBounds(a, b, i - 2, j - 2);
      }
      DistanceBounds(a, b, i - 1, j);
      DistanceBounds(a, b, i, j - 1);
    } else {
      Edge(a, b, i, j);
    }
  }
}
