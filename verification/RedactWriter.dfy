/**
 The streaming redactor itself (internal/redact/redact.go): a rolling buffer, a first-byte index,
 a fragment index and a hold-back. Its methods are specified by the reference functions of RedactSpec.
 */
module RedactWriters {
  import opened ByteStrings
  import opened Scanning
  import opened RedactSpec
  import opened CapWriters
  import opened Options
  import opened Sorting

  // ----- The matchers -----

  /** Does b start with prefix? */
  method HasPrefix(b: Bytes, prefix: Bytes) returns (yes: bool)
    ensures yes <==> prefix <= b
  {
    if |b| < |prefix| {
      return false;
    }
    for i := 0 to |prefix|
      invariant prefix[..i] == b[..i]
    {
      if b[i] != prefix[i] {
        return false;
      }
    }
    return true;
  }

  lemma StripAt(s: Bytes, j: nat)
    requires j < |s| && !IsFlexGap(s[j])
    ensures |Strip(s[..j])| < |Strip(s)|
    ensures Strip(s)[|Strip(s[..j])|] == s[j]
  {
    StripSnoc(s, j);
    StripPrefix(s, j + 1, |s|);
    assert s[..|s|] == s;
  }

  lemma FlexLenIs(secret: Bytes, window: Bytes)
    ensures FlexLen(secret, window) == if Strip(secret) <= Strip(window) then EndOf(window, |Strip(secret)|) else 0
  {
  }

  /** Skips the gap bytes of s from index i on. */
  method SkipGaps(s: Bytes, i: nat) returns (next: nat)
    requires i <= |s|
    ensures i <= next <= |s| && Strip(s[..next]) == Strip(s[..i])
    ensures next < |s| ==> !IsFlexGap(s[next])
  {
    next := i;
    while next < |s| && IsFlexGap(s[next])
      invariant i <= next <= |s| && Strip(s[..next]) == Strip(s[..i])
    {
      StripSnoc(s, next);
      next := next + 1;
    }
  }

  /**
   Gap-tolerant matching within maxSpan bytes: it succeeds exactly when the projection of the
   secret starts the projection of what may be seen, and consumes the least such span.
   */
  method MatchFlex(buf: Bytes, secret: Bytes, maxSpan: nat) returns (n: nat, ok: bool)
    ensures ok <==> Strip(secret) <= Strip(Clip(buf, maxSpan))
    ensures n == FlexLen(secret, Clip(buf, maxSpan))
  {
    hide Strip, EndOf, Clip, FlexLen;
    var window := Clip(buf, maxSpan);
    assert window[..|window|] == window && secret[..|secret|] == secret;
    StripNothing(window, secret);
    FlexLenIs(secret, window);
    var i, j, end := 0, 0, 0;
    while true
      invariant end <= i <= |window| && j <= |secret|
      invariant Strip(window[..end]) == Strip(window[..i]) == Strip(secret[..j])
      invariant end == 0 || !IsFlexGap(window[end - 1])
      decreases |secret| - j
    {
      j := SkipGaps(secret, j);
      if j == |secret| {
        EndOfUnique(window, |Strip(secret)|, end);
        StripPrefix(window, end, |window|);
        return end, true;
      }
      i := SkipGaps(window, i);
      StripAt(secret, j);
      if i >= |window| {
        return 0, false;
      }
      StripAt(window, i);
      if window[i] != secret[j] {
        return 0, false;
      }
      BothAdvance(window, i, secret, j);
      i := i + 1;
      j := j + 1;
      end := i;
    }
  }

  lemma StripNothing(window: Bytes, secret: Bytes)
    ensures Strip(window[..0]) == [] == Strip(secret[..0])
  {
  }

  /** Window and secret stay alike when both show the same byte next, which is no gap. */
  lemma BothAdvance(window: Bytes, i: nat, secret: Bytes, j: nat)
    requires i < |window| && j < |secret| && window[i] == secret[j] && !IsFlexGap(window[i])
    requires Strip(window[..i]) == Strip(secret[..j])
    ensures Strip(window[..i + 1]) == Strip(secret[..j + 1])
  {
    hide Strip;
    StripSnoc(window, i);
    StripSnoc(secret, j);
  }

  // ----- The indexes -----

  /** The indexes, among the first n secrets, of those that can begin with b, in their order. */
  function Candidates(secrets: seq<Bytes>, n: nat, b: Byte): (cands: seq<nat>)
    requires n <= |secrets|
    ensures forall c :: c in cands ==> c < n
  {
    if n == 0 then []
    else Candidates(secrets, n - 1, b) + if CanBegin(secrets[n - 1], b) then [n - 1] else []
  }

  function Lookup<K, V>(m: map<K, seq<V>>, k: K): seq<V> {
    if k in m then m[k] else []
  }

  ghost predicate IsFirstIndex(index: map<Byte, seq<nat>>, secrets: seq<Bytes>, n: nat)
    requires n <= |secrets|
  {
    forall b: Byte :: Lookup(index, b) == Candidates(secrets, n, b)
  }

  ghost predicate IsFragmentIndex(index: map<Bytes, FragHit>, secrets: seq<Bytes>, n: nat, offs: nat)
    requires n < |secrets| ==> offs <= WindowCount(secrets[n])
    requires n == |secrets| ==> offs == 0
    requires n <= |secrets|
  {
    forall key: Bytes :: (if key in index then Some(index[key]) else None) == LastHit(secrets, n, offs, key)
  }

  function Length(s: Bytes): int {
    |s|
  }

  ghost predicate LongestFirst(secrets: seq<Bytes>) {
    forall i, j :: 0 <= i < j < |secrets| ==> |secrets[i]| >= |secrets[j]|
  }

  /**
   Sorts secrets longest first. Callers may rely on no order among secrets of one length.
   */
  method SortLongestFirst(secrets: seq<Bytes>) returns (sorted: seq<Bytes>)
    ensures multiset(sorted) == multiset(secrets)
    ensures forall s :: s in sorted <==> s in secrets
    ensures LongestFirst(sorted)
  {
    sorted := SortDown(secrets, Length);
    assert forall i, j :: 0 <= i < j < |sorted| ==> Length(sorted[i]) >= Length(sorted[j]);
    assert forall s :: s in sorted <==> s in multiset(sorted);
    assert forall s :: s in secrets <==> s in multiset(secrets);
  }

  lemma MaxSpanSnoc(secrets: seq<Bytes>, n: nat)
    requires n < |secrets|
    ensures MaxSpan(secrets[..n + 1]) == Max(MaxSpan(secrets[..n]), FlexSpanCap(|secrets[n]|))
  {
    assert secrets[..n + 1][..n] == secrets[..n];
  }

  lemma {:induction false} MaxSpanReached(secrets: seq<Bytes>)
    ensures secrets == [] || exists s :: s in secrets && MaxSpan(secrets) == FlexSpanCap(|s|)
  {
    if secrets != [] {
      var init, last := secrets[..|secrets| - 1], secrets[|secrets| - 1];
      MaxSpanReached(init);
      assert last in secrets;
      assert forall s :: s in init ==> s in secrets;
    }
  }

  /** The span depends only on which secrets are registered, and grows with them. */
  lemma MaxSpanMonotone(a: seq<Bytes>, b: seq<Bytes>)
    requires forall s :: s in a ==> s in b
    ensures MaxSpan(a) <= MaxSpan(b)
  {
    MaxSpanReached(a);
  }

  /** A fragment hit names a place where the key stands in the projection of a long registered secret. */
  lemma {:induction false} HitIsFragment(secrets: seq<Bytes>, n: nat, offs: nat, key: Bytes)
    requires n < |secrets| ==> offs <= WindowCount(secrets[n])
    requires n == |secrets| ==> offs == 0
    requires n <= |secrets|
    ensures match LastHit(secrets, n, offs, key)
            case None => true
            case Some(hit) =>
              && hit.secret[hit.off..hit.off + FRAGMENT_LEN] == key
              && exists s :: s in secrets && HasFragments(s) && hit.secret == Strip(s)
    decreases n, offs
  {
    if offs > 0 {
      var p := Strip(secrets[n]);
      if p[offs - 1..offs - 1 + FRAGMENT_LEN] == key {
        assert secrets[n] in secrets;
      } else {
        HitIsFragment(secrets, n, offs - 1, key);
      }
    } else if n > 0 {
      HitIsFragment(secrets, n - 1, WindowCount(secrets[n - 1]), key);
    }
  }

  /** The projection of s, byte by byte. */
  method Project(s: Bytes) returns (proj: Bytes)
    ensures proj == Strip(s)
  {
    proj := [];
    for k := 0 to |s|
      invariant proj == Strip(s[..k])
    {
      StripSnoc(s, k);
      if !IsFlexGap(s[k]) {
        proj := proj + [s[k]];
      }
    }
    assert s[..|s|] == s;
  }

  /** Files secret i under the bytes with which a match of it can begin. */
  method IndexFirst(index: map<Byte, seq<nat>>, secrets: seq<Bytes>, i: nat, proj: Bytes)
    returns (index': map<Byte, seq<nat>>)
    requires i < |secrets| && secrets[i] != [] && proj == Strip(secrets[i])
    requires IsFirstIndex(index, secrets, i)
    ensures IsFirstIndex(index', secrets, i + 1)
  {
    var s := secrets[i];
    var first := Lookup(index, s[0]) + [i];
    if proj == [] || proj[0] == s[0] {
      index' := index[s[0] := first];
    } else {
      assert Lookup(index[s[0] := first], proj[0]) == Lookup(index, proj[0]);
      var second := Lookup(index, proj[0]) + [i];
      index' := index[s[0] := first][proj[0] := second];
    }
    forall b: Byte
      ensures Lookup(index', b) == Candidates(secrets, i + 1, b)
    {
      assert Lookup(index, b) == Candidates(secrets, i, b);
      assert Lookup(index', b) == if CanBegin(s, b) then Lookup(index, b) + [i] else Lookup(index, b);
    }
  }

  /** Files every fragment of secret i, if it is long enough to have any. */
  method IndexFragments(index: map<Bytes, FragHit>, ghost secrets: seq<Bytes>, ghost i: nat, proj: Bytes)
    returns (index': map<Bytes, FragHit>)
    requires i < |secrets| && proj == Strip(secrets[i])
    requires IsFragmentIndex(index, secrets, i, 0)
    ensures IsFragmentIndex(index', secrets, i + 1, 0)
  {
    index' := index;
    var off := 0;
    if FRAGMENT_MIN_SECRET_LEN <= |proj| <= FRAGMENT_MAX_SECRET_LEN {
      while off + FRAGMENT_LEN <= |proj|
        invariant off <= WindowCount(secrets[i])
        invariant IsFragmentIndex(index', secrets, i, off)
      {
        index' := index'[proj[off..off + FRAGMENT_LEN] := FragHit(proj, off)];
        off := off + 1;
      }
    }
    assert IsFragmentIndex(index', secrets, i, WindowCount(secrets[i]));
    forall key: Bytes
      ensures LastHit(secrets, i + 1, 0, key) == LastHit(secrets, i, WindowCount(secrets[i]), key)
    {
    }
  }

  /** Indexes all secrets, starting from the longest length and span known so far. */
  method BuildIndexes(secrets: seq<Bytes>, knownLen: nat, knownSpan: nat)
    returns (maxLen: nat, maxSpan: nat, first: map<Byte, seq<nat>>, fragments: map<Bytes, FragHit>)
    requires forall s :: s in secrets ==> s != []
    requires knownSpan <= MaxSpan(secrets)
    ensures maxSpan == MaxSpan(secrets)
    ensures IsFirstIndex(first, secrets, |secrets|)
    ensures IsFragmentIndex(fragments, secrets, |secrets|, 0)
  {
    maxLen, maxSpan, first, fragments := knownLen, knownSpan, map[], map[];
    for i := 0 to |secrets|
      invariant maxSpan == Max(knownSpan, MaxSpan(secrets[..i]))
      invariant IsFirstIndex(first, secrets, i)
      invariant IsFragmentIndex(fragments, secrets, i, 0)
    {
      assert secrets[i] in secrets;
      maxLen := Max(maxLen, |secrets[i]|);
      maxSpan := Max(maxSpan, FlexSpanCap(|secrets[i]|));
      MaxSpanSnoc(secrets, i);
      var proj := Project(secrets[i]);
      first := IndexFirst(first, secrets, i, proj);
      fragments := IndexFragments(fragments, secrets, i, proj);
    }
    assert secrets[..|secrets|] == secrets;
  }

  /** The secrets without the empty ones, which would match everywhere. */
  method DropEmpty(secrets: seq<Bytes>) returns (kept: seq<Bytes>)
    ensures forall s :: s in kept <==> s in secrets && s != []
  {
    kept := [];
    for i := 0 to |secrets|
      invariant forall s :: s in kept <==> s in secrets[..i] && s != []
    {
      if secrets[i] != [] {
        kept := kept + [secrets[i]];
      }
    }
  }

  /** Collects the first FRAGMENT_LEN projected bytes of the window; i is where reading stopped. */
  method NextKey(window: Bytes) returns (key: Bytes, i: nat, k: nat)
    ensures |key| == FRAGMENT_LEN && i <= |window|
    ensures k == Min(FRAGMENT_LEN, |Strip(window)|)
    ensures k == FRAGMENT_LEN ==> key == Strip(window)[..FRAGMENT_LEN] == Strip(window[..i])
    ensures k == FRAGMENT_LEN ==> i > 0 && !IsFlexGap(window[i - 1])
  {
    assert window[..|window|] == window;
    key := seq(FRAGMENT_LEN, _ => 0);
    i, k := 0, 0;
    while i < |window| && k < FRAGMENT_LEN
      invariant i <= |window| && k <= FRAGMENT_LEN == |key|
      invariant key[..k] == Strip(window[..i])
      invariant k == FRAGMENT_LEN ==> i > 0 && !IsFlexGap(window[i - 1])
    {
      StripSnoc(window, i);
      if !IsFlexGap(window[i]) {
        key := key[k := window[i]];
        k := k + 1;
      }
      i := i + 1;
    }
    StripPrefix(window, i, |window|);
  }

  /** Extends a hit that ends at index i over what follows of its secret, skipping gaps in the window. */
  method ExtendFragment(window: Bytes, hit: FragHit, start: nat) returns (end: nat)
    requires 0 < start <= |window| && !IsFlexGap(window[start - 1])
    requires hit.off + FRAGMENT_LEN <= |hit.secret|
    requires Strip(window[..start]) == hit.secret[hit.off..hit.off + FRAGMENT_LEN]
    ensures end == EndOf(window, Common(Strip(window), hit.secret[hit.off..]))
  {
    hide Strip, EndOf, Common;
    assert window[..|window|] == window;
    var i, j := start, hit.off + FRAGMENT_LEN;
    end := start;
    while i < |window| && j < |hit.secret|
      invariant start <= end <= i <= |window|
      invariant hit.off + FRAGMENT_LEN <= j <= |hit.secret|
      invariant Strip(window[..end]) == Strip(window[..i]) == hit.secret[hit.off..j]
      invariant !IsFlexGap(window[end - 1])
    {
      StripSnoc(window, i);
      if IsFlexGap(window[i]) {
        i := i + 1;
        continue;
      }
      if window[i] != hit.secret[j] {
        StripAt(window, i);
        break;
      }
      j := j + 1;
      end := i + 1;
      i := i + 1;
    }
    EndOfUnique(window, j - hit.off, end);
    StripPrefix(window, i, |window|);
    CommonUnique(Strip(window), hit.secret[hit.off..], j - hit.off);
  }

  /** The candidates for b are exactly the secrets that can begin with b, in order. */
  lemma {:induction false} CandidatesComplete(secrets: seq<Bytes>, n: nat, b: Byte)
    requires n <= |secrets|
    ensures forall i: nat :: i in Candidates(secrets, n, b) <==> i < n && CanBegin(secrets[i], b)
    ensures forall x, y :: 0 <= x < y < |Candidates(secrets, n, b)| ==>
              Candidates(secrets, n, b)[x] < Candidates(secrets, n, b)[y]
  {
    if n > 0 {
      CandidatesComplete(secrets, n - 1, b);
      ghost var before := Candidates(secrets, n - 1, b);
      assert forall x :: 0 <= x < |before| ==> before[x] in before;
    }
  }

  lemma {:induction false} FirstExactAt(secrets: seq<Bytes>, text: Bytes, from: nat, i: nat)
    requires from <= i <= |secrets|
    requires forall k: nat :: from <= k < i ==> !(secrets[k] <= text)
    ensures FirstExact(secrets, text, from) == FirstExact(secrets, text, i)
    decreases i - from
  {
    if from < i {
      FirstExactAt(secrets, text, from + 1, i);
    }
  }

  lemma {:induction false} FirstFlexAt(secrets: seq<Bytes>, text: Bytes, window: Bytes, from: nat, i: nat)
    requires from <= i <= |secrets| && text != []
    requires forall k: nat :: from <= k < i ==> !CanBegin(secrets[k], text[0]) || FlexLen(secrets[k], window) == 0
    ensures FirstFlex(secrets, text, window, from) == FirstFlex(secrets, text, window, i)
    decreases i - from
  {
    hide FlexLen, CanBegin;
    if from < i {
      FirstFlexAt(secrets, text, window, from + 1, i);
    }
  }

  /** Secrets that are not candidates lie outside the part of the list before the next candidate. */
  lemma BetweenCandidates(secrets: seq<Bytes>, b: Byte, cands: seq<nat>, c: nat, k: nat)
    requires cands == Candidates(secrets, |secrets|, b)
    requires c <= |cands| && k < |secrets| && CanBegin(secrets[k], b)
    requires c < |cands| ==> k < cands[c]
    ensures exists x: nat :: x < c && cands[x] == k
  {
    CandidatesComplete(secrets, |secrets|, b);
    var x: nat :| x < |cands| && cands[x] == k;
    assert c < |cands| ==> x < c;
  }

  lemma NoneBefore(secrets: seq<Bytes>, b: Byte, cands: seq<nat>, c: nat, bad: set<nat>)
    requires cands == Candidates(secrets, |secrets|, b)
    requires c <= |cands|
    requires forall x: nat :: x < c ==> cands[x] !in bad
    ensures forall k: nat | k < (if c < |cands| then cands[c] else |secrets|) && k < |secrets| ::
              CanBegin(secrets[k], b) ==> k !in bad
  {
    forall k: nat | k < (if c < |cands| then cands[c] else |secrets|) && k < |secrets| && CanBegin(secrets[k], b)
      ensures k !in bad
    {
      BetweenCandidates(secrets, b, cands, c, k);
    }
  }

  /** Tier 1 over the candidates for the first byte. */
  method MatchExact(secrets: seq<Bytes>, rest: Bytes, cands: seq<nat>) returns (n: nat)
    requires rest != [] && forall s :: s in secrets ==> s != []
    requires cands == Candidates(secrets, |secrets|, rest[0])
    ensures n == FirstExact(secrets, rest, 0)
  {
    ghost var hits := set k: nat | k < |secrets| && secrets[k] <= rest;
    assert forall k: nat :: k in hits ==> secrets[k] in secrets && CanBegin(secrets[k], rest[0]);
    for c := 0 to |cands|
      invariant forall x: nat :: x < c ==> cands[x] !in hits
    {
      assert cands[c] in cands;
      var s := secrets[cands[c]];
      if |s| > |rest| {
        continue;
      }
      var yes := HasPrefix(rest, s);
      if yes {
        NoneBefore(secrets, rest[0], cands, c, hits);
        FirstExactAt(secrets, rest, 0, cands[c]);
        return |s|;
      }
    }
    NoneBefore(secrets, rest[0], cands, |cands|, hits);
    FirstExactAt(secrets, rest, 0, |secrets|);
    return 0;
  }

  /** Tier 2 over the candidates for the first byte. */
  method MatchTolerant(secrets: seq<Bytes>, rest: Bytes, cands: seq<nat>, maxSpan: nat) returns (n: nat)
    requires rest != []
    requires cands == Candidates(secrets, |secrets|, rest[0])
    ensures n == FirstFlex(secrets, rest, Clip(rest, maxSpan), 0)
  {
    hide Strip, EndOf, Candidates, CanBegin;
    ghost var window := Clip(rest, maxSpan);
    ghost var hits := set k: nat | k < |secrets| && FlexLen(secrets[k], window) > 0;
    for c := 0 to |cands|
      invariant forall x: nat :: x < c ==> cands[x] !in hits
    {
      assert cands[c] in cands;
      var len, ok := MatchFlex(rest, secrets[cands[c]], maxSpan);
      if ok && len > 0 {
        NoneBefore(secrets, rest[0], cands, c, hits);
        CandidatesComplete(secrets, |secrets|, rest[0]);
        FirstFlexAt(secrets, rest, window, 0, cands[c]);
        return len;
      }
    }
    NoneBefore(secrets, rest[0], cands, |cands|, hits);
    FirstFlexAt(secrets, rest, window, 0, |secrets|);
    return 0;
  }

  // ----- The writer -----

  lemma NoFragments(secrets: seq<Bytes>, fragments: map<Bytes, FragHit>, window: Bytes)
    requires fragments == map[] && IsFragmentIndex(fragments, secrets, |secrets|, 0)
    ensures FragmentLen(secrets, window) == 0
  {
    if |Strip(window)| >= FRAGMENT_LEN {
      assert FragmentOf(secrets, Strip(window)[..FRAGMENT_LEN]) == None;
    }
  }

  /** The indexes describe the registered secrets. */
  ghost predicate Indexed(secrets: seq<Bytes>, maxSpan: nat, first: map<Byte, seq<nat>>, fragments: map<Bytes,
      FragHit>) {
    && (forall s :: s in secrets ==> s != [])
    && LongestFirst(secrets)
    && maxSpan == MaxSpan(secrets)
    && IsFirstIndex(first, secrets, |secrets|)
    && IsFragmentIndex(fragments, secrets, |secrets|, 0)
  }

  /** Calls of Write with data have shown the sink the history, up to the cap, and nothing else. */
  ghost predicate Sunk(out: seq<Bytes>, written: int, maxOut: int, history: seq<Token>) {
    && Concat(out) == Capped(Render(history, Shown), maxOut)
    && [] !in out
    && written == |Concat(out)|
  }

  /** A streaming redacting writer; out is the sequence of writes its sink has received. */
  class Writer {
    const maxOut: int
    var out: seq<Bytes>
    var secrets: seq<Bytes>
    var buf: Bytes
    var maxLen: nat
    var maxSpan: nat
    var byFirst: map<Byte, seq<nat>>
    var fragments: map<Bytes, FragHit>
    var written: int
    var redactions: int
    ghost var stream: Bytes       // every byte ever passed to Write
    ghost var history: seq<Token> // what became of the bytes that have left the buffer

    ghost predicate Valid()
      reads this
    {
      && Indexed(secrets, maxSpan, byFirst, fragments)
      && stream == Source(history) + buf
      && redactions == Reds(history)
      && Sunk(out, written, maxOut, history)
      && |buf| <= Hold(secrets)
    }

    constructor (secrets: seq<Bytes>, maxOutputBytes: int)
      ensures Valid()
      ensures maxOut == maxOutputBytes
      ensures out == [] && stream == [] && history == [] && buf == []
      ensures forall s :: s in this.secrets <==> s in secrets && s != []
    {
      hide IsFirstIndex, IsFragmentIndex, LongestFirst, MaxSpan;
      maxOut := maxOutputBytes;
      var kept := DropEmpty(secrets);
      this.secrets, buf, out := kept, [], [];
      maxLen, maxSpan, byFirst, fragments := 0, 0, map[], map[];
      written, redactions := 0, 0;
      stream, history := [], [];
      new;
      Reindex();
    }

    /** Rebuilds the indexes; only the order of the registered secrets may change. */
    method Reindex()
      requires forall s :: s in secrets ==> s != []
      requires maxSpan <= MaxSpan(secrets)
      modifies `secrets, `maxLen, `maxSpan, `byFirst, `fragments
      ensures Indexed(secrets, maxSpan, byFirst, fragments)
      ensures multiset(secrets) == multiset(old(secrets))
      ensures forall s :: s in secrets <==> s in old(secrets)
      ensures MaxSpan(secrets) == MaxSpan(old(secrets))
    {
      var sorted := SortLongestFirst(secrets);
      MaxSpanMonotone(secrets, sorted);
      MaxSpanMonotone(sorted, secrets);
      secrets := sorted;
      maxLen, maxSpan, byFirst, fragments := BuildIndexes(sorted, maxLen, maxSpan);
    }

    /** Looks up the next fragment of rest and extends it as far as its secret continues. */
    method MatchFragment(rest: Bytes) returns (n: nat)
      requires Indexed(secrets, maxSpan, byFirst, fragments)
      ensures n == FragmentLen(secrets, Clip(rest, maxSpan))
    {
      var window := Clip(rest, maxSpan);
      var key, i, k := NextKey(window);
      if k < FRAGMENT_LEN || key !in fragments {
        assert k == FRAGMENT_LEN ==> FragmentOf(secrets, key) == None;
        return 0;
      }
      var hit := fragments[key];
      assert FragmentOf(secrets, key) == Some(hit);
      HitIsFragment(secrets, |secrets|, 0, key);
      n := ExtendFragment(window, hit, i);
    }

    /** The indexed matcher finds what the reference matcher finds. */
    method MatchAt(pos: nat) returns (n: nat)
      requires Indexed(secrets, maxSpan, byFirst, fragments) && pos <= |buf|
      ensures n == MatcherOf(secrets)(buf[pos..])
    {
      hide IsFragmentIndex, LongestFirst, FirstExact, FirstFlex, FragmentLen, MaxSpan, Clip;
      var rest := buf[pos..];
      if rest == [] {
        return 0;
      }
      var cands := Lookup(byFirst, rest[0]);
      n := MatchExact(secrets, rest, cands);
      if n > 0 {
        return;
      }
      n := MatchTolerant(secrets, rest, cands, maxSpan);
      if n > 0 {
        return;
      }
      if |fragments| > 0 && !IsFlexGap(rest[0]) {
        n := MatchFragment(rest);
        return;
      }
      if !IsFlexGap(rest[0]) {
        NoFragments(secrets, fragments, Clip(rest, maxSpan));
      }
      return 0;
    }

    /** The first position at which something matches, short of the bytes kept back. */
    method FindMatch(hold: nat) returns (safeEnd: nat, matchedLen: nat)
      requires Indexed(secrets, maxSpan, byFirst, fragments) && hold < |buf|
      ensures safeEnd + hold <= |buf|
      ensures forall k: nat :: k < safeEnd ==> MatcherOf(secrets)(buf[k..]) == 0
      ensures if matchedLen > 0 then safeEnd + hold < |buf| && matchedLen == MatcherOf(secrets)(buf[safeEnd..])
              else safeEnd + hold == |buf|
    {
      hide MatcherOf, Indexed;
      safeEnd, matchedLen := 0, 0;
      while safeEnd < |buf| - hold
        invariant safeEnd + hold <= |buf|
        invariant forall k: nat :: k < safeEnd ==> MatcherOf(secrets)(buf[k..]) == 0
        invariant matchedLen == 0
      {
        matchedLen := MatchAt(safeEnd);
        if matchedLen > 0 {
          return;
        }
        safeEnd := safeEnd + 1;
      }
    }

    /** Passes on data, which is what tokens look like in the output, as far as the cap allows. */
    method Emit(data: Bytes, ghost tokens: seq<Token>)
      requires Sunk(out, written, maxOut, history) && Render(tokens, Shown) == data
      modifies `out, `written, `history
      ensures Sunk(out, written, maxOut, history)
      ensures history == old(history) + tokens && old(out) <= out
    {
      hide Render, Shown;
      RenderConcat(history, tokens, Shown);
      history := history + tokens;
      if data == [] {
        return;
      }
      var shown := data;
      if maxOut > 0 {
        var remaining := maxOut - written;
        if remaining <= 0 {
          return;
        }
        if |data| > remaining {
          shown := data[..remaining];
        }
      }
      ConcatSnoc(out, shown);
      out := out + [shown];
      written := written + |shown|;
    }

    /** Emits the first n bytes of the buffer as they are. */
    method PassLiterals(n: nat)
      requires Sunk(out, written, maxOut, history) && n <= |buf|
      requires stream == Source(history) + buf && redactions == Reds(history)
      modifies `buf, `out, `written, `history
      ensures Sunk(out, written, maxOut, history)
      ensures stream == Source(history) + buf && redactions == Reds(history)
      ensures buf == old(buf)[n..] && history == old(history) + Lits(old(buf)[..n])
    {
      hide Sunk, Source, Reds, Render, Lits;
      ghost var safe := buf[..n];
      LitsMeaning(safe, Shown);
      SourceConcat(history, Lits(safe));
      RedsConcat(history, Lits(safe));
      MoveAcross(Source(history), buf, n);
      Emit(buf[..n], Lits(safe));
      buf := buf[n..];
    }

    /** Emits a placeholder for the first n bytes of the buffer. */
    method PassPlaceholder(n: nat)
      requires Sunk(out, written, maxOut, history) && n <= |buf|
      requires stream == Source(history) + buf && redactions == Reds(history)
      modifies `buf, `out, `written, `redactions, `history
      ensures Sunk(out, written, maxOut, history)
      ensures stream == Source(history) + buf && redactions == Reds(history)
      ensures buf == old(buf)[n..] && history == old(history) + [Red(old(buf)[..n])]
    {
      hide Sunk, Source, Reds, Render;
      ghost var red := [Red(buf[..n])];
      OneRed(buf[..n], Shown);
      SourceConcat(history, red);
      RedsConcat(history, red);
      MoveAcross(Source(history), buf, n);
      Emit(PLACEHOLDER, red);
      redactions := redactions + 1;
      buf := buf[n..];
    }

    /** Scans the buffer; the hold-back is dropped at the end of the stream. */
    method Scan(final: bool)
      requires Indexed(secrets, maxSpan, byFirst, fragments) && Sunk(out, written, maxOut, history)
      requires stream == Source(history) + buf && redactions == Reds(history)
      modifies `buf, `out, `written, `redactions, `history
      ensures Sunk(out, written, maxOut, history)
      ensures stream == Source(history) + buf && redactions == Reds(history)
      ensures history == old(history) + Advance(MatcherOf(secrets), old(buf), if final then 0 else Hold(secrets)).0
      ensures buf == Advance(MatcherOf(secrets), old(buf), if final then 0 else Hold(secrets)).1
    {
      hide Sunk, IsFirstIndex, IsFragmentIndex, LongestFirst, MatcherOf;
      ghost var m := MatcherOf(secrets);
      var hold := if !final && maxSpan > 1 then maxSpan - 1 else 0;
      assert hold == if final then 0 else Hold(secrets);
      ghost var goal, left := history + Advance(m, buf, hold).0, Advance(m, buf, hold).1;
      while |buf| > hold
        invariant Sunk(out, written, maxOut, history)
        invariant stream == Source(history) + buf && redactions == Reds(history)
        invariant goal == history + Advance(m, buf, hold).0 && left == Advance(m, buf, hold).1
        decreases |buf|
      {
        var replaced := ScanOnce(hold);
        if !replaced {
          break;
        }
      }
      assert Advance(m, buf, hold) == ([], buf);
      assert history + [] == history;
    }

    /** Emits the buffer up to the next match, and a placeholder for that match if there is one. */
    method ScanOnce(hold: nat) returns (replaced: bool)
      requires Indexed(secrets, maxSpan, byFirst, fragments) && Sunk(out, written, maxOut, history)
      requires stream == Source(history) + buf && redactions == Reds(history)
      requires |buf| > hold
      modifies `buf, `out, `written, `redactions, `history
      ensures Sunk(out, written, maxOut, history)
      ensures stream == Source(history) + buf && redactions == Reds(history)
      ensures history + Advance(MatcherOf(secrets), buf, hold).0
           == old(history) + Advance(MatcherOf(secrets), old(buf), hold).0
      ensures Advance(MatcherOf(secrets), buf, hold).1 == Advance(MatcherOf(secrets), old(buf), hold).1
      ensures if replaced then |buf| < |old(buf)| else |buf| <= hold
    {
      hide Sunk, Indexed, MatcherOf, Advance, Source, Reds;
      ghost var m := MatcherOf(secrets);
      var safeEnd, matchedLen := FindMatch(hold);
      AdvanceLits(m, buf, hold, safeEnd);
      Associate(history, Lits(buf[..safeEnd]), Advance(m, buf[safeEnd..], hold).0);
      PassLiterals(safeEnd);
      if matchedLen == 0 {
        return false;
      }
      AdvanceStep(m, buf, hold);
      Associate(history, [Red(buf[..matchedLen])], Advance(m, buf[matchedLen..], hold).0);
      PassPlaceholder(matchedLen);
      return true;
    }

    method Write(p: Bytes) returns (n: nat)
      requires Valid()
      modifies this
      ensures Valid()
      ensures n == |p| && stream == old(stream) + p && secrets == old(secrets)
      ensures history == old(history) + Advance(MatcherOf(secrets), old(buf) + p, Hold(secrets)).0
      ensures buf == Advance(MatcherOf(secrets), old(buf) + p, Hold(secrets)).1
    {
      hide Indexed, Sunk, MatcherOf;
      if p == [] {
        assert buf + p == buf;
        return 0;
      }
      Associate(Source(history), buf, p);
      buf := buf + p;
      stream := stream + p;
      Scan(false);
      return |p|;
    }

    method Flush()
      requires Valid()
      modifies this
      ensures Valid()
      ensures buf == [] && stream == old(stream) && secrets == old(secrets)
      ensures history == old(history) + Tokens(MatcherOf(secrets), old(buf))
    {
      hide Indexed, Sunk, MatcherOf;
      AdvanceAgrees(MatcherOf(secrets), buf, 0, []);
      assert buf + [] == buf;
      Scan(true);
    }

    method AddSecret(s: Bytes)
      requires Valid()
      modifies this
      ensures Valid()
      ensures out == old(out) && stream == old(stream) && history == old(history) && buf == old(buf)
      ensures forall t :: t in secrets <==> t in old(secrets) || (t == s && s != [])
      ensures MaxSpan(secrets) >= MaxSpan(old(secrets))
    {
      hide Sunk, IsFirstIndex, IsFragmentIndex, LongestFirst, Source, Reds, MaxSpan;
      if s == [] {
        return;
      }
      ghost var before := secrets;
      MaxSpanMonotone(before, before + [s]);
      secrets := secrets + [s];
      assert forall t :: t in secrets <==> t in before || t == s;
      Reindex();
    }
  }
}
