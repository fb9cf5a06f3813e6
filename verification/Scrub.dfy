/** The trie matcher for managed secrets (internal/scrub/matcher.go). */
module Scrub {
  import opened ByteStrings
  import opened Scanning
  import opened Needles
  import opened Base64
  import opened Encodings

  const MIN_SECRET_LEN: nat := 8

  class TrieNode {
    var next: Children
    var repl: Bytes          // not empty at terminal nodes: replacement text
    ghost const path: Bytes  // how the root leads here

    constructor (ghost path: Bytes)
      ensures next == LEAF && repl == [] && this.path == path
    {
      next, repl := LEAF, [];
      this.path := path;
    }
  }

  type Children = map<Byte, TrieNode>

  const LEAF: Children := map[]

  datatype Secret = Secret(alias: Bytes, value: Bytes)

  function WithChild(children: Children, c: Byte, child: TrieNode): Children {
    children[c := child]
  }

  /** The child links of every node, by the node's path. */
  ghost function Links(nodes: map<Bytes, TrieNode>): map<Bytes, Children>
    reads nodes.Values
  {
    map p | p in nodes :: nodes[p].next
  }

  /** Every node has its place: nodes maps each path from the root to the node it leads to. */
  ghost predicate IsTrie(nodes: map<Bytes, TrieNode>, links: map<Bytes, Children>) {
    && [] in nodes && links.Keys == nodes.Keys
    && (forall p :: p in nodes ==> nodes[p].path == p)
    && (forall p {:trigger Parent(p)} :: p in nodes && p != [] ==> Parent(p) in nodes && Last(p) in links[Parent(p)])
    && (forall p, c :: p in nodes && c in links[p] ==> p + [c] in nodes && links[p][c] == nodes[p + [c]])
  }

  function Parent(q: Bytes): Bytes
    requires q != []
  {
    q[..|q| - 1]
  }

  function Last(q: Bytes): Byte
    requires q != []
  {
    q[|q| - 1]
  }

  /** The dictionary that a trie denotes: paths to terminal nodes, with their replacement texts. */
  ghost function Denoted(nodes: map<Bytes, TrieNode>): Dictionary
    reads nodes.Values
  {
    map p | p in nodes && nodes[p].repl != [] :: nodes[p].repl
  }

  /** A path leads somewhere only if all its beginnings do. */
  lemma {:induction false} PathsArePrefixClosed(nodes: map<Bytes, TrieNode>, links: map<Bytes, Children>,
      p: Bytes, k: nat)
    requires IsTrie(nodes, links) && p in nodes && k <= |p|
    ensures p[..k] in nodes
    decreases |p|
  {
    if k < |p| {
      PathsArePrefixClosed(nodes, links, Parent(p), k);
      assert Parent(p)[..k] == p[..k];
    } else {
      assert p[..k] == p;
    }
  }

  /** A new leaf under a node that had no child for its byte leaves a trie a trie. */
  lemma ChildKeepsTrie(nodes: map<Bytes, TrieNode>, links: map<Bytes, Children>, p: Bytes, c: Byte, child: TrieNode)
    requires IsTrie(nodes, links) && p in nodes && c !in links[p] && child.path == p + [c]
    ensures p + [c] !in nodes
    ensures IsTrie(nodes[p + [c] := child], links[p := WithChild(links[p], c, child)][p + [c] := LEAF])
  {
    var q := p + [c];
    assert Parent(q) == p && Last(q) == c;
    var nodes', links' := nodes[q := child], links[p := WithChild(links[p], c, child)][q := LEAF];
    forall r, d | r in nodes' && d in links'[r]
      ensures r + [d] in nodes' && links'[r][d] == nodes'[r + [d]]
    {
      assert Parent(r + [d]) == r && Last(r + [d]) == d;
    }
  }

  lemma ShowsLongest(d: Dictionary, text: Bytes)
    requires text != []
    ensures var len := LongestUpTo(d, text, |text|);
            FirstShown(d, text) == if len == 0 then ([text[0]], 1) else (d[text[..len]], len)
  {
  }

  class Matcher {
    var root: TrieNode
    var secrets: seq<Secret>
    var needles: nat
    var skipped: nat
    ghost var nodes: map<Bytes, TrieNode>

    ghost predicate Valid()
      reads this, nodes.Values
    {
      IsTrie(nodes, Links(nodes)) && nodes[[]] == root
    }

    constructor ()
      ensures Valid() && fresh(nodes.Values)
      ensures Denoted(nodes) == map[] && Counted() && needles == 0 && skipped == 0 && secrets == []
    {
      var empty := new TrieNode([]);
      root, secrets, needles, skipped := empty, [], 0, 0;
      nodes := map[[] := empty];
    }

    /** Adds a needle; on a collision the first replacement wins. */
    method Insert(needle: Bytes, repl: Bytes)
      requires Valid()
      modifies `nodes, nodes.Values
      ensures Valid() && fresh(nodes.Values - old(nodes.Values))
      ensures Denoted(nodes) == if needle in old(Denoted(nodes)) || repl == [] then old(Denoted(nodes))
                                else old(Denoted(nodes))[needle := repl]
    {
      hide IsTrie, Denoted;
      var n := root;
      RootIsThere();
      assert needle[..0] == [];
      for i := 0 to |needle|
        invariant Valid() && fresh(nodes.Values - old(nodes.Values))
        invariant root == old(root)
        invariant needle[..i] in nodes && nodes[needle[..i]] == n
        invariant Denoted(nodes) == old(Denoted(nodes))
      {
        n := Step(n, needle[..i], needle[i]);
        assert needle[..i + 1] == needle[..i] + [needle[i]];
      }
      assert needle[..|needle|] == needle;
      Mark(n, needle, repl);
    }

    lemma RootIsThere()
      requires Valid()
      ensures [] in nodes && nodes[[]] == root
    {
    }

    /** Makes the node at path p terminal, unless it is already. */
    method Mark(n: TrieNode, ghost p: Bytes, repl: Bytes)
      requires Valid() && p in nodes && nodes[p] == n
      modifies n`repl
      ensures Valid() && nodes == old(nodes)
      ensures Denoted(nodes) == if p in old(Denoted(nodes)) || repl == [] then old(Denoted(nodes))
                                else old(Denoted(nodes))[p := repl]
    {
      hide IsTrie;
      OnlyPath(p);
      ghost var links := Links(nodes);
      if n.repl == [] {
        n.repl := repl;
      }
      assert Links(nodes) == links;
    }

    lemma OnlyPath(p: Bytes)
      requires Valid() && p in nodes
      ensures forall q :: q in nodes && q != p ==> nodes[q] != nodes[p]
    {
    }

    /** The child of the node at path p for c, made if it is missing. */
    method Step(n: TrieNode, ghost p: Bytes, c: Byte) returns (child: TrieNode)
      requires Valid() && p in nodes && nodes[p] == n
      modifies `nodes, nodes.Values
      ensures Valid() && fresh(nodes.Values - old(nodes.Values))
      ensures root == old(root)
      ensures p + [c] in nodes && nodes[p + [c]] == child
      ensures Denoted(nodes) == old(Denoted(nodes))
    {
      if c in n.next {
        return n.next[c];
      }
      child := AddChild(n, p, c);
    }

    method AddChild(n: TrieNode, ghost p: Bytes, c: Byte) returns (child: TrieNode)
      requires Valid() && p in nodes && nodes[p] == n && c !in n.next
      modifies `nodes, n
      ensures Valid() && fresh(child)
      ensures old(p + [c] !in nodes) && nodes == old(nodes)[p + [c] := child]
      ensures child.repl == [] && n.repl == old(n.repl)
    {
      ghost var links := Links(nodes);
      child := new TrieNode(p + [c]);
      ChildKeepsTrie(nodes, links, p, c, child);
      n.next := n.next[c := child];
      nodes := nodes[p + [c] := child];
      assert Links(nodes) == links[p := WithChild(links[p], c, child)][p + [c] := LEAF];
    }

    /** Follows the trie along s from index i on and remembers the last needle passed. */
    method LongestAt(s: Bytes, i: nat) returns (longest: int, repl: Bytes)
      requires Valid() && i < |s|
      ensures var len := LongestUpTo(Denoted(nodes), s[i..], |s| - i);
              && longest == (if len > 0 then i + len else -1)
              && (len > 0 ==> repl == Denoted(nodes)[s[i..][..len]])
      ensures FirstShown(Denoted(nodes), s[i..]) == if longest == -1 then ([s[i]], 1) else (repl, longest - i)
    {
      hide IsTrie, Links, Denoted, FirstShown;
      ghost var d, text := Denoted(nodes), s[i..];
      var n := root;
      RootIsThere();
      longest, repl := -1, [];
      var j := i;
      assert text[..0] == [];
      while j < |s|
        invariant i <= j <= |s|
        invariant text[..j - i] in nodes && nodes[text[..j - i]] == n
        invariant longest == if LongestUpTo(d, text, j - i) > 0 then i + LongestUpTo(d, text, j - i) else -1
        invariant LongestUpTo(d, text, j - i) > 0 ==> repl == d[text[..LongestUpTo(d, text, j - i)]]
      {
        assert text[..j - i] + [s[j]] == text[..j - i + 1];
        if s[j] !in n.next {
          NoneFurther(text, j - i);
          LongestStops(d, text, j - i, |text|);
          ShowsLongest(d, text);
          return;
        }
        ChildIsThere(n, text[..j - i], s[j]);
        n := n.next[s[j]];
        j := j + 1;
        TerminalDenotes(text[..j - i]);
        if n.repl != [] {
          longest, repl := j, n.repl;
        }
      }
      ShowsLongest(d, text);
    }

    lemma ChildIsThere(n: TrieNode, p: Bytes, c: Byte)
      requires Valid() && p in nodes && nodes[p] == n && c in n.next
      ensures p + [c] in nodes && nodes[p + [c]] == n.next[c]
    {
    }

    lemma TerminalDenotes(p: Bytes)
      requires Valid() && p in nodes
      ensures p in Denoted(nodes) <==> nodes[p].repl != []
      ensures p in Denoted(nodes) ==> Denoted(nodes)[p] == nodes[p].repl
    {
    }

    /** Where the trie ends, no longer path of the text leads anywhere. */
    lemma NoneFurther(text: Bytes, n: nat)
      requires Valid() && n < |text| && text[..n] in nodes
      requires text[n] !in nodes[text[..n]].next
      ensures forall k: nat :: n < k <= |text| ==> text[..k] !in Denoted(nodes)
    {
      forall k: nat | n < k <= |text|
        ensures text[..k] !in nodes
      {
        var q := text[..n + 1];
        assert Parent(q) == text[..n] && Last(q) == text[n] && text[..k][..n + 1] == q;
        if text[..k] in nodes {
          PathsArePrefixClosed(nodes, Links(nodes), text[..k], n + 1);
        }
      }
    }

    /** A matcher that was given no needle denotes none. */
    ghost predicate Counted()
      reads this, nodes.Values
    {
      needles == 0 ==> Denoted(nodes) == map[]
    }

    lemma WithoutNeedles()
      requires Counted() && needles == 0
      ensures Denoted(nodes) == map[]
    {
    }

    /** One pass over s, the longest needle winning at each position. */
    method Redact(s: Bytes) returns (out: Bytes, count: nat)
      requires Valid() && Counted()
      ensures out == Redacted(Denoted(nodes), s)
      ensures count == Redactions(Denoted(nodes), s)
    {
      hide *;
      if needles == 0 || s == [] {
        if needles == 0 {
          WithoutNeedles();
        }
        NothingToReplace(Denoted(nodes), s);
        return s, 0;
      }
      out, count := RedactAll(s);
    }

    method RedactAll(s: Bytes) returns (out: Bytes, count: nat)
      requires Valid()
      ensures out == Redacted(Denoted(nodes), s)
      ensures count == Redactions(Denoted(nodes), s)
    {
      hide *;
      out, count := [], 0;
      var i := 0;
      assert s[0..] == s;
      while i < |s|
        invariant i <= |s|
        invariant out + Redacted(Denoted(nodes), s[i..]) == Redacted(Denoted(nodes), s)
        invariant count + Redactions(Denoted(nodes), s[i..]) == Redactions(Denoted(nodes), s)
      {
        var shown, step, replaced := RedactAt(s, i, out, count);
        out := out + shown;
        count := count + if replaced then 1 else 0;
        i := i + step;
      }
      assert s[i..] == [];
      NothingToReplace(Denoted(nodes), []);
    }

    /** What the pass shows for the longest needle at index i, or for the byte there. */
    method RedactAt(s: Bytes, i: nat, ghost out: Bytes, ghost count: nat)
      returns (shown: Bytes, step: nat, replaced: bool)
      requires Valid() && i < |s|
      ensures 0 < step <= |s| - i
      ensures (out + shown) + Redacted(Denoted(nodes), s[i + step..]) == out + Redacted(Denoted(nodes), s[i..])
      ensures count + (if replaced then 1 else 0) + Redactions(Denoted(nodes), s[i + step..])
           == count + Redactions(Denoted(nodes), s[i..])
    {
      hide *;
      var longest, repl := LongestAt(s, i);
      RedactingStep(Denoted(nodes), s, i, out, count);
      if longest == -1 {
        return [s[i]], 1, false;
      }
      return repl, longest - i, true;
    }

    /** Does s hold a needle? */
    method Contains(s: Bytes) returns (yes: bool)
      requires Valid() && Counted()
      ensures yes <==> Holds(Denoted(nodes), s)
    {
      var out, n := Redact(s);
      RedactsIffHolds(Denoted(nodes), s);
      return n > 0;
    }
  }

  // ----- Which needles a matcher is built from -----

  /** Hashing and JSON escaping, which are not part of this model. */
  datatype Outside = Outside(sha8: Bytes -> Bytes, json: Bytes -> seq<Bytes>)

  function Placeholder(s: Secret, o: Outside): (text: Bytes)
    ensures |text| >= 2 && text[0] == OPEN && text[|text| - 1] == CLOSE
  {
    Ascii("[REDACTED:") + s.alias + Ascii(":") + o.sha8(s.value) + Ascii("]")
  }

  /** The forms that are long enough to be matched. */
  function LongEnough(forms: seq<Bytes>): (kept: seq<Bytes>)
    ensures forall f :: f in kept <==> f in forms && |f| >= MIN_SECRET_LEN
  {
    if forms == [] then []
    else LongEnough(forms[..|forms| - 1]) + if |forms[|forms| - 1]| >= MIN_SECRET_LEN then [forms[|forms| - 1]] else []
  }

  function VariantCandidates(value: Bytes, o: Outside): seq<Bytes>
    requires value != []
  {
    Base64Forms(value) + [Percent(value, [], true), Percent(value, [], false)]
    + LongEnough(Cores(value, 3) + o.json(value))
  }

  /** The value and the encoded spellings of it that tools persist. */
  function VariantsOf(value: Bytes, o: Outside): seq<Bytes>
    requires value != []
  {
    [value] + Fresh(VariantCandidates(value, o), 1, {value})
  }

  method Variants(value: Bytes, o: Outside) returns (out: seq<Bytes>)
    requires value != []
    ensures out == VariantsOf(value, o) && out != []
  {
    hide Fresh, Percent, Cores, LongEnough;
    var upper := PercentEncode(value, [], true);
    var lower := PercentEncode(value, [], false);
    var cores := Base64Cores(value);
    var long := KeepLong(cores + o.json(value));
    var more := Dedupe(Base64Forms(value) + [upper, lower] + long, 1, {value});
    out := [value] + more;
  }

  method KeepLong(forms: seq<Bytes>) returns (kept: seq<Bytes>)
    ensures kept == LongEnough(forms)
  {
    kept := [];
    for i := 0 to |forms|
      invariant kept == LongEnough(forms[..i])
    {
      assert forms[..i + 1][..i] == forms[..i];
      if |forms[i]| >= MIN_SECRET_LEN {
        kept := kept + [forms[i]];
      }
    }
    assert forms[..|forms|] == forms;
  }

  /** A dictionary with further needles for one replacement; needles already there keep theirs. */
  function WithNeedles(d: Dictionary, needles: seq<Bytes>, repl: Bytes): Dictionary {
    (map n | n in needles :: repl) + d
  }

  /** The dictionary for managed secrets: the first secret that has a needle as a variant owns it. */
  function DictionaryOf(secrets: seq<Secret>, o: Outside): Dictionary {
    if secrets == [] then map[]
    else
      var before, s := DictionaryOf(secrets[..|secrets| - 1], o), secrets[|secrets| - 1];
      if |s.value| < MIN_SECRET_LEN then before else WithNeedles(before, VariantsOf(s.value, o), Placeholder(s, o))
  }

  /** Secret i is the first whose variants include the needle. */
  ghost predicate Owns(secrets: seq<Secret>, o: Outside, i: nat, needle: Bytes) {
    && i < |secrets| && HasVariant(secrets[i], o, needle)
    && forall j: nat :: j < i ==> !HasVariant(secrets[j], o, needle)
  }

  predicate HasVariant(s: Secret, o: Outside, needle: Bytes) {
    |s.value| >= MIN_SECRET_LEN && needle in VariantsOf(s.value, o)
  }

  /** First wins: a needle is replaced by the placeholder of the first secret that has it as a variant. */
  lemma {:induction false} FirstSecretOwns(secrets: seq<Secret>, o: Outside, needle: Bytes)
    ensures needle in DictionaryOf(secrets, o) <==> exists i: nat :: Owns(secrets, o, i, needle)
    ensures forall i: nat :: Owns(secrets, o, i, needle) ==>
        DictionaryOf(secrets, o)[needle] == Placeholder(secrets[i], o)
  {
    hide Placeholder, VariantsOf;
    if secrets != [] {
      var init, n := secrets[..|secrets| - 1], |secrets| - 1;
      FirstSecretOwns(init, o, needle);
      forall i: nat | i < n
        ensures Owns(secrets, o, i, needle) <==> Owns(init, o, i, needle)
      {
      }
      if needle in DictionaryOf(init, o) {
        var i: nat :| Owns(init, o, i, needle);
        assert Owns(secrets, o, i, needle);
      } else if HasVariant(secrets[n], o, needle) {
        NotOwned(init, o, needle, n);
        assert Owns(secrets, o, n, needle);
      }
    }
  }

  /** A needle that nobody owns is a variant of no secret. */
  lemma {:induction false} NotOwned(secrets: seq<Secret>, o: Outside, needle: Bytes, n: nat)
    requires n <= |secrets| && !exists i: nat :: Owns(secrets, o, i, needle)
    ensures forall j: nat :: j < n ==> !HasVariant(secrets[j], o, needle)
  {
    hide HasVariant;
    if n > 0 {
      NotOwned(secrets, o, needle, n - 1);
      assert !Owns(secrets, o, n - 1, needle);
    }
  }

  // ----- Building a matcher -----

  /** The secrets that contribute needles: the long enough ones, each value once. */
  function Contributors(secrets: seq<Secret>): (used: seq<Secret>)
    ensures forall s :: s in used ==> s in secrets && |s.value| >= MIN_SECRET_LEN
  {
    if secrets == [] then []
    else
      var before, s := Contributors(secrets[..|secrets| - 1]), secrets[|secrets| - 1];
      if |s.value| < MIN_SECRET_LEN || HasValue(before, s.value) then before else before + [s]
  }

  predicate HasValue(secrets: seq<Secret>, value: Bytes) {
    exists k :: 0 <= k < |secrets| && secrets[k].value == value
  }

  function ShortOnes(secrets: seq<Secret>): nat {
    if secrets == [] then 0
    else ShortOnes(secrets[..|secrets| - 1]) + if |secrets[|secrets| - 1].value| < MIN_SECRET_LEN then 1 else 0
  }

  /** How many variants secrets have, each with its own. */
  function VariantCount(secrets: seq<Secret>, o: Outside): nat
    requires forall s :: s in secrets ==> |s.value| >= MIN_SECRET_LEN
  {
    if secrets == [] then 0
    else VariantCount(secrets[..|secrets| - 1], o) + |VariantsOf(secrets[|secrets| - 1].value, o)|
  }

  /** What one more secret changes. */
  lemma NextContributor(secrets: seq<Secret>, o: Outside, i: nat)
    requires i < |secrets|
    ensures var s, before, after := secrets[i], Contributors(secrets[..i]), Contributors(secrets[..i + 1]);
            if |s.value| < MIN_SECRET_LEN || HasValue(before, s.value) then after == before
            else after == before + [s] && VariantCount(after, o) == VariantCount(before, o) + |VariantsOf(s.value, o)|
    ensures ShortOnes(secrets[..i + 1]) == ShortOnes(secrets[..i]) 
            + if |secrets[i].value| < MIN_SECRET_LEN then 1 else 0
  {
    hide VariantsOf;
    assert secrets[..i + 1][..i] == secrets[..i];
    var before := Contributors(secrets[..i]);
    assert (before + [secrets[i]])[..|before|] == before;
  }

  /** One more secret adds its variants to the dictionary, unless its value is short or repeated. */
  lemma NextSecret(secrets: seq<Secret>, o: Outside, i: nat)
    requires i < |secrets|
    ensures var s, before, after := secrets[i], DictionaryOf(secrets[..i], o), DictionaryOf(secrets[..i + 1], o);
            if |s.value| < MIN_SECRET_LEN || HasValue(Contributors(secrets[..i]), s.value) then after == before
            else after == WithNeedles(before, VariantsOf(s.value, o), Placeholder(s, o))
  {
    hide VariantsOf, Placeholder, Contributors;
    var init, s := secrets[..i], secrets[i];
    assert secrets[..i + 1][..i] == init;
    if |s.value| >= MIN_SECRET_LEN && HasValue(Contributors(init), s.value) {
      var k :| 0 <= k < |Contributors(init)| && Contributors(init)[k].value == s.value;
      assert Contributors(init)[k] in init;
      forall n | n in VariantsOf(s.value, o) ensures n in DictionaryOf(init, o) {
        VariantIsNeedle(init, o, Contributors(init)[k], n);
      }
    }
  }

  /** The values of the secrets that contribute are the ones seen. */
  ghost predicate Seen(seen: set<Bytes>, used: seq<Secret>) {
    forall v :: v in seen <==> HasValue(used, v)
  }

  lemma SeenMore(seen: set<Bytes>, used: seq<Secret>, s: Secret)
    requires Seen(seen, used)
    ensures Seen(seen + {s.value}, used + [s])
  {
    var more := used + [s];
    assert more[|used|] == s && forall k :: 0 <= k < |used| ==> more[k] == used[k];
    forall v ensures v in seen + {s.value} <==> HasValue(more, v) {
      assert v == s.value ==> more[|used|].value == v;
    }
  }

  lemma NothingBuilt(secrets: seq<Secret>, o: Outside)
    ensures DictionaryOf(secrets[..0], o) == map[] && Contributors(secrets[..0]) == [] && ShortOnes(secrets[..0]) == 0
    ensures VariantCount([], o) == 0 && Seen({}, [])
  {
  }

  /**
   Builds a matcher; short values and repeated ones contribute nothing. It counts the short secrets, and
   the variants of the others one by one.
   */
  method NewMatcher(secrets: seq<Secret>, o: Outside) returns (m: Matcher)
    ensures m.Valid() && m.Counted() && fresh(m) && fresh(m.nodes.Values)
    ensures Denoted(m.nodes) == DictionaryOf(secrets, o)
    ensures m.secrets == Contributors(secrets) && m.skipped == ShortOnes(secrets)
    ensures m.needles == VariantCount(Contributors(secrets), o)
  {
    hide *;
    m := new Matcher();
    var seen: set<Bytes> := {};
    NothingBuilt(secrets, o);
    for i := 0 to |secrets|
      invariant m.Valid() && m.Counted() && fresh(m) && fresh(m.nodes.Values)
      invariant Denoted(m.nodes) == DictionaryOf(secrets[..i], o)
      invariant m.secrets == Contributors(secrets[..i]) && m.skipped == ShortOnes(secrets[..i])
      invariant m.needles == VariantCount(Contributors(secrets[..i]), o)
      invariant Seen(seen, m.secrets)
    {
      NextSecret(secrets, o, i);
      NextContributor(secrets, o, i);
      SeenMeans(seen, m.secrets, secrets[i].value);
      SeenMore(seen, m.secrets, secrets[i]);
      seen := AddSecret(m, secrets[i], o, seen);
    }
    assert secrets[..|secrets|] == secrets;
  }

  lemma SeenMeans(seen: set<Bytes>, used: seq<Secret>, v: Bytes)
    requires Seen(seen, used)
    ensures v in seen <==> HasValue(used, v)
  {
  }

  /** Adds the needles of one secret, unless its value is too short or was seen before. */
  method AddSecret(m: Matcher, s: Secret, o: Outside, seen: set<Bytes>) returns (seen': set<Bytes>)
    requires m.Valid() && m.Counted()
    modifies m, m.nodes.Values
    ensures m.Valid() && m.Counted() && fresh(m.nodes.Values - old(m.nodes.Values))
    ensures if |s.value| < MIN_SECRET_LEN || s.value in seen
            then Denoted(m.nodes) == old(Denoted(m.nodes)) && seen' == seen && m.needles == old(m.needles)
            else && Denoted(m.nodes) == WithNeedles(old(Denoted(m.nodes)), VariantsOf(s.value, o), Placeholder(s, o))
                 && seen' == seen + {s.value} && m.needles == old(m.needles) + |VariantsOf(s.value, o)|
    ensures m.skipped == old(m.skipped) + if |s.value| < MIN_SECRET_LEN then 1 else 0
    ensures m.secrets == old(m.secrets) + if |s.value| < MIN_SECRET_LEN || s.value in seen then [] else [s]
  {
    hide IsTrie, WithNeedles, VariantsOf, Placeholder;
    if |s.value| < MIN_SECRET_LEN {
      m.skipped := m.skipped + 1;
      return seen;
    }
    if s.value in seen {
      return seen;
    }
    AddVariants(m, s, o);
    m.secrets := m.secrets + [s];
    return seen + {s.value};
  }

  lemma WithOneMore(d: Dictionary, needles: seq<Bytes>, j: nat, repl: Bytes)
    requires j < |needles|
    ensures WithNeedles(d, needles[..j + 1], repl) ==
        WithNeedles(WithNeedles(d, needles[..j], repl), [needles[j]], repl)
  {
    assert needles[..j + 1] == needles[..j] + [needles[j]];
  }

  lemma WithOne(d: Dictionary, needle: Bytes, repl: Bytes)
    ensures WithNeedles(d, [needle], repl) == if needle in d then d else d[needle := repl]
  {
  }

  method AddVariants(m: Matcher, s: Secret, o: Outside)
    requires m.Valid() && m.Counted() && |s.value| >= MIN_SECRET_LEN
    modifies m, m.nodes.Values
    ensures m.Valid() && m.Counted() && fresh(m.nodes.Values - old(m.nodes.Values))
    ensures Denoted(m.nodes) == WithNeedles(old(Denoted(m.nodes)), VariantsOf(s.value, o), Placeholder(s, o))
    ensures m.needles == old(m.needles) + |VariantsOf(s.value, o)|
    ensures m.skipped == old(m.skipped) && m.secrets == old(m.secrets)
  {
    hide *;
    LongIsNotEmpty(s);
    var repl := Placeholder(s, o);
    var variants := Variants(s.value, o);
    AddNeedles(m, variants, repl);
    NotCountless(m);
  }

  method AddNeedles(m: Matcher, needles: seq<Bytes>, repl: Bytes)
    requires m.Valid() && repl != []
    modifies m, m.nodes.Values
    ensures m.Valid() && fresh(m.nodes.Values - old(m.nodes.Values))
    ensures Denoted(m.nodes) == WithNeedles(old(Denoted(m.nodes)), needles, repl)
    ensures m.needles == old(m.needles) + |needles|
    ensures m.skipped == old(m.skipped) && m.secrets == old(m.secrets)
  {
    hide *;
    ghost var before := Denoted(m.nodes);
    WithNone(before, needles[..0], repl);
    for j := 0 to |needles|
      invariant m.Valid() && fresh(m.nodes.Values - old(m.nodes.Values))
      invariant Denoted(m.nodes) == WithNeedles(before, needles[..j], repl)
      invariant m.needles == old(m.needles) + j
      invariant m.skipped == old(m.skipped) && m.secrets == old(m.secrets)
    {
      WithOneMore(before, needles, j, repl);
      AddNeedle(m, needles[j], repl);
    }
    assert needles[..|needles|] == needles;
  }

  lemma WithNone(d: Dictionary, needles: seq<Bytes>, repl: Bytes)
    requires needles == []
    ensures WithNeedles(d, needles, repl) == d
  {
  }

  lemma LongIsNotEmpty(s: Secret)
    requires |s.value| >= MIN_SECRET_LEN
    ensures s.value != []
  {
  }

  lemma NotCountless(m: Matcher)
    requires m.needles > 0
    ensures m.Counted()
  {
  }

  method AddNeedle(m: Matcher, needle: Bytes, repl: Bytes)
    requires m.Valid() && repl != []
    modifies m, m.nodes.Values
    ensures m.Valid() && fresh(m.nodes.Values - old(m.nodes.Values))
    ensures Denoted(m.nodes) == WithNeedles(old(Denoted(m.nodes)), [needle], repl)
    ensures m.needles == old(m.needles) + 1 && m.skipped == old(m.skipped) && m.secrets == old(m.secrets)
  {
    hide IsTrie, Denoted, WithNeedles;
    WithOne(Denoted(m.nodes), needle, repl);
    m.Insert(needle, repl);
    m.needles := m.needles + 1;
  }

  // ----- What a scan for managed secrets finds -----

  lemma CoreIsVariant(value: Bytes, o: Outside, k: nat, a: Alphabet)
    requires |value| >= MIN_SECRET_LEN && k < 3
    ensures Core(value, k, a) in VariantsOf(value, o)
  {
    hide Core, Cores, Fresh;
    CoresHasCore(value, 3, k, a);
    FreshIsComplete(VariantCandidates(value, o), 1, {value});
    assert Core(value, k, a) in LongEnough(Cores(value, 3) + o.json(value));
    assert Core(value, k, a) in VariantCandidates(value, o);
  }

  /**
   A text that holds a managed secret's value, or the base64 text of any message with that value in
   it, is found to hold a needle.
   */
  lemma EncodedSecretIsFound(
    secrets: seq<Secret>, o: Outside, s: Secret, prefix: Bytes, suffix: Bytes, a: Alphabet, padded: bool,
    pre: Bytes, post: Bytes)
    requires s in secrets && |s.value| >= MIN_SECRET_LEN
    ensures Holds(DictionaryOf(secrets, o), pre + s.value + post)
    ensures Holds(DictionaryOf(secrets, o), pre + Encode(prefix + s.value + suffix, a, padded) + post)
  {
    hide *;
    ValueIsFound(secrets, o, s, pre, post);
    LongIsNotEmpty(s);
    var core, text := Core(s.value, |prefix| % 3, a), Encode(prefix + s.value + suffix, a, padded);
    CoreIsVariant(s.value, o, |prefix| % 3, a);
    CoreIsAligned(prefix, s.value, suffix, a, padded);
    VariantIsFound(secrets, o, s, core, text, CoreOffset(|prefix|), pre, post);
  }

  lemma ValueIsFound(secrets: seq<Secret>, o: Outside, s: Secret, pre: Bytes, post: Bytes)
    requires s in secrets && |s.value| >= MIN_SECRET_LEN
    ensures Holds(DictionaryOf(secrets, o), pre + s.value + post)
  {
    hide DictionaryOf, Holds;
    assert s.value in VariantsOf(s.value, o);
    VariantIsFound(secrets, o, s, s.value, s.value, 0, pre, post);
  }

  lemma VariantIsFound(
    secrets: seq<Secret>, o: Outside, s: Secret, needle: Bytes, text: Bytes, at: nat, pre: Bytes, post: Bytes)
    requires s in secrets && |s.value| >= MIN_SECRET_LEN && needle in VariantsOf(s.value, o)
        && OccursAt(needle, text, at)
    ensures Holds(DictionaryOf(secrets, o), pre + text + post)
  {
    hide DictionaryOf, Holds, VariantsOf, OccursAt;
    VariantIsNeedle(secrets, o, s, needle);
    VariantIsNotEmpty(s.value, o, needle);
    HeldWithin(DictionaryOf(secrets, o), needle, text, at, pre, post);
  }

  lemma VariantIsNotEmpty(value: Bytes, o: Outside, needle: Bytes)
    requires |value| >= MIN_SECRET_LEN && needle in VariantsOf(value, o)
    ensures needle != []
  {
    FreshIsComplete(VariantCandidates(value, o), 1, {value});
  }

  lemma HeldWithin(d: Dictionary, needle: Bytes, text: Bytes, at: nat, pre: Bytes, post: Bytes)
    requires needle in d && needle != [] && OccursAt(needle, text, at)
    ensures Holds(d, pre + text + post)
  {
    OccursWithin(needle, text, at, pre, post);
  }

  lemma VariantIsNeedle(secrets: seq<Secret>, o: Outside, s: Secret, needle: Bytes)
    requires s in secrets && HasVariant(s, o, needle)
    ensures needle in DictionaryOf(secrets, o)
  {
    FirstSecretOwns(secrets, o, needle);
    if needle !in DictionaryOf(secrets, o) {
      NotOwned(secrets, o, needle, |secrets|);
    }
  }
}
