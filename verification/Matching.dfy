/**
 What one match of the redactor is, said by what stands at the start of the text rather than by the
 functions that search for it.
 */
module Matching {
  import opened ByteStrings
  import opened RedactSpec
  import opened RedactWriters
  import opened RedactTheorems
  import opened Options
  import opened Scanning

  // ----- Projections -----

  /** t is p with whitespace, control bytes and DEL put in anywhere. */
  predicate SpreadOver(p: Bytes, t: Bytes) {
    if t == [] then p == []
    else if t[0] <= 0x20 || t[0] == 0x7F then SpreadOver(p, t[1..])
    else p != [] && p[0] == t[0] && SpreadOver(p[1..], t[1..])
  }

  lemma StripOne(b: Byte)
    ensures Strip([b]) == if b <= 0x20 || b == 0x7F then [] else [b]
  {
    assert [b][..0] == [];
  }

  /** The projection of a text is the one sequence without gap bytes that the text spreads out. */
  lemma {:induction false} SpreadMeans(p: Bytes, t: Bytes)
    ensures SpreadOver(p, t) <==> Strip(t) == p
  {
    hide Strip;
    if t == [] {
      StripNothing();
    } else {
      var b, rest := t[0], t[1..];
      assert t == [b] + rest;
      StripConcat([b], rest);
      StripOne(b);
      if b <= 0x20 || b == 0x7F {
        SpreadMeans(p, rest);
      } else if p != [] {
        SpreadMeans(p[1..], rest);
        assert p == [p[0]] + p[1..];
        assert Strip(t)[1..] == Strip(rest);
      }
    }
  }

  lemma StripNothing()
    ensures Strip([]) == []
  {
  }

  // ----- What may stand at the start of a text -----

  /** How far into the text a gap-tolerant match may look. */
  predicate InReach(secrets: seq<Bytes>, text: Bytes, e: nat) {
    0 < e <= |text| && e <= MaxSpan(secrets)
  }

  predicate ExactAt(secrets: seq<Bytes>, text: Bytes, k: nat) {
    k < |secrets| && secrets[k] <= text
  }

  /** The first e bytes are secret k, gaps in either of them left out of account. */
  predicate TolerantAt(secrets: seq<Bytes>, text: Bytes, k: nat, e: nat) {
    && k < |secrets| && InReach(secrets, text, e)
    && ((secrets[k] != [] && text[0] == secrets[k][0]) || (Strip(secrets[k]) != [] && text[0] == Strip(secrets[k])[0]))
    && Strip(secrets[k]) != [] && Strip(text[..e]) == Strip(secrets[k])
  }

  /** The first e bytes show the projected bytes from..to of secret k, a long one. */
  predicate FragmentAt(secrets: seq<Bytes>, text: Bytes, k: nat, from: nat, to: nat, e: nat) {
    && k < |secrets| && InReach(secrets, text, e)
    && 24 <= |Strip(secrets[k])| <= 65536
    && from + 12 <= to <= |Strip(secrets[k])|
    && Strip(text[..e]) == Strip(secrets[k])[from..to]
  }

  ghost predicate HasExact(secrets: seq<Bytes>, text: Bytes) {
    exists k: nat :: ExactAt(secrets, text, k)
  }

  ghost predicate HasTolerant(secrets: seq<Bytes>, text: Bytes) {
    exists k: nat, e: nat :: TolerantAt(secrets, text, k, e)
  }

  ghost predicate HasFragment(secrets: seq<Bytes>, text: Bytes) {
    text != [] && !IsFlexGap(text[0])
    && exists k: nat, from: nat, to: nat, e: nat :: FragmentAt(secrets, text, k, from, to, e)
  }

  /** Tier 1 replaces the first secret in the list that starts the text. */
  ghost predicate FirstExactEnds(secrets: seq<Bytes>, text: Bytes, n: nat) {
    exists k: nat ::
      ExactAt(secrets, text, k) && n == |secrets[k]| && forall j: nat :: j < k ==> !ExactAt(secrets, text, j)
  }

  /** Tier 2 replaces the first secret in the list that starts the text spread out, up to its last byte. */
  ghost predicate FirstTolerantEnds(secrets: seq<Bytes>, text: Bytes, n: nat) {
    exists k: nat ::
      && TolerantAt(secrets, text, k, n)
      && (forall j: nat, e: nat :: j < k ==> !TolerantAt(secrets, text, j, e))
      && (forall e: nat :: e < n ==> !TolerantAt(secrets, text, k, e))
  }

  /** Tier 3 replaces what the text shows of one secret, up to the last byte in reach that continues it. */
  ghost predicate FragmentEnds(secrets: seq<Bytes>, text: Bytes, k: nat, from: nat, to: nat, n: nat) {
    && FragmentAt(secrets, text, k, from, to, n)
    && (forall e: nat :: e < n ==> !FragmentAt(secrets, text, k, from, to, e))
    && (forall t: nat, e: nat :: FragmentAt(secrets, text, k, from, t, e) ==> t <= to)
  }

  /** Fragment f of secret j comes before fragment offs of secret n. */
  predicate Before(j: nat, f: nat, n: nat, offs: nat) {
    j < n || (j == n && f < offs)
  }

  /** Among equal fragments the last one registered is the one that counts. */
  ghost predicate LastFragmentEnds(secrets: seq<Bytes>, text: Bytes, n: nat) {
    exists k: nat, from: nat, to: nat ::
      && FragmentEnds(secrets, text, k, from, to, n)
      && forall j: nat, f: nat, t: nat, e: nat :: FragmentAt(secrets, text, j, f, t, e) ==> Before(j, f, k, from + 1)
  }

  /** What is replaced at the start of the text, tier by tier; each case leaves one n. */
  ghost predicate Replaces(secrets: seq<Bytes>, text: Bytes, n: nat) {
    if HasExact(secrets, text) then FirstExactEnds(secrets, text, n)
    else if HasTolerant(secrets, text) then FirstTolerantEnds(secrets, text, n)
    else if HasFragment(secrets, text) then LastFragmentEnds(secrets, text, n)
    else n == 0
  }

  // ----- Tier 1 -----

  lemma {:induction false} ExactTier(secrets: seq<Bytes>, text: Bytes, i: nat)
    requires [] !in secrets && i <= |secrets|
    requires forall j: nat :: j < i ==> !ExactAt(secrets, text, j)
    ensures HasExact(secrets, text) <==> FirstExact(secrets, text, i) > 0
    ensures HasExact(secrets, text) ==> FirstExactEnds(secrets, text, FirstExact(secrets, text, i))
    decreases |secrets| - i
  {
    if i < |secrets| {
      if secrets[i] <= text {
        assert ExactAt(secrets, text, i) && secrets[i] in secrets;
      } else {
        ExactTier(secrets, text, i + 1);
      }
    }
  }

  // ----- Tier 2 -----

  /** A text's window shows a projection exactly if some prefix in reach does; the least such end is known. */
  lemma WindowEnd(secrets: seq<Bytes>, text: Bytes, p: Bytes)
    requires text != [] && p != []
    ensures var window := Clip(text, MaxSpan(secrets));
            p <= Strip(window) ==>
              && InReach(secrets, text, EndOf(window, |p|))
              && Strip(text[..EndOf(window, |p|)]) == p
              && forall e: nat :: e < EndOf(window, |p|) ==> Strip(text[..e]) != p
    ensures forall e: nat :: InReach(secrets, text, e) && Strip(text[..e]) == p ==>
              p <= Strip(Clip(text, MaxSpan(secrets)))
  {
    hide Strip, EndOf, MaxSpan;
    var window := Clip(text, MaxSpan(secrets));
    if p <= Strip(window) {
      EndOfIsLeast(window, |p|);
      var end := EndOf(window, |p|);
      assert window[..end] == text[..end];
      forall e: nat | e < end
        ensures Strip(text[..e]) != p
      {
        assert window[..e] == text[..e];
      }
    }
    forall e: nat | InReach(secrets, text, e) && Strip(text[..e]) == p
      ensures p <= Strip(window)
    {
      WindowShows(secrets, text, e);
    }
  }

  lemma TolerantOne(secrets: seq<Bytes>, text: Bytes, k: nat)
    requires text != [] && k < |secrets|
    ensures var n := FlexLen(secrets[k], Clip(text, MaxSpan(secrets)));
            if CanBegin(secrets[k], text[0]) && n > 0
            then TolerantAt(secrets, text, k, n) && forall e: nat :: e < n ==> !TolerantAt(secrets, text, k, e)
            else forall e: nat :: !TolerantAt(secrets, text, k, e)
  {
    hide Strip, MaxSpan, Clip, EndOf;
    var p := Strip(secrets[k]);
    if p != [] {
      WindowEnd(secrets, text, p);
    } else {
      EndOfNothing(Clip(text, MaxSpan(secrets)));
    }
  }

  lemma EndOfNothing(s: Bytes)
    ensures EndOf(s, 0) == 0
  {
  }

  lemma {:induction false} TolerantTier(secrets: seq<Bytes>, text: Bytes, i: nat)
    requires text != [] && i <= |secrets|
    requires forall j: nat, e: nat :: j < i ==> !TolerantAt(secrets, text, j, e)
    ensures var n := FirstFlex(secrets, text, Clip(text, MaxSpan(secrets)), i);
            && (HasTolerant(secrets, text) <==> n > 0)
            && (HasTolerant(secrets, text) ==> FirstTolerantEnds(secrets, text, n))
    decreases |secrets| - i
  {
    hide FlexLen, MaxSpan, Clip, CanBegin, Strip;
    if i < |secrets| {
      TolerantOne(secrets, text, i);
      var window := Clip(text, MaxSpan(secrets));
      if CanBegin(secrets[i], text[0]) && FlexLen(secrets[i], window) > 0 {
        assert TolerantAt(secrets, text, i, FlexLen(secrets[i], window));
      } else {
        TolerantTier(secrets, text, i + 1);
      }
    } else {
      assert forall j: nat, e: nat :: TolerantAt(secrets, text, j, e) ==> j < |secrets|;
    }
  }

  // ----- Tier 3 -----

  predicate KeyAt(secrets: seq<Bytes>, key: Bytes, k: nat, off: nat) {
    k < |secrets| && off < WindowCount(secrets[k]) && Strip(secrets[k])[off..off + 12] == key
  }

  /** The index finds the last fragment among those looked at. */
  lemma {:induction false} LastHitIsLast(secrets: seq<Bytes>, n: nat, offs: nat, key: Bytes) returns (k: nat)
    requires n < |secrets| ==> offs <= WindowCount(secrets[n])
    requires n == |secrets| ==> offs == 0
    requires n <= |secrets|
    ensures match LastHit(secrets, n, offs, key)
            case None => forall j: nat, f: nat :: Before(j, f, n, offs) ==> !KeyAt(secrets, key, j, f)
            case Some(hit) =>
              && KeyAt(secrets, key, k, hit.off) && hit.secret == Strip(secrets[k])
              && forall j: nat, f: nat ::
                   Before(j, f, n, offs) && KeyAt(secrets, key, j, f) ==> Before(j, f, k, hit.off + 1)
    decreases n, offs
  {
    hide Strip, WindowCount, KeyAt;
    k := n;
    if offs > 0 {
      KeyMeans(secrets, key, n, offs - 1);
      if !KeyAt(secrets, key, n, offs - 1) {
        k := LastHitIsLast(secrets, n, offs - 1, key);
      }
    } else if n > 0 {
      KeyInRange(secrets, key, n - 1);
      k := LastHitIsLast(secrets, n - 1, WindowCount(secrets[n - 1]), key);
    }
  }

  lemma KeyMeans(secrets: seq<Bytes>, key: Bytes, k: nat, off: nat)
    requires k < |secrets| && off < WindowCount(secrets[k])
    ensures off + FRAGMENT_LEN <= |Strip(secrets[k])|
    ensures KeyAt(secrets, key, k, off) <==> Strip(secrets[k])[off..off + FRAGMENT_LEN] == key
  {
  }

  lemma KeyInRange(secrets: seq<Bytes>, key: Bytes, k: nat)
    requires k < |secrets|
    ensures forall f: nat :: KeyAt(secrets, key, k, f) ==> f < WindowCount(secrets[k])
  {
  }

  /** Every fragment at the start of a text begins with the text's first twelve projected bytes. */
  lemma FragmentHasKey(secrets: seq<Bytes>, text: Bytes, k: nat, from: nat, to: nat, e: nat)
    requires text != [] && FragmentAt(secrets, text, k, from, to, e)
    ensures var p := Strip(Clip(text, MaxSpan(secrets)));
            |p| >= 12 && KeyAt(secrets, p[..12], k, from)
  {
    hide Strip, MaxSpan, Clip;
    WindowShows(secrets, text, e);
    var p, shown := Strip(Clip(text, MaxSpan(secrets))), Strip(secrets[k])[from..to];
    assert shown <= p;
    assert p[..12] == shown[..12] == Strip(secrets[k])[from..from + 12];
  }

  /** The extension runs to the last byte in reach that continues the fragment's secret. */
  lemma ExtensionEnds(secrets: seq<Bytes>, text: Bytes, k: nat, off: nat)
    requires text != []
    requires var p := Strip(Clip(text, MaxSpan(secrets)));
             |p| >= 12 && KeyAt(secrets, p[..12], k, off)
    ensures var window, s := Clip(text, MaxSpan(secrets)), Strip(secrets[k]);
            var c := Common(Strip(window), s[off..]);
            FragmentEnds(secrets, text, k, off, off + c, EndOf(window, c))
  {
    hide Strip, MaxSpan, Clip, EndOf, Common;
    var window, s := Clip(text, MaxSpan(secrets)), Strip(secrets[k]);
    var p, rest := Strip(window), s[off..];
    var c := Common(p, rest);
    assert rest[..12] == s[off..off + 12];
    CommonAtLeast(p, rest, 12);
    var shown := s[off..off + c];
    assert shown == rest[..c] == p[..c];
    WindowEnd(secrets, text, shown);
    forall t: nat, e: nat | FragmentAt(secrets, text, k, off, t, e)
      ensures t - off <= c
    {
      WindowShows(secrets, text, e);
      assert s[off..t] == rest[..t - off];
      CommonAtLeast(p, rest, t - off);
    }
  }

  lemma FragmentTier(secrets: seq<Bytes>, text: Bytes)
    requires text != [] && !IsFlexGap(text[0])
    ensures var n := FragmentLen(secrets, Clip(text, MaxSpan(secrets)));
            if HasFragment(secrets, text) then LastFragmentEnds(secrets, text, n) else n == 0
  {
    hide Strip, MaxSpan, Clip, EndOf, Common, FragmentAt, KeyAt, LastHit;
    var window := Clip(text, MaxSpan(secrets));
    var p := Strip(window);
    forall k: nat, from: nat, to: nat, e: nat | FragmentAt(secrets, text, k, from, to, e)
      ensures |p| >= 12 && KeyAt(secrets, p[..12], k, from)
    {
      FragmentHasKey(secrets, text, k, from, to, e);
    }
    if |p| >= 12 {
      var k := LastHitIsLast(secrets, |secrets|, 0, p[..12]);
      BeforeTheEnd(secrets, p[..12]);
      if hit :| FragmentOf(secrets, p[..12]) == Some(hit) {
        ExtensionEnds(secrets, text, k, hit.off);
      }
    }
  }

  lemma BeforeTheEnd(secrets: seq<Bytes>, key: Bytes)
    ensures forall j: nat, f: nat :: KeyAt(secrets, key, j, f) ==> Before(j, f, |secrets|, 0)
  {
  }

  // ----- All tiers -----

  /** The matcher replaces at a place exactly what the three tiers say, no less and no more. */
  lemma MatchMeans(secrets: seq<Bytes>, text: Bytes)
    requires [] !in secrets
    ensures Replaces(secrets, text, MatchLen(secrets, text))
  {
    hide FirstExact, FirstFlex, FragmentLen, Clip, MaxSpan, FirstExactEnds, FirstTolerantEnds, LastFragmentEnds;
    ExactTier(secrets, text, 0);
    if text == [] {
      NothingInReach(secrets);
    } else {
      TolerantTier(secrets, text, 0);
      if !IsFlexGap(text[0]) {
        FragmentTier(secrets, text);
      }
    }
  }

  lemma NothingInReach(secrets: seq<Bytes>)
    requires [] !in secrets
    ensures !HasExact(secrets, []) && !HasTolerant(secrets, [])
  {
    forall k: nat | k < |secrets|
      ensures !ExactAt(secrets, [], k)
    {
      assert secrets[k] in secrets;
    }
  }

  // ----- What follows -----

  /** Where only a fragment starts a text, the match runs as far as that secret continues within reach. */
  lemma FragmentsReachFar(secrets: seq<Bytes>, text: Bytes) returns (s: Bytes, a: nat, b: nat)
    requires [] !in secrets && !HasExact(secrets, text) && !HasTolerant(secrets, text)
    requires MatchLen(secrets, text) > 0
    ensures SpansFragment(secrets, text[..MatchLen(secrets, text)], s, a, b)
    ensures forall e: nat :: MatchLen(secrets, text) < e <= Min(|text|, MaxSpan(secrets)) && b < |Strip(s)|
              ==> Strip(text[..e]) != Strip(s)[a..b + 1]
  {
    hide Strip, MaxSpan, MatchLen, HasExact, HasTolerant;
    MatchMeans(secrets, text);
    var n := MatchLen(secrets, text);
    var k: nat, from: nat, to: nat :| FragmentEnds(secrets, text, k, from, to, n);
    s, a, b := secrets[k], from, to;
    forall e: nat | n < e <= Min(|text|, MaxSpan(secrets)) && b < |Strip(s)|
      ensures Strip(text[..e]) != Strip(s)[a..b + 1]
    {
      assert !FragmentAt(secrets, text, k, from, to + 1, e);
    }
  }

  /** The reach is that of the longest secret: twice its length and 32 bytes more. */
  lemma {:induction false} ReachMeans(secrets: seq<Bytes>)
    ensures secrets == [] ==> MaxSpan(secrets) == 0
    ensures secrets != [] ==> exists s :: s in secrets && MaxSpan(secrets) == 2 * |s| + 32
    ensures forall s :: s in secrets ==> 2 * |s| + 32 <= MaxSpan(secrets)
  {
    if secrets != [] {
      var init, last := secrets[..|secrets| - 1], secrets[|secrets| - 1];
      ReachMeans(init);
      assert last in secrets && forall s :: s in init ==> s in secrets;
    }
  }

  /** A secret spread over at most twice its length and 32 bytes is never passed on from its first byte. */
  lemma SpreadIsCovered(secrets: seq<Bytes>, text: Bytes, i: nat, s: Bytes, p: Bytes, e: nat)
    requires [] !in secrets && s in secrets && p != [] && SpreadOver(p, s)
    requires i < |text| && i + e <= |text| && 0 < e <= 2 * |s| + 32
    requires text[i] == p[0] && SpreadOver(p, text[i..i + e])
    ensures !IsLiteral(Tokens(MatcherOf(secrets), text), i)
  {
    hide Strip, MaxSpan, Tokens, MatcherOf, IsLiteral, SpreadOver;
    var rest := text[i..];
    assert rest[..e] == text[i..i + e];
    SpreadMeans(p, s);
    SpreadMeans(p, rest[..e]);
    ReachMeans(secrets);
    assert StartsWithSpread(secrets, rest, s, e);
    if IsLiteral(Tokens(MatcherOf(secrets), text), i) {
      NoLeak(secrets, text, i);
    }
  }

  /** Among secrets that stand there spread out, none is longer than the one that is replaced. */
  lemma LongestSpreadWins(secrets: seq<Bytes>, text: Bytes) returns (k: nat)
    requires LongestFirst(secrets) && [] !in secrets && !HasExact(secrets, text) && HasTolerant(secrets, text)
    ensures TolerantAt(secrets, text, k, MatchLen(secrets, text))
    ensures forall j: nat, e: nat :: TolerantAt(secrets, text, j, e) ==> |secrets[j]| <= |secrets[k]|
  {
    hide TolerantAt, MatchLen, HasExact, HasTolerant;
    MatchMeans(secrets, text);
    var n := MatchLen(secrets, text);
    k :| TolerantAt(secrets, text, k, n) && forall j: nat, e: nat :: j < k ==> !TolerantAt(secrets, text, j, e);
    TolerantInRange(secrets, text);
  }

  lemma TolerantInRange(secrets: seq<Bytes>, text: Bytes)
    ensures forall j: nat, e: nat :: TolerantAt(secrets, text, j, e) ==> j < |secrets|
  {
  }

  // ----- What is shown -----

  /** The text that stands for whatever was matched. */
  const BRACKETED: Bytes := ['[' as int, 'R' as int, 'E' as int, 'D' as int, 'A' as int, 'C' as int, 'T' as int,
    'E' as int, 'D' as int, ']' as int]

  function AsShown(token: Token): Bytes {
    if token.Red? then BRACKETED else [token.b]
  }

  /** Literal bytes are shown as they are, and every replaced span as [REDACTED], whatever it was. */
  lemma {:induction false} ShownMeans(tokens: seq<Token>, more: seq<Token>)
    requires |tokens| == |more|
    requires forall k :: 0 <= k < |tokens| ==> tokens[k] == more[k] || (tokens[k].Red? && more[k].Red?)
    ensures Render(tokens, Shown) == Render(more, Shown)
    ensures tokens != [] ==> Render(tokens, Shown) == AsShown(tokens[0]) + Render(tokens[1..], Shown)
  {
    if tokens != [] {
      PlaceholderIsBracketed();
      hide PLACEHOLDER, BRACKETED;
      ShownMeans(tokens[1..], more[1..]);
    }
  }

  lemma PlaceholderIsBracketed()
    ensures PLACEHOLDER == BRACKETED
  {
  }
}
