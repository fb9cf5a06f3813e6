/** What the streaming redactor guarantees, for every secret list, stream and chunking. */
module RedactTheorems {
  import opened ByteStrings
  import opened Scanning
  import opened RedactSpec
  import opened RedactWriters
  import opened CapWriters
  import opened Options
  import opened Overlaps

  // ----- Chunk invariance -----

  /**
   However a stream is cut into chunks, writing the chunks one by one and then flushing yields one
   scan of whatever was in the buffer, followed by the stream.
   */
  lemma ChunkInvariance(secrets: seq<Bytes>, buf: Bytes, chunks: seq<Bytes>)
    ensures var (tokens, left) := Feed(MatcherOf(secrets), buf, Hold(secrets), chunks);
            tokens + Tokens(MatcherOf(secrets), left) == Tokens(MatcherOf(secrets), buf + Concat(chunks))
  {
    var m := MatcherOf(secrets);
    HoldSuffices(secrets);
    ChunkingIrrelevant(m, buf, Hold(secrets), chunks, []);
    var (tokens, left) := Feed(m, buf, Hold(secrets), chunks);
    assert left + [] == left && buf + Concat(chunks) + [] == buf + Concat(chunks);
  }

  /** What the sink has received when chunks have been written to a new writer and flushed. */
  function Output(secrets: seq<Bytes>, chunks: seq<Bytes>): Bytes {
    var m := MatcherOf(secrets);
    var (tokens, left) := Feed(m, [], Hold(secrets), chunks);
    Render(tokens + Tokens(m, left), Shown)
  }

  /** Two ways to cut one stream cannot be told apart by the sink. */
  lemma SameStreamSameOutput(secrets: seq<Bytes>, a: seq<Bytes>, b: seq<Bytes>)
    requires Concat(a) == Concat(b)
    ensures Output(secrets, a) == Output(secrets, b)
  {
    ChunkInvariance(secrets, [], a);
    ChunkInvariance(secrets, [], b);
  }

  /**
   Copies a stream through a writer and flushes it: the sink receives what one reference scan of
   the stream yields, up to the cap, and the redaction count is the number of spans replaced.
   Starting from a used writer, this also says what becomes of a secret added in mid-stream.
   */
  method CopyThrough(w: Writer, chunks: seq<Bytes>)
    requires w.Valid()
    modifies w
    ensures w.Valid() && w.secrets == old(w.secrets) && w.buf == []
    ensures w.history == old(w.history) + Tokens(MatcherOf(w.secrets), old(w.buf) + Concat(chunks))
    ensures Concat(w.out) == Capped(Render(w.history, Shown), w.maxOut)
    ensures w.redactions == Reds(w.history)
  {
    hide Indexed, MatcherOf, Advance, Tokens;
    ghost var m, hold := MatcherOf(w.secrets), Hold(w.secrets);
    ghost var goal := w.history + Tokens(m, w.buf + Concat(chunks));
    for i := 0 to |chunks|
      invariant w.Valid() && w.secrets == old(w.secrets)
      invariant goal == w.history + Tokens(m, w.buf + Concat(chunks[i..]))
    {
      ghost var rest := Concat(chunks[i + 1..]);
      assert chunks[i..][1..] == chunks[i + 1..];
      Associate(w.buf, chunks[i], rest);
      HoldSuffices(w.secrets);
      AdvanceAgrees(m, w.buf + chunks[i], hold, rest);
      Associate(w.history, Advance(m, w.buf + chunks[i], hold).0,
          Tokens(m, Advance(m, w.buf + chunks[i], hold).1 + rest));
      var _ := w.Write(chunks[i]);
    }
    assert Concat(chunks[|chunks|..]) == [] && w.buf + [] == w.buf;
    w.Flush();
  }

  /**
   The cap downstream: of all that the redactor writes, exactly the first max bytes arrive, and
   the flag says whether there was more.
   */
  method ForwardThroughCap(c: CapWriter, writes: seq<Bytes>)
    requires c.Valid() && c.Exact() && c.offered == []
    requires [] !in writes
    modifies c
    ensures c.sink == Capped(Concat(writes), c.max)
    ensures c.dropped <==> c.max > 0 && |Concat(writes)| > c.max
  {
    assert writes[..0] == [];
    for i := 0 to |writes|
      invariant c.Valid() && c.Exact() && c.offered == Concat(writes[..i])
    {
      assert writes[i] in writes;
      assert writes[..i + 1] == writes[..i] + [writes[i]];
      ConcatSnoc(writes[..i], writes[i]);
      var _ := c.Write(writes[i]);
    }
    assert writes[..|writes|] == writes;
  }

  // ----- No leak -----

  predicate StartsWithSecret(secrets: seq<Bytes>, text: Bytes) {
    exists s :: s in secrets && s <= text
  }

  /** The text starts with the projection of a secret, spread over e bytes by interleaved gaps. */
  ghost predicate StartsWithSpread(secrets: seq<Bytes>, text: Bytes, s: Bytes, e: nat) {
    && s in secrets && Strip(s) != []
    && 0 < e <= |text| && e <= MaxSpan(secrets)
    && text[0] == Strip(s)[0]
    && Strip(text[..e]) == Strip(s)
  }

  /** The text starts with FRAGMENT_LEN projected bytes of a long secret, spread over e bytes. */
  ghost predicate StartsWithFragment(secrets: seq<Bytes>, text: Bytes, s: Bytes, off: nat, e: nat) {
    && s in secrets && HasFragments(s) && off + FRAGMENT_LEN <= |Strip(s)|
    && 0 < e <= |text| && e <= MaxSpan(secrets)
    && !IsFlexGap(text[0])
    && Strip(text[..e]) == Strip(s)[off..off + FRAGMENT_LEN]
  }

  ghost predicate StartsSensitive(secrets: seq<Bytes>, text: Bytes) {
    || StartsWithSecret(secrets, text)
    || (exists s, e: nat :: StartsWithSpread(secrets, text, s, e))
    || (exists s, off: nat, e: nat :: StartsWithFragment(secrets, text, s, off, e))
  }

  lemma {:induction false} ExactIsFound(secrets: seq<Bytes>, text: Bytes, i: nat, k: nat)
    requires i <= k < |secrets| && secrets[k] <= text && secrets[k] != []
    requires [] !in secrets
    ensures FirstExact(secrets, text, i) > 0
    decreases k - i
  {
    if !(secrets[i] <= text) {
      ExactIsFound(secrets, text, i + 1, k);
    } else {
      assert secrets[i] in secrets;
    }
  }

  lemma {:induction false} SpreadIsFound(secrets: seq<Bytes>, text: Bytes, window: Bytes, i: nat, k: nat)
    requires i <= k < |secrets| && text != []
    requires CanBegin(secrets[k], text[0]) && FlexLen(secrets[k], window) > 0
    ensures FirstFlex(secrets, text, window, i) > 0
    decreases k - i
  {
    if !(CanBegin(secrets[i], text[0]) && FlexLen(secrets[i], window) > 0) {
      SpreadIsFound(secrets, text, window, i + 1, k);
    }
  }

  lemma {:induction false} FragmentIsFound(secrets: seq<Bytes>, n: nat, offs: nat, key: Bytes, k: nat, off: nat)
    requires n < |secrets| ==> offs <= WindowCount(secrets[n])
    requires n == |secrets| ==> offs == 0
    requires n <= |secrets|
    requires k < n || (k == n && off < offs)
    requires off < WindowCount(secrets[k]) && key == Strip(secrets[k])[off..off + FRAGMENT_LEN]
    ensures LastHit(secrets, n, offs, key).Some?
    decreases n, offs
  {
    if offs > 0 {
      if !(k == n && off == offs - 1) {
        FragmentIsFound(secrets, n, offs - 1, key, k, off);
      }
    } else {
      FragmentIsFound(secrets, n - 1, WindowCount(secrets[n - 1]), key, k, off);
    }
  }

  /** What stands in the first e bytes of a text stands in its clipped window too. */
  lemma WindowShows(secrets: seq<Bytes>, text: Bytes, e: nat)
    requires e <= |text| && e <= MaxSpan(secrets)
    ensures Strip(text[..e]) <= Strip(Clip(text, MaxSpan(secrets)))
  {
    StripPrefix(text, e, Min(|text|, MaxSpan(secrets)));
  }

  lemma SpreadMatches(secrets: seq<Bytes>, text: Bytes, s: Bytes, e: nat)
    requires StartsWithSpread(secrets, text, s, e)
    ensures MatchLen(secrets, text) > 0
  {
    var window := Clip(text, MaxSpan(secrets));
    WindowShows(secrets, text, e);
    EndOfIsLeast(window, |Strip(s)|);
    var k :| 0 <= k < |secrets| && secrets[k] == s;
    SpreadIsFound(secrets, text, window, 0, k);
  }

  lemma FragmentMatches(secrets: seq<Bytes>, text: Bytes, s: Bytes, off: nat, e: nat)
    requires StartsWithFragment(secrets, text, s, off, e)
    ensures MatchLen(secrets, text) > 0
  {
    hide Strip;
    var window := Clip(text, MaxSpan(secrets));
    WindowShows(secrets, text, e);
    var p := Strip(window);
    var key := p[..FRAGMENT_LEN];
    assert key == Strip(s)[off..off + FRAGMENT_LEN];
    var k :| 0 <= k < |secrets| && secrets[k] == s;
    FragmentIsFound(secrets, |secrets|, 0, key, k, off);
    HitIsFragment(secrets, |secrets|, 0, key);
    var hit := FragmentOf(secrets, key).value;
    var rest := hit.secret[hit.off..];
    assert rest[0] == key[0] == p[0];
    EndOfIsLeast(window, Common(p, rest));
  }

  /** Completeness of the matcher: whatever starts sensitively is matched. */
  lemma SensitiveMatches(secrets: seq<Bytes>, text: Bytes)
    requires [] !in secrets && StartsSensitive(secrets, text)
    ensures MatchLen(secrets, text) > 0
  {
    if s :| s in secrets && s <= text {
      var k :| 0 <= k < |secrets| && secrets[k] == s;
      ExactIsFound(secrets, text, 0, k);
    } else if s, e: nat :| StartsWithSpread(secrets, text, s, e) {
      SpreadMatches(secrets, text, s, e);
    } else {
      var s, off: nat, e: nat :| StartsWithFragment(secrets, text, s, off, e);
      FragmentMatches(secrets, text, s, off, e);
    }
  }

  /** No byte that is emitted as it is starts a secret, a spread-out secret, or a fragment of a long one. */
  lemma NoLeak(secrets: seq<Bytes>, text: Bytes, i: nat)
    requires [] !in secrets && IsLiteral(Tokens(MatcherOf(secrets), text), i)
    ensures i < |text| && !StartsSensitive(secrets, text[i..])
  {
    LiteralsAreUnmatched(MatcherOf(secrets), text, i);
    if StartsSensitive(secrets, text[i..]) {
      SensitiveMatches(secrets, text[i..]);
    }
  }

  /** A stretch of bytes that are all emitted as they are contains no registered secret. */
  lemma LiteralRunsAreClean(secrets: seq<Bytes>, text: Bytes, i: nat, j: nat, s: Bytes)
    requires [] !in secrets && s in secrets && i <= j <= |text|
    requires forall k: nat :: i <= k < j ==> IsLiteral(Tokens(MatcherOf(secrets), text), k)
    ensures !Occurs(s, text[i..j])
  {
    if at: nat :| OccursAt(s, text[i..j], at) {
      var rest := text[i + at..];
      forall x | 0 <= x < |s|
        ensures rest[x] == s[x]
      {
        assert s[x] == text[i..j][at..at + |s|][x] == text[i..j][at + x];
      }
      assert s <= rest && s != [];
      NoLeak(secrets, text, i + at);
    }
  }

  /** What starts sensitively still does with more text after it. */
  lemma SensitiveStarts(secrets: seq<Bytes>, text: Bytes, n: nat)
    requires n <= |text| && StartsSensitive(secrets, text[..n])
    ensures StartsSensitive(secrets, text)
  {
    hide Strip, MaxSpan, HasFragments, IsFlexGap;
    var cut := text[..n];
    if StartsWithSecret(secrets, cut) {
      var s :| s in secrets && s <= cut;
      assert s <= text;
    } else if s, e: nat :| StartsWithSpread(secrets, cut, s, e) {
      assert cut[..e] == text[..e];
      assert StartsWithSpread(secrets, text, s, e);
    } else {
      var s, off: nat, e: nat :| StartsWithFragment(secrets, cut, s, off, e);
      assert cut[..e] == text[..e];
      assert StartsWithFragment(secrets, text, s, off, e);
    }
  }

  /** Nor does it contain a spread-out secret or a fragment of a long one. */
  lemma LiteralRunsAreHarmless(secrets: seq<Bytes>, text: Bytes, i: nat, j: nat, at: nat)
    requires [] !in secrets && i <= at < j <= |text|
    requires forall k: nat :: i <= k < j ==> IsLiteral(Tokens(MatcherOf(secrets), text), k)
    ensures !StartsSensitive(secrets, text[at..j])
  {
    hide StartsSensitive, IsLiteral;
    NoLeak(secrets, text, at);
    assert text[at..j] == text[at..][..j - at];
    if StartsSensitive(secrets, text[at..j]) {
      SensitiveStarts(secrets, text[at..], j - at);
    }
  }

  /** A secret that cannot overlap the placeholder occurs nowhere in the output, not even across placeholders. */
  lemma OutputIsClean(secrets: seq<Bytes>, text: Bytes, s: Bytes)
    requires [] !in secrets && s in secrets && NeverOverlap(s, PLACEHOLDER)
    ensures !Occurs(s, Render(Tokens(MatcherOf(secrets), text), Shown))
  {
    hide NeverOverlap, MatchLen;
    var m := MatcherOf(secrets);
    forall t: Bytes | s <= t ensures m(t) > 0 {
      assert StartsWithSecret(secrets, t);
      SensitiveMatches(secrets, t);
    }
    assert Guarded(m, Shown, s);
    if at: nat :| OccursAt(s, Render(Tokens(m, text), Shown), at) {
      RenderedIsClean(m, Shown, text, s, at);
    }
  }

  /** The same of what the sink has received, for every chunking and cap. */
  lemma SinkIsClean(secrets: seq<Bytes>, chunks: seq<Bytes>, max: int, s: Bytes)
    requires [] !in secrets && s in secrets && NeverOverlap(s, PLACEHOLDER)
    ensures !Occurs(s, Capped(Output(secrets, chunks), max))
  {
    hide NeverOverlap, MatcherOf, Render, Feed;
    ChunkInvariance(secrets, [], chunks);
    assert [] + Concat(chunks) == Concat(chunks);
    var all := Output(secrets, chunks);
    OutputIsClean(secrets, Concat(chunks), s);
    OccursInPrefix(s, all, |Capped(all, max)|);
  }

  lemma OccursInPrefix(s: Bytes, text: Bytes, n: nat)
    requires n <= |text|
    ensures Occurs(s, text[..n]) ==> Occurs(s, text)
  {
    if at: nat :| OccursAt(s, text[..n], at) {
      assert text[..n][at..at + |s|] == text[at..at + |s|];
      assert OccursAt(s, text, at);
    }
  }

  /**
   Mid-stream registration: with the secrets registered now, no byte still in the buffer or yet to
   come is emitted as it is where something sensitive starts, however the rest is chunked.
   */
  lemma LateSecretsAreCovered(secrets: seq<Bytes>, buf: Bytes, chunks: seq<Bytes>, i: nat)
    requires [] !in secrets
    requires var (tokens, left) := Feed(MatcherOf(secrets), buf, Hold(secrets), chunks);
             IsLiteral(tokens + Tokens(MatcherOf(secrets), left), i)
    ensures i < |buf + Concat(chunks)| && !StartsSensitive(secrets, (buf + Concat(chunks))[i..])
  {
    ChunkInvariance(secrets, buf, chunks);
    NoLeak(secrets, buf + Concat(chunks), i);
  }

  // ----- Precision -----

  /** What a redacted span may be. */
  ghost predicate IsSecretSpan(secrets: seq<Bytes>, span: Bytes) {
    || span in secrets
    || (exists s :: s in secrets && Strip(s) != [] && Strip(span) == Strip(s))
    || (exists s, a: nat, b: nat :: SpansFragment(secrets, span, s, a, b))
  }

  ghost predicate SpansFragment(secrets: seq<Bytes>, span: Bytes, s: Bytes, a: nat, b: nat) {
    s in secrets && HasFragments(s) && a + FRAGMENT_LEN <= b <= |Strip(s)| && Strip(span) == Strip(s)[a..b]
  }

  lemma {:induction false} ExactIsSecret(secrets: seq<Bytes>, text: Bytes, i: nat)
    requires i <= |secrets| && FirstExact(secrets, text, i) > 0
    ensures text[..FirstExact(secrets, text, i)] in secrets
    decreases |secrets| - i
  {
    if !(secrets[i] <= text) {
      ExactIsSecret(secrets, text, i + 1);
    } else {
      assert text[..|secrets[i]|] == secrets[i];
    }
  }

  lemma {:induction false} FlexIsSecret(secrets: seq<Bytes>, text: Bytes, window: Bytes, i: nat)
    requires i <= |secrets| && text != [] && FirstFlex(secrets, text, window, i) > 0
    ensures var n := FirstFlex(secrets, text, window, i);
            exists s :: s in secrets && Strip(s) != [] && Strip(window[..n]) == Strip(s)
    decreases |secrets| - i
  {
    if CanBegin(secrets[i], text[0]) && FlexLen(secrets[i], window) > 0 {
      EndOfIsLeast(window, |Strip(secrets[i])|);
      assert secrets[i] in secrets;
    } else {
      FlexIsSecret(secrets, text, window, i + 1);
    }
  }

  lemma FragmentIsSecret(secrets: seq<Bytes>, window: Bytes)
    requires FragmentLen(secrets, window) > 0
    ensures exists s, a: nat, b: nat :: SpansFragment(secrets, window[..FragmentLen(secrets, window)], s, a, b)
  {
    var p := Strip(window);
    var key := p[..FRAGMENT_LEN];
    HitIsFragment(secrets, |secrets|, 0, key);
    var hit := FragmentOf(secrets, key).value;
    var s :| s in secrets && HasFragments(s) && hit.secret == Strip(s);
    var rest := hit.secret[hit.off..];
    var c := Common(p, rest);
    assert rest[..FRAGMENT_LEN] == key;
    CommonAtLeast(p, rest, FRAGMENT_LEN);
    EndOfIsLeast(window, c);
    assert SpansFragment(secrets, window[..FragmentLen(secrets, window)], s, hit.off, hit.off + c);
  }

  /** Whatever the matcher replaces is a secret, a spread-out secret, or a fragment of a long one. */
  lemma MatchesAreSecrets(secrets: seq<Bytes>, text: Bytes)
    requires MatchLen(secrets, text) > 0
    ensures IsSecretSpan(secrets, text[..MatchLen(secrets, text)])
  {
    hide FirstExact, FirstFlex, FragmentLen, Strip;
    var n := MatchLen(secrets, text);
    var window := Clip(text, MaxSpan(secrets));
    if FirstExact(secrets, text, 0) > 0 {
      ExactIsSecret(secrets, text, 0);
    } else if FirstFlex(secrets, text, window, 0) > 0 {
      FlexIsSecret(secrets, text, window, 0);
      assert window[..n] == text[..n];
    } else {
      FragmentIsSecret(secrets, window);
      assert window[..n] == text[..n];
    }
  }

  /** Nothing is lost and nothing else is redacted: tokens account for the text, and spans are secrets. */
  lemma Precision(secrets: seq<Bytes>, text: Bytes, k: nat)
    requires k < |Tokens(MatcherOf(secrets), text)| && Tokens(MatcherOf(secrets), text)[k].Red?
    ensures Source(Tokens(MatcherOf(secrets), text)) == text
    ensures IsSecretSpan(secrets, Tokens(MatcherOf(secrets), text)[k].span)
  {
    var m := MatcherOf(secrets);
    TokensConserve(m, text);
    var i := RedsAreMatches(m, text, k);
    MatchesAreSecrets(secrets, text[i..]);
  }

  lemma {:induction false} FirstExactIsLongest(secrets: seq<Bytes>, text: Bytes, i: nat, k: nat)
    requires LongestFirst(secrets) && i <= k < |secrets| && secrets[k] <= text
    ensures FirstExact(secrets, text, i) >= |secrets[k]|
    decreases k - i
  {
    if !(secrets[i] <= text) {
      FirstExactIsLongest(secrets, text, i + 1, k);
    }
  }

  /** Where secrets stand verbatim, the longest of them is what is replaced. */
  lemma LongestSecretWins(secrets: seq<Bytes>, text: Bytes)
    requires LongestFirst(secrets) && [] !in secrets && StartsWithSecret(secrets, text)
    ensures text[..MatchLen(secrets, text)] in secrets
    ensures forall s :: s in secrets && s <= text ==> |s| <= MatchLen(secrets, text)
  {
    forall s | s in secrets && s <= text
      ensures 0 < |s| <= FirstExact(secrets, text, 0)
    {
      var k :| 0 <= k < |secrets| && secrets[k] == s;
      FirstExactIsLongest(secrets, text, 0, k);
    }
    ExactIsSecret(secrets, text, 0);
  }
}
