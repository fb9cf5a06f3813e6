/** Encodings and redactor together: base64 text that carries a secret never shows the start of its core. */
module EndToEnd {
  import opened ByteStrings
  import opened Scanning
  import opened RedactSpec
  import opened RedactTheorems
  import opened Base64
  import opened Encodings
  import opened Registration

  lemma {:induction false} StripPrintable(s: Bytes)
    requires Printable(s)
    ensures Strip(s) == s
  {
    if s != [] {
      StripPrintable(s[..|s| - 1]);
      assert s == s[..|s| - 1] + [s[|s| - 1]];
    }
  }

  /** Where byte at of the projection of a text stands. */
  function PlaceOf(wrapped: Bytes, at: nat): (i: nat)
    requires at < |Strip(wrapped)|
  {
    EndOfIsLeast(wrapped, at + 1);
    EndOf(wrapped, at + 1) - 1
  }

  /** The projected bytes from index at to index at + n, as they stand in a text with gaps. */
  lemma ProjectedSlice(wrapped: Bytes, at: nat, n: nat, first: nat, end: nat)
    requires n > 0 && at + n <= |Strip(wrapped)|
    requires first == PlaceOf(wrapped, at) && end == EndOf(wrapped, at + n)
    ensures first < end <= |wrapped|
    ensures wrapped[first] == Strip(wrapped)[at]
    ensures Strip(wrapped[first..end]) == Strip(wrapped)[at..at + n]
  {
    hide Strip, EndOf;
    var p := Strip(wrapped);
    EndOfIsLeast(wrapped, at + 1);
    EndOfIsLeast(wrapped, at + n);
    EndOfMonotone(wrapped, at + 1, at + n);
    StripSnoc(wrapped, first);
    assert p[..at + 1] == p[..at] + [p[at]];
    StripConcat(wrapped[..first], wrapped[first..end]);
    assert wrapped[..first] + wrapped[first..end] == wrapped[..end];
    assert p[..at + n] == p[..at] + p[at..at + n];
  }

  /** A core that is spread over at most its span cap starts a spread-out secret where its first byte is. */
  lemma CoreStartsSensitive(secrets: seq<Bytes>, core: Bytes, stream: Bytes, at: nat, e: nat)
    requires core in secrets && core != [] && Strip(core) == core
    requires at + e <= |stream| && 0 < e <= FlexSpanCap(|core|)
    requires stream[at] == core[0] && Strip(stream[at..at + e]) == core
    ensures StartsSensitive(secrets, stream[at..])
  {
    var text := stream[at..];
    hide Strip, StartsWithSecret, StartsWithFragment, MaxSpan;
    assert text[..e] == stream[at..at + e];
    assert StartsWithSpread(secrets, text, core, e);
  }

  /** How far the core of v is spread in wrapped text whose projection encodes v after prefix. */
  function CoreSpan(v: Bytes, prefix: Bytes, a: Alphabet, wrapped: Bytes): (span: int)
    requires |v| >= MIN_ENCODABLE_SECRET_LEN
  {
    var core, at := Core(v, |prefix| % 3, a), CoreOffset(|prefix|);
    if at + |core| <= |Strip(wrapped)| then EndOf(wrapped, at + |core|) - PlaceOf(wrapped, at) else 0
  }

  /** The core of a registered value is registered, free of gaps, and in the text of the message. */
  lemma CoreFacts(values: seq<Bytes>, esc: Escapers, v: Bytes, prefix: Bytes, suffix: Bytes, a: Alphabet, padded: bool)
    requires v in values && |v| >= MIN_ENCODABLE_SECRET_LEN
    ensures var core := Core(v, |prefix| % 3, a);
            && core != [] && Strip(core) == core
            && IsRegistered(core, values, esc)
            && OccursAt(core, Encode(prefix + v + suffix, a, padded), CoreOffset(|prefix|))
  {
    var k := |prefix| % 3;
    var core, at, text := Core(v, k, a), CoreOffset(|prefix|), Encode(prefix + v + suffix, a, padded);
    CoreIsAligned(prefix, v, suffix, a, padded);
    CoresOfValues(values, esc, v, k, a);
    EncodedIsPrintable(prefix + v + suffix, a, padded);
    hide Encode, Core, CoreOffset, Strip, IsRegistered;
    assert Printable(text[at..at + |core|]);
    StripPrintable(core);
  }

  lemma CoreIsSensitive(
    values: seq<Bytes>, esc: Escapers, secrets: seq<Bytes>, v: Bytes,
    prefix: Bytes, suffix: Bytes, a: Alphabet, padded: bool, pre: Bytes, wrapped: Bytes, post: Bytes)
    requires v in values && |v| >= MIN_ENCODABLE_SECRET_LEN
    requires forall s :: s in secrets <==> IsRegistered(s, values, esc)
    requires Strip(wrapped) == Encode(prefix + v + suffix, a, padded)
    requires CoreSpan(v, prefix, a, wrapped) <= FlexSpanCap(|Core(v, |prefix| % 3, a)|)
    ensures CoreOffset(|prefix|) < |Strip(wrapped)|
    ensures [] !in secrets
    ensures StartsSensitive(secrets, (pre + wrapped + post)[|pre| + PlaceOf(wrapped, CoreOffset(|prefix|))..])
  {
    hide Encode, Core, CoreOffset, EndOf, Strip, IsRegistered, StartsSensitive;
    CoreFacts(values, esc, v, prefix, suffix, a, padded);
    if [] in secrets {
      NothingShort([], values, esc);
    }
    var core, at := Core(v, |prefix| % 3, a), CoreOffset(|prefix|);
    var first, end := PlaceOf(wrapped, at), EndOf(wrapped, at + |core|);
    ProjectedSlice(wrapped, at, |core|, first, end);
    InTheMiddle(pre, wrapped, post, first, end);
    CoreStartsSensitive(secrets, core, pre + wrapped + post, |pre| + first, end - first);
  }

  lemma InTheMiddle(pre: Bytes, wrapped: Bytes, post: Bytes, first: nat, end: nat)
    requires first < end <= |wrapped|
    ensures (pre + wrapped + post)[|pre| + first] == wrapped[first]
    ensures (pre + wrapped + post)[|pre| + first..|pre| + end] == wrapped[first..end]
  {
  }

  /**
   For every secret of at least 8 bytes that a run registers: if any message that contains it is
   base64-encoded in either alphabet, with or without padding, interleaved with gap bytes so that
   the secret's core stays within its span cap, and written in any chunks amid any other output,
   then the first character of the core is not emitted as it is.
   */
  lemma EncodedSecretsStayHidden(
    values: seq<Bytes>, esc: Escapers, secrets: seq<Bytes>, v: Bytes,
    prefix: Bytes, suffix: Bytes, a: Alphabet, padded: bool,
    pre: Bytes, wrapped: Bytes, post: Bytes, chunks: seq<Bytes>)
    requires v in values && |v| >= MIN_ENCODABLE_SECRET_LEN
    requires forall s :: s in secrets <==> IsRegistered(s, values, esc)
    requires Strip(wrapped) == Encode(prefix + v + suffix, a, padded)
    requires Concat(chunks) == pre + wrapped + post
    requires CoreSpan(v, prefix, a, wrapped) <= FlexSpanCap(|Core(v, |prefix| % 3, a)|)
    ensures CoreOffset(|prefix|) < |Strip(wrapped)|
    ensures var (tokens, left) := Feed(MatcherOf(secrets), [], Hold(secrets), chunks);
            !IsLiteral(tokens + Tokens(MatcherOf(secrets), left), |pre| + PlaceOf(wrapped, CoreOffset(|prefix|)))
  {
    hide IsLiteral, Feed, MatcherOf, StartsSensitive, PlaceOf, Tokens, CoreSpan, Core, CoreOffset, IsRegistered,
        Encode, Strip;
    var stream := pre + wrapped + post;
    ChunkInvariance(secrets, [], chunks);
    assert [] + Concat(chunks) == stream;
    CoreIsSensitive(values, esc, secrets, v, prefix, suffix, a, padded, pre, wrapped, post);
    var i := |pre| + PlaceOf(wrapped, CoreOffset(|prefix|));
    if IsLiteral(Tokens(MatcherOf(secrets), stream), i) {
      NoLeak(secrets, stream, i);
    }
  }
}
