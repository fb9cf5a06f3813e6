/** Replacing known needles: the reference semantics of the trie matcher (internal/scrub/matcher.go). */
module Needles {
  import opened ByteStrings
  import opened Overlaps
  import opened Scanning

  /** A needle maps to the text that replaces it. */
  type Dictionary = map<Bytes, Bytes>

  /** The length of the longest nonempty needle that starts the text, among those of at most n bytes; 0 if none. */
  function LongestUpTo(d: Dictionary, text: Bytes, n: nat): (len: nat)
    requires n <= |text|
    ensures len <= n
    ensures len > 0 ==> text[..len] in d
    ensures forall k: nat :: len < k <= n ==> text[..k] !in d
  {
    if n == 0 then 0 else if text[..n] in d then n else LongestUpTo(d, text, n - 1)
  }

  /** Leftmost-longest matching of a dictionary's needles. */
  function MatcherOf(d: Dictionary): Matcher {
    (text: Bytes) => LongestUpTo(d, text, |text|)
  }

  function ReplacementIn(d: Dictionary): Bytes -> Bytes {
    (needle: Bytes) => if needle in d then d[needle] else []
  }

  function Redacted(d: Dictionary, text: Bytes): Bytes {
    Render(Tokens(MatcherOf(d), text), ReplacementIn(d))
  }

  function Redactions(d: Dictionary, text: Bytes): nat {
    Reds(Tokens(MatcherOf(d), text))
  }

  /** The needles that a scan can find: the empty one never is. */
  ghost predicate Holds(d: Dictionary, text: Bytes) {
    exists needle :: needle in d && needle != [] && Occurs(needle, text)
  }

  lemma NeedleMatches(d: Dictionary, text: Bytes, needle: Bytes)
    requires needle in d && needle != [] && needle <= text
    ensures MatcherOf(d)(text) >= |needle|
  {
    assert text[..|needle|] == needle;
  }

  /** No position whose byte is kept starts a needle. */
  lemma NoNeedleSurvives(d: Dictionary, text: Bytes, i: nat, needle: Bytes)
    requires IsLiteral(Tokens(MatcherOf(d), text), i)
    requires needle in d && needle != []
    ensures i < |text| && !(needle <= text[i..])
  {
    LiteralsAreUnmatched(MatcherOf(d), text, i);
    if needle <= text[i..] {
      NeedleMatches(d, text[i..], needle);
    }
  }

  /** Only needles are replaced. */
  lemma OnlyNeedlesAreReplaced(d: Dictionary, text: Bytes, k: nat)
    requires k < |Tokens(MatcherOf(d), text)| && Tokens(MatcherOf(d), text)[k].Red?
    ensures Source(Tokens(MatcherOf(d), text)) == text
    ensures Tokens(MatcherOf(d), text)[k].span in d && Tokens(MatcherOf(d), text)[k].span != []
  {
    TokensConserve(MatcherOf(d), text);
    var i := RedsAreMatches(MatcherOf(d), text, k);
  }

  lemma {:induction false} NoRedsMeansLiteral(tokens: seq<Token>, i: nat)
    requires Reds(tokens) == 0 && i < |Source(tokens)|
    ensures IsLiteral(tokens, i)
  {
    if i > 0 {
      NoRedsMeansLiteral(tokens[1..], i - 1);
    }
  }

  lemma {:induction false} SomeRed(tokens: seq<Token>) returns (k: nat)
    requires Reds(tokens) > 0
    ensures k < |tokens| && tokens[k].Red?
  {
    if tokens[0].Red? {
      return 0;
    }
    k := SomeRed(tokens[1..]);
    k := k + 1;
  }

  lemma RedactedImpliesHeld(d: Dictionary, text: Bytes)
    requires Redactions(d, text) > 0
    ensures Holds(d, text)
  {
    hide Tokens, MatcherOf, Source, Reds;
    var k := SomeRed(Tokens(MatcherOf(d), text));
    OnlyNeedlesAreReplaced(d, text, k);
    var i := RedsAreMatches(MatcherOf(d), text, k);
    var needle := Tokens(MatcherOf(d), text)[k].span;
    assert text[i..i + |needle|] == needle;
    assert OccursAt(needle, text, i);
  }

  lemma HeldImpliesRedacted(d: Dictionary, text: Bytes)
    requires Holds(d, text)
    ensures Redactions(d, text) > 0
  {
    var needle :| needle in d && needle != [] && Occurs(needle, text);
    var at: nat :| OccursAt(needle, text, at);
    assert text[at..][..|needle|] == needle;
    TokensConserve(MatcherOf(d), text);
    hide Tokens, MatcherOf, Source, Reds;
    if Redactions(d, text) == 0 {
      NoRedsMeansLiteral(Tokens(MatcherOf(d), text), at);
      NoNeedleSurvives(d, text, at, needle);
    }
  }

  /** Something is replaced exactly when the text contains a needle. */
  lemma RedactsIffHolds(d: Dictionary, text: Bytes)
    ensures Redactions(d, text) > 0 <==> Holds(d, text)
  {
    hide Redactions, Holds;
    if Redactions(d, text) > 0 {
      RedactedImpliesHeld(d, text);
    }
    if Holds(d, text) {
      HeldImpliesRedacted(d, text);
    }
  }

  /** A text without needles comes back unchanged. */
  lemma CleanTextUnchanged(d: Dictionary, text: Bytes)
    requires !Holds(d, text)
    ensures Redacted(d, text) == text && Redactions(d, text) == 0
  {
    RedactsIffHolds(d, text);
    TokensConserve(MatcherOf(d), text);
    NoRedsRenderSource(Tokens(MatcherOf(d), text), ReplacementIn(d));
  }

  /** Nothing is replaced in an empty text, or by an empty dictionary. */
  lemma NothingToReplace(d: Dictionary, text: Bytes)
    requires d == map[] || text == []
    ensures Redacted(d, text) == text && Redactions(d, text) == 0
  {
    forall needle, at: nat | needle in d && needle != []
      ensures !OccursAt(needle, text, at)
    {
    }
    CleanTextUnchanged(d, text);
  }

  lemma {:induction false} NoRedsRenderSource(tokens: seq<Token>, repl: Bytes -> Bytes)
    requires Reds(tokens) == 0
    ensures Render(tokens, repl) == Source(tokens)
  {
    if tokens != [] {
      NoRedsRenderSource(tokens[1..], repl);
    }
  }

  // ----- Redacting twice -----

  const OPEN: Byte := 91
  const CLOSE: Byte := 93

  /** No needle can overlap a replacement, in whole or in part. */
  ghost predicate Apart(d: Dictionary) {
    && (forall needle :: needle in d ==> d[needle] != [])
    && forall w, needle :: w in d && w != [] && needle in d && needle != [] ==> NeverOverlap(w, d[needle])
  }

  /** Replacements are bracketed, and needles contain no brackets: placeholders cannot be cut into. */
  ghost predicate Bracketed(d: Dictionary) {
    forall needle :: needle in d ==>
      && OPEN !in needle && CLOSE !in needle
      && |d[needle]| >= 2 && d[needle][0] == OPEN && d[needle][|d[needle]| - 1] == CLOSE
  }

  /** Some replacement contains a needle. */
  ghost predicate FeedsItself(d: Dictionary) {
    exists needle :: needle in d && needle != [] && Holds(d, d[needle])
  }

  /** What the output shows for the first token of a text, and how much of the text that is. */
  function FirstShown(d: Dictionary, text: Bytes): (r: (Bytes, nat))
    requires text != []
    ensures 0 < r.1 <= |text|
  {
    var n := LongestUpTo(d, text, |text|);
    if n > 0 then (d[text[..n]], n) else ([text[0]], 1)
  }

  lemma RedactedStep(d: Dictionary, text: Bytes)
    requires text != []
    ensures Redacted(d, text) == FirstShown(d, text).0 + Redacted(d, text[FirstShown(d, text).1..])
  {
    TokensStep(MatcherOf(d), text);
    var first := First(MatcherOf(d), text);
    assert first.0.Render(ReplacementIn(d)) == FirstShown(d, text).0 && first.1 == FirstShown(d, text).1;
  }

  lemma RedactionsStep(d: Dictionary, text: Bytes)
    requires text != []
    ensures Redactions(d, text) ==
        (if LongestUpTo(d, text, |text|) > 0 then 1 else 0) + Redactions(d, text[FirstShown(d, text).1..])
  {
    TokensStep(MatcherOf(d), text);
  }

  /** One step of redacting a text from index i on, after out has been written and count spans replaced. */
  lemma RedactingStep(d: Dictionary, s: Bytes, i: nat, out: Bytes, count: nat)
    requires i < |s|
    ensures var (shown, step) := FirstShown(d, s[i..]);
            && i + step <= |s|
            && out + Redacted(d, s[i..]) == (out + shown) + Redacted(d, s[i + step..])
            && count + Redactions(d, s[i..])
            == (count + if LongestUpTo(d, s[i..], |s| - i) > 0 then 1 else 0) + Redactions(d, s[i + step..])
  {
    var (shown, step) := FirstShown(d, s[i..]);
    RedactedStep(d, s[i..]);
    RedactionsStep(d, s[i..]);
    assert s[i..][step..] == s[i + step..];
    Associate(out, shown, Redacted(d, s[i + step..]));
  }

  /** Once no longer beginning of the text is a needle, looking further finds nothing. */
  lemma {:induction false} LongestStops(d: Dictionary, text: Bytes, a: nat, b: nat)
    requires a <= b <= |text|
    requires forall k: nat :: a < k <= b ==> text[..k] !in d
    ensures LongestUpTo(d, text, b) == LongestUpTo(d, text, a)
    decreases b
  {
    if a < b {
      LongestStops(d, text, a, b - 1);
    }
  }

  /** Redacted text contains no needle, if none overlaps a replacement. */
  lemma RedactedIsClean(d: Dictionary, text: Bytes, w: Bytes, at: nat)
    requires Apart(d) && w in d && w != []
    ensures !OccursAt(w, Redacted(d, text), at)
  {
    hide Tokens, Render;
    var m, repl := MatcherOf(d), ReplacementIn(d);
    forall t: Bytes | w <= t ensures m(t) > 0 {
      NeedleMatches(d, t, w);
    }
    forall t: Bytes | m(t) > 0 ensures NeverOverlap(w, repl(t[..m(t)])) {
      assert t[..m(t)] in d;
    }
    RenderedIsClean(m, repl, text, w, at);
  }

  /** With brackets around replacements and none in needles, a needle overlaps a replacement only inside it. */
  lemma BracketsKeepApart(d: Dictionary)
    requires Bracketed(d)
    ensures Apart(d) <==> !FeedsItself(d)
  {
    if FeedsItself(d) {
      var needle :| needle in d && needle != [] && Holds(d, d[needle]);
      var w :| w in d && w != [] && Occurs(w, d[needle]);
      var at: nat :| OccursAt(w, d[needle], at);
      assert d[needle] + [] == d[needle];
      OverlapAgrees(w, d[needle], [], at);
    } else {
      forall w, needle | w in d && w != [] && needle in d && needle != []
        ensures NeverOverlap(w, d[needle])
      {
        OverlapsInside(d, w, needle);
      }
    }
  }

  lemma OverlapsInside(d: Dictionary, w: Bytes, needle: Bytes)
    requires Bracketed(d) && !FeedsItself(d) && w in d && w != [] && needle in d && needle != []
    ensures NeverOverlap(w, d[needle])
  {
    var r := d[needle];
    forall shift | -|w| < shift < |r| ensures !Agrees(w, r, shift) {
      if shift < 0 {
        assert w[-shift] in w && w[-shift] != r[0];
      } else if shift + |w| >= |r| {
        assert w[|r| - 1 - shift] in w && w[|r| - 1 - shift] != r[|r| - 1];
      } else {
        AgreesInside(w, r, shift);
        assert !Holds(d, r);
      }
    }
  }

  lemma AgreesInside(w: Bytes, r: Bytes, shift: nat)
    requires shift + |w| <= |r|
    ensures Agrees(w, r, shift) ==> OccursAt(w, r, shift)
  {
  }

  /** A needle alone is replaced as a whole, if it is the longest of itself. */
  lemma NeedleAlone(d: Dictionary, needle: Bytes)
    requires needle in d && needle != []
    ensures Redacted(d, needle) == d[needle]
  {
    var m, repl := MatcherOf(d), ReplacementIn(d);
    assert needle[..|needle|] == needle;
    NeedleMatches(d, needle, needle);
    assert First(m, needle) == (Red(needle), |needle|);
    TokensStep(m, needle);
    assert needle[|needle|..] == [];
    OneRed(needle, repl);
  }

  /**
   Redacting redacted text changes nothing, for every text, when no needle can overlap a replacement;
   and when a replacement contains a needle there is a text for which it does.
   */
  lemma RedactingApart(d: Dictionary)
    ensures Apart(d) ==> forall text :: Redactions(d, Redacted(d, text)) == 0
    ensures Apart(d) ==> forall text :: Redacted(d, Redacted(d, text)) == Redacted(d, text)
    ensures FeedsItself(d) ==> exists text :: Redactions(d, Redacted(d, text)) > 0
  {
    if FeedsItself(d) {
      var needle :| needle in d && needle != [] && Holds(d, d[needle]);
      NeedleAlone(d, needle);
      RedactsIffHolds(d, Redacted(d, needle));
    }
    if Apart(d) {
      forall text
        ensures Redactions(d, Redacted(d, text)) == 0 && Redacted(d, Redacted(d, text)) == Redacted(d, text)
      {
        forall w, at: nat | w in d && w != []
          ensures !OccursAt(w, Redacted(d, text), at)
        {
          RedactedIsClean(d, text, w, at);
        }
        CleanTextUnchanged(d, Redacted(d, text));
      }
    }
  }

  // ----- Counting brackets -----

  /** How often the opening bracket occurs. */
  function Opens(text: Bytes): nat {
    if text == [] then 0 else (if text[0] == OPEN then 1 else 0) + Opens(text[1..])
  }

  lemma {:induction false} OpensConcat(a: Bytes, b: Bytes)
    ensures Opens(a + b) == Opens(a) + Opens(b)
  {
    if a == [] {
      assert a + b == b;
    } else {
      OpensConcat(a[1..], b);
      assert (a + b)[1..] == a[1..] + b;
    }
  }

  lemma {:induction false} NoOpens(text: Bytes)
    ensures Opens(text) == 0 <==> OPEN !in text
  {
    if text != [] {
      NoOpens(text[1..]);
      assert forall c :: c in text <==> c == text[0] || c in text[1..];
    }
  }

  /** Replacing a needle only ever adds opening brackets. */
  ghost predicate AddsOpens(d: Dictionary) {
    forall needle :: needle in d ==> OPEN !in needle && OPEN in d[needle]
  }

  /** Every replacement leaves one more opening bracket. */
  lemma {:induction false} OpensGrow(d: Dictionary, text: Bytes)
    requires AddsOpens(d)
    ensures Opens(Redacted(d, text)) >= Opens(text) + Redactions(d, text)
    decreases |text|
  {
    hide Opens, Redacted, Redactions, FirstShown, AddsOpens, LongestUpTo;
    if text == [] {
      NothingToReplace(d, text);
    } else {
      var (shown, step) := FirstShown(d, text);
      RedactedStep(d, text);
      RedactionsStep(d, text);
      OpensOfFirst(d, text);
      OpensGrow(d, text[step..]);
      OpensConcat(shown, Redacted(d, text[step..]));
      OpensConcat(text[..step], text[step..]);
      assert text == text[..step] + text[step..];
    }
  }

  lemma OpensOfFirst(d: Dictionary, text: Bytes)
    requires AddsOpens(d) && text != []
    ensures var (shown, step) := FirstShown(d, text);
            Opens(shown) >= Opens(text[..step]) + if LongestUpTo(d, text, |text|) > 0 then 1 else 0
  {
    var n := LongestUpTo(d, text, |text|);
    if n > 0 {
      NoOpens(text[..n]);
      NoOpens(d[text[..n]]);
    } else {
      assert text[..1] == [text[0]];
    }
  }

  /** A text that still holds a needle is changed by redacting it, if that adds brackets. */
  lemma HeldIsChanged(d: Dictionary, text: Bytes)
    requires AddsOpens(d)
    ensures Redacted(d, text) != text <==> Holds(d, text)
  {
    hide Redacted, Redactions, AddsOpens, Holds;
    OpensGrow(d, text);
    RedactsIffHolds(d, text);
    if !Holds(d, text) {
      CleanTextUnchanged(d, text);
    }
  }

  /**
   For placeholders and needles without brackets, redacting redacted text changes nothing, for every
   text, exactly when no replacement contains a needle.
   */
  lemma RedactingTwice(d: Dictionary)
    requires Bracketed(d)
    ensures !FeedsItself(d) <==> forall text :: Redactions(d, Redacted(d, text)) == 0
    ensures !FeedsItself(d) <==> forall text :: Redacted(d, Redacted(d, text)) == Redacted(d, text)
  {
    hide Redacted, Redactions, Apart, FeedsItself, Holds;
    RedactingApart(d);
    BracketsKeepApart(d);
    if FeedsItself(d) {
      var text :| Redactions(d, Redacted(d, text)) > 0;
      RedactsIffHolds(d, Redacted(d, text));
      HeldIsChanged(d, Redacted(d, text));
    }
  }
}
