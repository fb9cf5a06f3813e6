/** What the documentation of the matcher promises, for the dictionaries that it builds (internal/scrub/matcher.go). */
module ScrubTheorems {
  import opened ByteStrings
  import opened Base64
  import opened Encodings
  import opened Needles
  import opened Scrub

  // ----- Counting needles -----

  /** The needles that a secret contributes. */
  ghost function NeedlesOf(s: Secret, o: Outside): set<Bytes>
    requires s.value != []
  {
    set n | n in VariantsOf(s.value, o)
  }

  /** Two contributing secrets have a variant in common. */
  ghost predicate Share(a: Secret, b: Secret, o: Outside)
    requires a.value != [] && b.value != []
  {
    exists n :: n in VariantsOf(a.value, o) && n in VariantsOf(b.value, o)
  }

  ghost predicate NoneShare(secrets: seq<Secret>, o: Outside)
    requires forall s :: s in secrets ==> |s.value| >= MIN_SECRET_LEN
  {
    forall i, j :: 0 <= i < j < |secrets| ==> !Share(secrets[i], secrets[j], o)
  }

  /** The needles of several secrets. */
  ghost function AllNeedles(secrets: seq<Secret>, o: Outside): set<Bytes>
    requires forall s :: s in secrets ==> |s.value| >= MIN_SECRET_LEN
  {
    if secrets == [] then {}
    else AllNeedles(secrets[..|secrets| - 1], o) + NeedlesOf(secrets[|secrets| - 1], o)
  }

  lemma {:induction false} NeedleOfSome(secrets: seq<Secret>, o: Outside, n: Bytes)
    requires forall s :: s in secrets ==> |s.value| >= MIN_SECRET_LEN
    ensures n in AllNeedles(secrets, o) <==> exists k :: 0 <= k < |secrets| && n in NeedlesOf(secrets[k], o)
  {
    hide NeedlesOf;
    if secrets != [] {
      NeedleOfSome(secrets[..|secrets| - 1], o, n);
    }
  }

  /** The dictionary has exactly the needles of the contributing secrets. */
  lemma {:induction false} DictionaryHasAll(secrets: seq<Secret>, o: Outside)
    ensures DictionaryOf(secrets, o).Keys == AllNeedles(Contributors(secrets), o)
  {
    hide DictionaryOf, Contributors, VariantsOf, Placeholder;
    if secrets == [] {
      NothingBuilt(secrets, o);
      assert secrets[..0] == secrets;
    } else {
      var n := |secrets| - 1;
      assert secrets[..n + 1] == secrets;
      DictionaryHasAll(secrets[..n], o);
      NextSecret(secrets, o, n);
      NextContributor(secrets, o, n);
      var before := Contributors(secrets[..n]);
      assert (before + [secrets[n]])[..|before|] == before;
    }
  }

  lemma DistinctSize(needles: seq<Bytes>)
    requires forall i, j :: 0 <= i < j < |needles| ==> needles[i] != needles[j]
    ensures |set n | n in needles| == |needles|
  {
    if needles != [] {
      var init, last := needles[..|needles| - 1], needles[|needles| - 1];
      DistinctSize(init);
      assert last !in init;
      assert (set n | n in needles) == (set n | n in init) + {last};
    } else {
      assert (set n | n in needles) == {};
    }
  }

  lemma VariantsAreDistinct(s: Secret, o: Outside)
    requires |s.value| >= MIN_SECRET_LEN
    ensures |NeedlesOf(s, o)| == |VariantsOf(s.value, o)|
  {
    hide VariantCandidates, Fresh;
    FreshIsComplete(VariantCandidates(s.value, o), 1, {s.value});
    DistinctSize(VariantsOf(s.value, o));
  }

  lemma UnionSize(a: set<Bytes>, b: set<Bytes>)
    ensures |a + b| <= |a| + |b|
    ensures |a + b| == |a| + |b| <==> a !! b
  {
    assert |a + b| == |a| + |b| - |a * b|;
    if a !! b {
      assert a * b == {};
    } else {
      var x :| x in a && x in b;
      assert x in a * b;
    }
  }

  /** Counting variants one by one counts needles exactly when no two secrets share one. */
  lemma {:induction false} CountIsExact(secrets: seq<Secret>, o: Outside)
    requires forall s :: s in secrets ==> |s.value| >= MIN_SECRET_LEN
    ensures VariantCount(secrets, o) >= |AllNeedles(secrets, o)|
    ensures VariantCount(secrets, o) == |AllNeedles(secrets, o)| <==> NoneShare(secrets, o)
  {
    hide VariantsOf, NeedlesOf, Share;
    if secrets != [] {
      var init, last := secrets[..|secrets| - 1], secrets[|secrets| - 1];
      CountIsExact(init, o);
      VariantsAreDistinct(last, o);
      UnionSize(AllNeedles(init, o), NeedlesOf(last, o));
      LastShares(init, last, o);
      assert secrets == init + [last];
    }
  }

  lemma LastShares(init: seq<Secret>, last: Secret, o: Outside)
    requires forall s :: s in init ==> |s.value| >= MIN_SECRET_LEN
    requires |last.value| >= MIN_SECRET_LEN
    ensures AllNeedles(init, o) !! NeedlesOf(last, o) <==> forall i :: 0 <= i < |init| ==> !Share(init[i], last, o)
    ensures NoneShare(init + [last], o)
        <==> NoneShare(init, o) && forall i :: 0 <= i < |init| ==> !Share(init[i], last, o)
  {
    hide VariantsOf, AllNeedles, NoneShare;
    NoneShareSnoc(init, last, o);
    if n :| n in AllNeedles(init, o) && n in NeedlesOf(last, o) {
      NeedleOfSome(init, o, n);
      var k :| 0 <= k < |init| && n in NeedlesOf(init[k], o);
      assert Share(init[k], last, o);
    }
    forall i | 0 <= i < |init| ensures Share(init[i], last, o) ==> !(AllNeedles(init, o) !! NeedlesOf(last, o)) {
      if Share(init[i], last, o) {
        var n :| n in VariantsOf(init[i].value, o) && n in VariantsOf(last.value, o);
        NeedleOfSome(init, o, n);
        assert n in NeedlesOf(init[i], o) && n in NeedlesOf(last, o);
      }
    }
  }

  lemma NoneShareSnoc(init: seq<Secret>, last: Secret, o: Outside)
    requires forall s :: s in init ==> |s.value| >= MIN_SECRET_LEN
    requires |last.value| >= MIN_SECRET_LEN
    ensures NoneShare(init + [last], o)
        <==> NoneShare(init, o) && forall i :: 0 <= i < |init| ==> !Share(init[i], last, o)
  {
    hide Share;
    var more := init + [last];
    assert more[|init|] == last && forall i :: 0 <= i < |init| ==> more[i] == init[i];
  }

  /** The needle count of a matcher is the number of its distinct needles exactly when no two values share a variant. */
  lemma NeedlesAreDistinct(secrets: seq<Secret>, o: Outside)
    ensures VariantCount(Contributors(secrets), o) >= |DictionaryOf(secrets, o)|
    ensures VariantCount(Contributors(secrets), o) == |DictionaryOf(secrets, o)|
        <==> NoneShare(Contributors(secrets), o)
  {
    hide NoneShare, Contributors, VariantCount, AllNeedles, DictionaryOf;
    DictionaryHasAll(secrets, o);
    CountIsExact(Contributors(secrets), o);
    assert |DictionaryOf(secrets, o)| == |DictionaryOf(secrets, o).Keys|;
  }

  /** A value and its base64 text, both managed, share a needle, which is counted twice. */
  lemma Base64OfAnother(a: Secret, b: Secret, o: Outside)
    requires |a.value| >= MIN_SECRET_LEN && b.value == Encode(a.value, Std, true)
    ensures VariantCount(Contributors([a, b]), o) > |DictionaryOf([a, b], o)|
  {
    hide VariantsOf, Encode, VariantCount, DictionaryOf;
    EncodedLength(a.value, Std, true);
    BothContribute(a, b);
    SharedBase64(a, b, o);
    var used := Contributors([a, b]);
    assert Share(used[0], used[1], o);
    NeedlesAreDistinct([a, b], o);
  }

  lemma BothContribute(a: Secret, b: Secret)
    requires |a.value| >= MIN_SECRET_LEN && |b.value| >= MIN_SECRET_LEN && a.value != b.value
    ensures Contributors([a, b]) == [a, b]
  {
    assert [a, b][..1] == [a] && [a][..0] == [];
    assert Contributors([a]) == [a];
    assert !HasValue([a], b.value);
  }

  lemma SharedBase64(a: Secret, b: Secret, o: Outside)
    requires |a.value| >= MIN_SECRET_LEN && b.value == Encode(a.value, Std, true) && |b.value| > |a.value|
    ensures Share(a, b, o)
  {
    hide Encode, Fresh, Percent, LongEnough, Cores;
    FreshIsComplete(VariantCandidates(a.value, o), 1, {a.value});
    assert Base64Forms(a.value)[0] == b.value;
    assert b.value in VariantCandidates(a.value, o);
    assert b.value in VariantsOf(a.value, o) && b.value in VariantsOf(b.value, o);
  }

  // ----- What needles look like -----

  lemma {:induction false} PercentIsPrintable(s: Bytes, upper: bool)
    ensures Printable(Percent(s, [], upper))
  {
    if s != [] {
      PercentIsPrintable(s[..|s| - 1], upper);
    }
  }

  lemma CoreIsPrintable(value: Bytes, k: nat, a: Alphabet)
    requires value != [] && k < 3
    ensures Printable(Core(value, k, a))
  {
    CoreInRange(value, k, a);
    EncodedIsPrintable(Zeros(k) + value, a, false);
  }

  lemma {:induction false} CoresArePrintable(value: Bytes, n: nat, f: Bytes)
    requires value != [] && n <= 3 && f in Cores(value, n)
    ensures Printable(f)
  {
    hide Core;
    CoreIsPrintable(value, n - 1, Std);
    CoreIsPrintable(value, n - 1, Url);
    if f in Cores(value, n - 1) {
      CoresArePrintable(value, n - 1, f);
    }
  }

  /** A variant is the value, a JSON form of it, or printable text without spaces and brackets. */
  lemma VariantForms(value: Bytes, o: Outside, f: Bytes)
    requires value != [] && f in VariantsOf(value, o)
    ensures f != [] && (f == value || f in o.json(value) || Printable(f))
  {
    hide Encode, Percent, Cores, Fresh, Printable;
    FreshIsComplete(VariantCandidates(value, o), 1, {value});
    EncodedIsPrintable(value, Std, true);
    EncodedIsPrintable(value, Std, false);
    EncodedIsPrintable(value, Url, true);
    EncodedIsPrintable(value, Url, false);
    PercentIsPrintable(value, true);
    PercentIsPrintable(value, false);
    if f in Cores(value, 3) {
      CoresArePrintable(value, 3, f);
    }
  }

  /** Every needle is a variant of a long enough secret. */
  lemma NeedleHasOwner(secrets: seq<Secret>, o: Outside, n: Bytes) returns (i: nat)
    requires n in DictionaryOf(secrets, o)
    ensures Owns(secrets, o, i, n) && DictionaryOf(secrets, o)[n] == Placeholder(secrets[i], o)
  {
    hide DictionaryOf, Placeholder, VariantsOf, HasVariant;
    FirstSecretOwns(secrets, o, n);
    i :| Owns(secrets, o, i, n);
  }

  // ----- Redacting twice -----

  /** Neither a value nor a JSON form of it holds a bracket. */
  predicate BracketFree(value: Bytes, o: Outside) {
    && OPEN !in value && CLOSE !in value
    && forall f :: f in o.json(value) ==> OPEN !in f && CLOSE !in f
  }

  lemma PrintableIsBracketFree(f: Bytes)
    requires Printable(f)
    ensures OPEN !in f && CLOSE !in f
  {
  }

  /** Managed values without brackets give needles without brackets. */
  lemma NeedlesWithoutBrackets(secrets: seq<Secret>, o: Outside)
    requires forall s :: s in secrets && |s.value| >= MIN_SECRET_LEN ==> BracketFree(s.value, o)
    ensures Bracketed(DictionaryOf(secrets, o))
  {
    hide VariantsOf, DictionaryOf, Printable;
    forall n | n in DictionaryOf(secrets, o)
      ensures OPEN !in n && CLOSE !in n && |DictionaryOf(secrets, o)[n]| >= 2
      ensures DictionaryOf(secrets, o)[n][0] == OPEN
      ensures DictionaryOf(secrets, o)[n][|DictionaryOf(secrets, o)[n]| - 1] == CLOSE
    {
      var i := NeedleHasOwner(secrets, o, n);
      VariantForms(secrets[i].value, o, n);
      if Printable(n) {
        PrintableIsBracketFree(n);
      }
    }
  }

  /**
   For managed values without brackets, the documented promise that redacting redacted text changes
   nothing holds, for every text, exactly when no placeholder contains a needle.
   */
  lemma PromiseHoldsWhen(secrets: seq<Secret>, o: Outside)
    requires forall s :: s in secrets && |s.value| >= MIN_SECRET_LEN ==> BracketFree(s.value, o)
    ensures var d := DictionaryOf(secrets, o);
            !FeedsItself(d) <==> forall text :: Redacted(d, Redacted(d, text)) == Redacted(d, text)
  {
    hide FeedsItself, Redacted, DictionaryOf, Bracketed, BracketFree;
    NeedlesWithoutBrackets(secrets, o);
    RedactingTwice(DictionaryOf(secrets, o));
  }

  /** The eight bytes REDACTED, as every placeholder has them. */
  const REDACTED_WORD: Bytes := Ascii("[REDACTED:")[1..9]

  /** The promise fails for the managed value REDACTED: it is found again in its own placeholder. */
  lemma PlaceholderFeedsMatcher(alias: Bytes, o: Outside)
    ensures var s := Secret(alias, REDACTED_WORD);
            var d := DictionaryOf([s], o);
            Redacted(d, s.value) == Placeholder(s, o) && Redactions(d, Redacted(d, s.value)) > 0
    ensures var s := Secret(alias, REDACTED_WORD);
            var d := DictionaryOf([s], o);
            BracketFree(s.value, o) ==> Redacted(d, Redacted(d, s.value)) != Redacted(d, s.value)
  {
    hide Ascii, Redacted, Redactions, Holds, DictionaryOf, VariantsOf, Placeholder, BracketFree, Bracketed, AddsOpens;
    var s := Secret(alias, REDACTED_WORD);
    var d := DictionaryOf([s], o);
    ValueIsNeedle([s], o, 0);
    NeedleAlone(d, s.value);
    WordInPlaceholder(s, o);
    HeldAt(d, Placeholder(s, o), s.value, 1);
    RedactsIffHolds(d, Placeholder(s, o));
    if BracketFree(s.value, o) {
      NeedlesWithoutBrackets([s], o);
      BracketedAddsOpens(d);
      HeldIsChanged(d, Placeholder(s, o));
    }
  }

  lemma BracketedAddsOpens(d: Dictionary)
    requires Bracketed(d)
    ensures AddsOpens(d)
  {
    forall n | n in d ensures OPEN in d[n] {
      assert d[n][0] in d[n];
    }
  }

  /** The first secret owns its own value. */
  lemma ValueIsNeedle(secrets: seq<Secret>, o: Outside, i: nat)
    requires i < |secrets| && |secrets[i].value| >= MIN_SECRET_LEN
    ensures secrets[i].value in DictionaryOf(secrets, o)
    ensures i == 0 ==> DictionaryOf(secrets, o)[secrets[0].value] == Placeholder(secrets[0], o)
  {
    hide DictionaryOf, Placeholder, Fresh, VariantCandidates;
    var s := secrets[i];
    assert VariantsOf(s.value, o)[0] == s.value;
    VariantIsNeedle(secrets, o, s, s.value);
    FirstSecretOwns(secrets, o, s.value);
    assert i == 0 ==> Owns(secrets, o, 0, s.value);
  }

  lemma WordInPlaceholder(s: Secret, o: Outside)
    ensures OccursAt(REDACTED_WORD, Placeholder(s, o), 1)
  {
    hide Ascii;
    var word, rest := Ascii("[REDACTED:"), s.alias + Ascii(":") + o.sha8(s.value) + Ascii("]");
    assert Placeholder(s, o) == word + rest;
    assert (word + rest)[1..9] == word[1..9];
  }

  lemma HeldAt(d: Dictionary, text: Bytes, needle: Bytes, at: nat)
    requires needle in d && needle != [] && OccursAt(needle, text, at)
    ensures Holds(d, text)
  {
  }

  // ----- A value that starts with a bracket -----

  const SPACE: Byte := 32

  function Spaces(n: nat): (s: Bytes)
    ensures |s| == n && forall i :: 0 <= i < n ==> s[i] == SPACE
  {
    seq(n, _ => SPACE)
  }

  /** Eight spaces, and a bracket with seven spaces: two values that JSON leaves as they are. */
  ghost predicate JsonKeeps(o: Outside) {
    && (forall f :: f in o.json(Spaces(8)) ==> f == Spaces(8))
    && (forall f :: f in o.json([CLOSE] + Spaces(7)) ==> f == [CLOSE] + Spaces(7))
  }

  /** The only needle among texts of spaces is the first value. */
  lemma OnlySpaces(secrets: seq<Secret>, o: Outside, k: nat)
    requires JsonKeeps(o) && |secrets| == 2 && secrets[0].value == Spaces(8) && secrets[1].value == [CLOSE] + Spaces(7)
    requires k > 0 && Spaces(k) in DictionaryOf(secrets, o)
    ensures k == 8
  {
    hide DictionaryOf, VariantsOf, Placeholder;
    var i := NeedleHasOwner(secrets, o, Spaces(k));
    VariantForms(secrets[i].value, o, Spaces(k));
    assert Spaces(k)[0] == SPACE && secrets[1].value[0] == CLOSE;
  }

  /**
   The promise also fails for a value that starts with a bracket: it can match the end of a placeholder and what
   follows.
   */
  lemma BracketsFeedMatcher(secrets: seq<Secret>, o: Outside)
    requires JsonKeeps(o) && |secrets| == 2 && secrets[0].value == Spaces(8) && secrets[1].value == [CLOSE] + Spaces(7)
    ensures var d := DictionaryOf(secrets, o);
            var once := Redacted(d, Spaces(15));
            once == Placeholder(secrets[0], o) + Spaces(7) && Redactions(d, once) > 0 && Redacted(d, once) != once
  {
    hide Redacted, Redactions, Holds, DictionaryOf, Placeholder, JsonKeeps, AddsOpens;
    var d := DictionaryOf(secrets, o);
    var shown := Placeholder(secrets[0], o);
    ValueIsNeedle(secrets, o, 0);
    ValueIsNeedle(secrets, o, 1);
    EightSpacesMatch(secrets, o);
    RedactedStep(d, Spaces(15));
    SevenSpacesAreClean(secrets, o);
    assert Spaces(15)[8..] == Spaces(7);
    var once, at := shown + Spaces(7), |shown| - 1;
    assert once[at..at + 8] == [CLOSE] + Spaces(7);
    HeldAt(d, once, secrets[1].value, at);
    RedactsIffHolds(d, once);
    SpacesAddOpens(secrets, o);
    HeldIsChanged(d, once);
  }

  lemma SpacesAddOpens(secrets: seq<Secret>, o: Outside)
    requires JsonKeeps(o) && |secrets| == 2 && secrets[0].value == Spaces(8) && secrets[1].value == [CLOSE] + Spaces(7)
    ensures AddsOpens(DictionaryOf(secrets, o))
  {
    hide DictionaryOf, VariantsOf;
    var d := DictionaryOf(secrets, o);
    forall n | n in d ensures OPEN !in n && OPEN in d[n] {
      var i := NeedleHasOwner(secrets, o, n);
      VariantForms(secrets[i].value, o, n);
      assert d[n][0] in d[n];
    }
  }

  lemma EightSpacesMatch(secrets: seq<Secret>, o: Outside)
    requires JsonKeeps(o) && |secrets| == 2 && secrets[0].value == Spaces(8) && secrets[1].value == [CLOSE] + Spaces(7)
    ensures FirstShown(DictionaryOf(secrets, o), Spaces(15)) == (Placeholder(secrets[0], o), 8)
  {
    hide DictionaryOf, Placeholder, JsonKeeps;
    var d, text := DictionaryOf(secrets, o), Spaces(15);
    ValueIsNeedle(secrets, o, 0);
    var n := LongestUpTo(d, text, 15);
    assert text[..8] == Spaces(8);
    assert n >= 8;
    assert text[..n] == Spaces(n);
    OnlySpaces(secrets, o, n);
  }

  lemma SevenSpacesAreClean(secrets: seq<Secret>, o: Outside)
    requires JsonKeeps(o) && |secrets| == 2 && secrets[0].value == Spaces(8) && secrets[1].value == [CLOSE] + Spaces(7)
    ensures Redacted(DictionaryOf(secrets, o), Spaces(7)) == Spaces(7)
  {
    hide DictionaryOf, JsonKeeps, Redacted;
    var d := DictionaryOf(secrets, o);
    forall w, at: nat | w in d && w != [] ensures !OccursAt(w, Spaces(7), at) {
      if OccursAt(w, Spaces(7), at) {
        assert w == Spaces(|w|);
        OnlySpaces(secrets, o, |w|);
      }
    }
    CleanTextUnchanged(d, Spaces(7));
  }
}
