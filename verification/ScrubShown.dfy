/** What the matcher for managed secrets looks for, and what it shows in place of it (internal/scrub/matcher.go). */
module ScrubShown {
  import opened ByteStrings
  import opened Scanning
  import opened Needles
  import opened Base64
  import opened Encodings
  import opened EncodingForms
  import opened Scrub

  // ----- Placeholders -----

  /** The text before the alias is [REDACTED: byte for byte. */
  lemma LeadIn()
    ensures Ascii("[REDACTED:") == ['[' as int, 'R' as int, 'E' as int, 'D' as int, 'A' as int, 'C' as int, 'T' as int,
                                    'E' as int, 'D' as int, ':' as int]
    ensures Ascii(":") == [':' as int] && Ascii("]") == [']' as int]
  {
  }

  /**
   A placeholder shows the alias right after [REDACTED: and the short hash right before the final
   bracket, one colon apart.
   */
  lemma PlaceholderShows(s: Secret, o: Outside)
    ensures var text, hash := Placeholder(s, o), o.sha8(s.value);
            && |text| == 10 + |s.alias| + 1 + |hash| + 1
            && OccursAt(Ascii("[REDACTED:"), text, 0)
            && OccursAt(s.alias, text, 10)
            && text[10 + |s.alias|] == ':' as int
            && OccursAt(hash, text, |text| - 1 - |hash|)
            && text[|text| - 1] == ']' as int
  {
    hide Ascii;
    LeadIn();
  }

  /** Nothing of the value but its short hash has any bearing on its placeholder. */
  lemma OnlyTheHashShows(a: Secret, b: Secret, o: Outside, p: Outside)
    requires a.alias == b.alias && o.sha8(a.value) == p.sha8(b.value)
    ensures Placeholder(a, o) == Placeholder(b, p)
  {
  }

  // ----- Redacted texts -----

  ghost predicate SameLabels(a: seq<Secret>, o: Outside, b: seq<Secret>, p: Outside) {
    |a| == |b| && forall i :: 0 <= i < |a| ==> a[i].alias == b[i].alias && o.sha8(a[i].value) == p.sha8(b[i].value)
  }

  /** Both tokens keep one byte, or replace a variant of the same secret in the two lists. */
  ghost predicate SameShape(x: Token, a: seq<Secret>, o: Outside, y: Token, b: seq<Secret>, p: Outside) {
    match (x, y)
    case (Lit(c), Lit(d)) => c == d
    case (Red(v), Red(w)) => exists i: nat :: Owns(a, o, i, v) && Owns(b, p, i, w)
    case _ => false
  }

  ghost predicate SameShapes(xs: seq<Token>, a: seq<Secret>, o: Outside, ys: seq<Token>, b: seq<Secret>, p: Outside) {
    |xs| == |ys| && forall k :: 0 <= k < |xs| ==> SameShape(xs[k], a, o, ys[k], b, p)
  }

  lemma SameShown(x: Token, a: seq<Secret>, o: Outside, y: Token, b: seq<Secret>, p: Outside)
    requires SameLabels(a, o, b, p) && SameShape(x, a, o, y, b, p)
    ensures x.Render(ReplacementIn(DictionaryOf(a, o))) == y.Render(ReplacementIn(DictionaryOf(b, p)))
  {
    hide DictionaryOf, Placeholder, HasVariant;
    if x.Red? {
      var i: nat :| Owns(a, o, i, x.span) && Owns(b, p, i, y.span);
      FirstSecretOwns(a, o, x.span);
      FirstSecretOwns(b, p, y.span);
      OnlyTheHashShows(a[i], b[i], o, p);
    }
  }

  lemma {:induction false} SameRendering(
    xs: seq<Token>, a: seq<Secret>, o: Outside, ys: seq<Token>, b: seq<Secret>, p: Outside)
    requires SameLabels(a, o, b, p) && SameShapes(xs, a, o, ys, b, p)
    ensures Render(xs, ReplacementIn(DictionaryOf(a, o))) == Render(ys, ReplacementIn(DictionaryOf(b, p)))
  {
    hide DictionaryOf, SameLabels, SameShape, Token.Render;
    if xs != [] {
      SameShown(xs[0], a, o, ys[0], b, p);
      SameRendering(xs[1..], a, o, ys[1..], b, p);
    }
  }

  /**
   Redacted text tells nothing of a secret but its alias and its short hash: two texts that differ only
   in which secrets with those labels stand in them are redacted to one and the same text.
   */
  lemma RedactedTextHidesValues(a: seq<Secret>, o: Outside, s: Bytes, b: seq<Secret>, p: Outside, t: Bytes)
    requires SameLabels(a, o, b, p)
    requires SameShapes(Tokens(MatcherOf(DictionaryOf(a, o)), s), a, o, Tokens(MatcherOf(DictionaryOf(b, p)), t), b, p)
    ensures Redacted(DictionaryOf(a, o), s) == Redacted(DictionaryOf(b, p), t)
  {
    hide DictionaryOf, SameLabels, SameShapes, Tokens, MatcherOf, Render, ReplacementIn;
    SameRendering(
      Tokens(MatcherOf(DictionaryOf(a, o)), s), a, o, Tokens(MatcherOf(DictionaryOf(b, p)), t), b, p);
  }

  /** Two secret lists with the same labels and the same needles show every text alike. */
  lemma SameNeedlesShowAlike(a: seq<Secret>, o: Outside, b: seq<Secret>, p: Outside, text: Bytes)
    requires SameLabels(a, o, b, p)
    requires forall needle, i: nat :: Owns(a, o, i, needle) <==> Owns(b, p, i, needle)
    ensures Redacted(DictionaryOf(a, o), text) == Redacted(DictionaryOf(b, p), text)
  {
    hide DictionaryOf, Placeholder, Owns, Redacted;
    var d, e := DictionaryOf(a, o), DictionaryOf(b, p);
    forall n ensures n in d <==> n in e {
      FirstSecretOwns(a, o, n);
      FirstSecretOwns(b, p, n);
    }
    forall n | n in d ensures d[n] == e[n] {
      FirstSecretOwns(a, o, n);
      FirstSecretOwns(b, p, n);
      var i: nat :| Owns(a, o, i, n);
      OwnsInRange(a, o, i, n);
      OnlyTheHashShows(a[i], b[i], o, p);
    }
    assert d == e;
  }

  lemma OwnsInRange(secrets: seq<Secret>, o: Outside, i: nat, needle: Bytes)
    requires Owns(secrets, o, i, needle)
    ensures i < |secrets|
  {
  }

  // ----- Variants -----

  /** The spellings of a value that are looked for, kind by kind. */
  ghost predicate IsVariant(value: Bytes, f: Bytes, o: Outside)
    requires value != []
  {
    || IsBase64(value, f)
    || f == Percent(value, [], true) || f == Percent(value, [], false)
    || (|f| >= 8 && (IsCore(value, f) || f in o.json(value)))
  }

  /** Looked for are the value itself and its spellings, each once. */
  lemma VariantsMean(value: Bytes, o: Outside, f: Bytes)
    requires value != []
    ensures f in VariantsOf(value, o) <==> f == value || (IsVariant(value, f, o) && f != [])
    ensures forall i, j :: 0 <= i < j < |VariantsOf(value, o)| ==> VariantsOf(value, o)[i] != VariantsOf(value, o)[j]
  {
    hide Encode, Percent, Cores, Core, Fresh, IsBase64, IsCore, Base64Forms;
    FreshIsComplete(VariantCandidates(value, o), 1, {value});
    Base64FormsMean(value, f);
    CoresMean(value, f);
  }

  // ----- Which secrets count -----

  /** The secret has 8 bytes or more, and the needle is its value or a spelling of it. */
  ghost predicate Needs(s: Secret, needle: Bytes, o: Outside) {
    |s.value| >= 8 && (needle == s.value || (IsVariant(s.value, needle, o) && needle != []))
  }

  ghost predicate FirstNeeds(secrets: seq<Secret>, i: nat, needle: Bytes, o: Outside) {
    i < |secrets| && Needs(secrets[i], needle, o) && forall j :: 0 <= j < i ==> !Needs(secrets[j], needle, o)
  }

  /** Looked for is exactly what some secret calls for, and shown is the placeholder of the first such secret. */
  lemma NeedlesMean(secrets: seq<Secret>, o: Outside, needle: Bytes)
    ensures needle in DictionaryOf(secrets, o) <==> exists s :: s in secrets && Needs(s, needle, o)
    ensures forall i: nat :: FirstNeeds(secrets, i, needle, o) ==>
              DictionaryOf(secrets, o)[needle] == Placeholder(secrets[i], o)
  {
    hide DictionaryOf, Placeholder, IsVariant, VariantsOf;
    forall s ensures HasVariant(s, o, needle) <==> Needs(s, needle, o) {
      if |s.value| >= 8 {
        VariantsMean(s.value, o, needle);
      }
    }
    FirstSecretOwns(secrets, o, needle);
    NotOwnedAnywhere(secrets, o, needle);
  }

  lemma NotOwnedAnywhere(secrets: seq<Secret>, o: Outside, needle: Bytes)
    ensures (exists i: nat :: Owns(secrets, o, i, needle)) <==> exists s :: s in secrets && HasVariant(s, o, needle)
    ensures forall i: nat :: Owns(secrets, o, i, needle) <==>
              i < |secrets| && HasVariant(secrets[i], o, needle)
              && forall j: nat :: j < i ==> !HasVariant(secrets[j], o, needle)
  {
    hide HasVariant;
    if s :| s in secrets && HasVariant(s, o, needle) {
      if !exists i: nat :: Owns(secrets, o, i, needle) {
        NotOwned(secrets, o, needle, |secrets|);
      }
    }
  }

  /** Secret i is long enough, and the first with its value. */
  predicate Counts(secrets: seq<Secret>, i: nat) {
    i < |secrets| && |secrets[i].value| >= 8 && forall j :: 0 <= j < i ==> secrets[j].value != secrets[i].value
  }

  /** The secrets that count, in order, and how many of the first n are too short. */
  function Counted(secrets: seq<Secret>, n: nat): (r: (seq<Secret>, nat))
    requires n <= |secrets|
  {
    if n == 0 then ([], 0)
    else
      var (used, short) := Counted(secrets, n - 1);
      (used + (if Counts(secrets, n - 1) then [secrets[n - 1]] else []),
       short + (if |secrets[n - 1].value| < 8 then 1 else 0))
  }

  /** A long enough value that one of the first n secrets has. */
  ghost predicate IsSeen(secrets: seq<Secret>, n: nat, v: Bytes)
    requires n <= |secrets|
  {
    |v| >= 8 && exists j :: 0 <= j < n && secrets[j].value == v
  }

  lemma {:induction false} ValuesAreSeen(secrets: seq<Secret>, o: Outside, n: nat, v: Bytes)
    requires n <= |secrets|
    ensures HasValue(Contributors(secrets[..n]), v) <==> IsSeen(secrets, n, v)
  {
    hide Contributors, VariantCount, VariantsOf, HasValue, ShortOnes;
    if n == 0 {
      NothingBuilt(secrets, o);
      NoValueYet(v);
    } else {
      var before, s := Contributors(secrets[..n - 1]), secrets[n - 1];
      ValuesAreSeen(secrets, o, n - 1, v);
      NextContributor(secrets, o, n - 1);
      OneMoreValue(before, s, v);
    }
  }

  lemma NoValueYet(v: Bytes)
    ensures !HasValue([], v)
  {
  }

  lemma CountsWhenUnseen(secrets: seq<Secret>, i: nat)
    requires i < |secrets|
    ensures Counts(secrets, i) <==> |secrets[i].value| >= 8 && !IsSeen(secrets, i, secrets[i].value)
  {
  }

  /** A matcher keeps the first secret of each long enough value, and counts the short ones. */
  lemma {:induction false} ContributorsMean(secrets: seq<Secret>, o: Outside, n: nat)
    requires n <= |secrets|
    ensures Counted(secrets, n) == (Contributors(secrets[..n]), ShortOnes(secrets[..n]))
  {
    hide Contributors, VariantCount, VariantsOf, HasValue, ShortOnes;
    if n == 0 {
      NothingBuilt(secrets, o);
    } else {
      ContributorsMean(secrets, o, n - 1);
      NextContributor(secrets, o, n - 1);
      ValuesAreSeen(secrets, o, n - 1, secrets[n - 1].value);
      CountsWhenUnseen(secrets, n - 1);
      var before := Contributors(secrets[..n - 1]);
      assert before + [] == before;
    }
  }

  lemma OneMoreValue(used: seq<Secret>, s: Secret, v: Bytes)
    ensures HasValue(used + [s], v) <==> HasValue(used, v) || v == s.value
  {
    var more := used + [s];
    assert more[|used|] == s && forall k :: 0 <= k < |used| ==> more[k] == used[k];
    assert s.value == v ==> more[|used|].value == v;
  }
}
