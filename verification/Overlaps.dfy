/** Texts that cannot arise where replaced spans and passed-on bytes meet. */
module Overlaps {
  import opened ByteStrings
  import opened Scanning

  /** Text w, put at index shift of r or before it, agrees with r wherever they overlap. */
  predicate Agrees(w: Bytes, r: Bytes, shift: int) {
    forall i :: 0 <= i < |w| && 0 <= i + shift < |r| ==> w[i] == r[i + shift]
  }

  /** Text w cannot overlap r, in whole or in part. */
  ghost predicate NeverOverlap(w: Bytes, r: Bytes) {
    r != [] && forall shift :: -|w| < shift < |r| ==> !Agrees(w, r, shift)
  }

  /** The matcher finds w where it stands, and no replacement can overlap w. */
  ghost predicate Guarded(m: Matcher, repl: Bytes -> Bytes, w: Bytes) {
    && w != []
    && (forall text: Bytes :: w <= text ==> m(text) > 0)
    && (forall text: Bytes :: m(text) > 0 ==> NeverOverlap(w, repl(text[..m(text)])))
  }

  /** What the output shows for the first token of a text. */
  function FirstRendered(m: Matcher, repl: Bytes -> Bytes, text: Bytes): Bytes
    requires text != []
  {
    First(m, text).0.Render(repl)
  }

  function Rendered(m: Matcher, repl: Bytes -> Bytes, text: Bytes): Bytes {
    Render(Tokens(m, text), repl)
  }

  lemma RenderedStep(m: Matcher, repl: Bytes -> Bytes, text: Bytes)
    requires text != []
    ensures Rendered(m, repl, text) == FirstRendered(m, repl, text) + Rendered(m, repl, text[First(m, text).1..])
  {
    TokensStep(m, text);
  }

  lemma NothingRendered(m: Matcher, repl: Bytes -> Bytes)
    ensures Rendered(m, repl, []) == []
  {
  }

  lemma StartAgrees(w: Bytes, k: int, r: Bytes, rest: Bytes)
    requires 0 <= k <= |w|
    ensures w[k..] <= r + rest ==> Agrees(w, r, -k)
  {
    if w[k..] <= r + rest {
      forall i | 0 <= i < |w| && 0 <= i - k < |r| ensures w[i] == r[i - k] {
        assert w[i] == w[k..][i - k] == (r + rest)[i - k];
      }
    }
  }

  lemma OverlapAgrees(w: Bytes, shown: Bytes, rest: Bytes, at: nat)
    requires at < |shown|
    ensures OccursAt(w, shown + rest, at) ==> Agrees(w, shown, at)
  {
    if OccursAt(w, shown + rest, at) {
      forall i | 0 <= i < |w| && i + at < |shown| ensures w[i] == shown[i + at] {
        assert w[i] == (shown + rest)[at..at + |w|][i];
      }
    }
  }

  lemma OccursLater(w: Bytes, a: Bytes, b: Bytes, at: nat)
    requires at >= |a| && OccursAt(w, a + b, at)
    ensures OccursAt(w, b, at - |a|)
  {
    assert b[at - |a|..at - |a| + |w|] == (a + b)[at..at + |w|];
  }

  lemma PrefixHead(w: Bytes, b: Byte, rest: Bytes)
    requires w != [] && w <= [b] + rest
    ensures w[0] == b && w[1..] <= rest
  {
    assert w[0] == ([b] + rest)[0];
    assert w[1..] == ([b] + rest)[1..|w|] == rest[..|w| - 1];
  }

  lemma PrefixCons(w: Bytes, text: Bytes)
    requires w != [] && text != [] && w[0] == text[0] && w[1..] <= text[1..]
    ensures w <= text
  {
    assert w == [w[0]] + w[1..] && text == [text[0]] + text[1..];
  }

  /** Where a replacement comes first, the output starts with no part of w. */
  lemma NothingStarts(m: Matcher, repl: Bytes -> Bytes, text: Bytes, w: Bytes, k: int, rest: Bytes)
    requires Guarded(m, repl, w) && 0 <= k < |w| && text != [] && m(text) > 0
    ensures FirstRendered(m, repl, text) != [] && !(w[k..] <= FirstRendered(m, repl, text) + rest)
  {
    var r := repl(text[..m(text)]);
    assert NeverOverlap(w, r);
    StartAgrees(w, k, r, rest);
  }

  /** What the rest of w could match at the start of the output was already there in the input. */
  lemma {:induction false} LiteralPrefix(m: Matcher, repl: Bytes -> Bytes, text: Bytes, w: Bytes, k: int)
    requires Guarded(m, repl, w) && 0 <= k <= |w| && w[k..] <= Rendered(m, repl, text)
    ensures w[k..] <= text
    decreases |text|
  {
    hide Guarded, Rendered;
    if k < |w| && text == [] {
      NothingRendered(m, repl);
    } else if k < |w| {
      RenderedStep(m, repl, text);
      var rest := Rendered(m, repl, text[First(m, text).1..]);
      assert m(text) == 0 by {
        if m(text) > 0 {
          NothingStarts(m, repl, text, w, k, rest);
        }
      }
      PrefixHead(w[k..], text[0], rest);
      assert w[k..][1..] == w[k + 1..];
      LiteralPrefix(m, repl, text[1..], w, k + 1);
      PrefixCons(w[k..], text);
    }
  }

  /** A text that the matcher finds, and that no replacement can overlap, occurs nowhere in the output. */
  lemma {:induction false} RenderedIsClean(m: Matcher, repl: Bytes -> Bytes, text: Bytes, w: Bytes, at: nat)
    requires Guarded(m, repl, w)
    ensures !OccursAt(w, Rendered(m, repl, text), at)
    decreases |text|
  {
    hide Guarded, Rendered;
    if text == [] {
      NothingRendered(m, repl);
      GuardedIsNotEmpty(m, repl, w);
    } else {
      RenderedStep(m, repl, text);
      var shown, rest := FirstRendered(m, repl, text), Rendered(m, repl, text[First(m, text).1..]);
      if at >= |shown| {
        RenderedIsClean(m, repl, text[First(m, text).1..], w, at - |shown|);
        if OccursAt(w, shown + rest, at) {
          OccursLater(w, shown, rest, at);
        }
      } else if m(text) > 0 {
        NotInReplacement(m, repl, text, w, rest, at);
      } else {
        NotAtLiteral(m, repl, text, w);
      }
    }
  }

  lemma GuardedIsNotEmpty(m: Matcher, repl: Bytes -> Bytes, w: Bytes)
    requires Guarded(m, repl, w)
    ensures w != []
  {
  }

  lemma NotInReplacement(m: Matcher, repl: Bytes -> Bytes, text: Bytes, w: Bytes, rest: Bytes, at: nat)
    requires Guarded(m, repl, w) && text != [] && m(text) > 0 && at < |FirstRendered(m, repl, text)|
    ensures !OccursAt(w, FirstRendered(m, repl, text) + rest, at)
  {
    var r := repl(text[..m(text)]);
    assert NeverOverlap(w, r);
    OverlapAgrees(w, r, rest, at);
  }

  lemma NotAtLiteral(m: Matcher, repl: Bytes -> Bytes, text: Bytes, w: Bytes)
    requires Guarded(m, repl, w) && text != [] && m(text) == 0
    ensures !OccursAt(w, Rendered(m, repl, text), 0)
  {
    if OccursAt(w, Rendered(m, repl, text), 0) {
      assert w[0..] == w;
      LiteralPrefix(m, repl, text, w, 0);
      assert false;
    }
  }
}
