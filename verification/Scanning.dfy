/**
 Left-to-right scanning with replacement, as both the streaming redactor and the trie matcher do
 it: at each position either a match is replaced and skipped, or one byte passes as it is.
 */
module Scanning {
  import opened ByteStrings

  /** How many bytes match at the start of a text; 0 if none. */
  type Matcher = m: Bytes -> nat | forall text: Bytes :: m(text) <= |text| witness ((text: Bytes) => 0)

  /** A byte emitted as it is, or a span of the text replaced as a whole. */
  datatype Token = Lit(b: Byte) | Red(span: Bytes) {
    function Source(): Bytes {
      match this
      case Lit(b) => [b]
      case Red(span) => span
    }

    function Render(repl: Bytes -> Bytes): Bytes {
      match this
      case Lit(b) => [b]
      case Red(span) => repl(span)
    }
  }

  /** One scan of a whole text: the reference semantics. */
  function Tokens(m: Matcher, text: Bytes): seq<Token>
    decreases |text|
  {
    if text == [] then []
    else
      var n := m(text);
      if n > 0 then [Red(text[..n])] + Tokens(m, text[n..])
      else [Lit(text[0])] + Tokens(m, text[1..])
  }

  // ----- What tokens stand for -----

  /** The part of the text that tokens account for. */
  function Source(tokens: seq<Token>): Bytes {
    if tokens == [] then [] else tokens[0].Source() + Source(tokens[1..])
  }

  /** The output, each redacted span replaced by repl of it. */
  function Render(tokens: seq<Token>, repl: Bytes -> Bytes): Bytes {
    if tokens == [] then [] else tokens[0].Render(repl) + Render(tokens[1..], repl)
  }

  /** The number of redacted spans. */
  function Reds(tokens: seq<Token>): nat {
    if tokens == [] then 0 else (if tokens[0].Red? then 1 else 0) + Reds(tokens[1..])
  }

  /** The places of the redacted spans among the tokens. */
  function RedPlaces(tokens: seq<Token>): set<nat> {
    set k: nat | k < |tokens| && tokens[k].Red?
  }

  /** The count of redactions is the number of redacted spans. */
  lemma {:induction false} RedsMean(tokens: seq<Token>)
    ensures Reds(tokens) == |RedPlaces(tokens)|
  {
    hide RedPlaces;
    if tokens == [] {
      assert RedPlaces(tokens) == {} by { NoPlaces(); }
    } else {
      RedsMean(tokens[1..]);
      var shifted := set k | k in RedPlaces(tokens[1..]) :: k + 1;
      ShiftedSize(RedPlaces(tokens[1..]), shifted);
      PlacesShift(tokens, shifted);
    }
  }

  lemma NoPlaces()
    ensures RedPlaces([]) == {}
  {
  }

  lemma PlacesShift(tokens: seq<Token>, shifted: set<nat>)
    requires tokens != [] && shifted == set k | k in RedPlaces(tokens[1..]) :: k + 1
    ensures |RedPlaces(tokens)| == |shifted| + if tokens[0].Red? then 1 else 0
  {
    forall k: nat | k in RedPlaces(tokens) && k > 0 ensures k in shifted {
      assert k - 1 in RedPlaces(tokens[1..]);
    }
    assert RedPlaces(tokens) == shifted + if tokens[0].Red? then {0} else {};
  }

  lemma ShiftedSize(places: set<nat>, shifted: set<nat>)
    requires shifted == set k | k in places :: k + 1
    ensures |shifted| == |places|
  {
    if places != {} {
      var p :| p in places;
      var rest := places - {p};
      var moved := set k | k in rest :: k + 1;
      ShiftedSize(rest, moved);
      forall x ensures x in shifted <==> x in moved || x == p + 1 {
        assert x in shifted && x != p + 1 ==> x - 1 in rest;
        assert x in moved ==> x - 1 in rest;
        assert p in places;
      }
      assert shifted == moved + {p + 1};
    } else {
      assert shifted == {};
    }
  }

  function Lits(bytes: Bytes): (tokens: seq<Token>)
    ensures |tokens| == |bytes|
  {
    seq(|bytes|, i requires 0 <= i < |bytes| => Lit(bytes[i]))
  }

  lemma {:induction false} SourceConcat(a: seq<Token>, b: seq<Token>)
    ensures Source(a + b) == Source(a) + Source(b)
  {
    if a == [] {
      assert a + b == b;
    } else {
      SourceConcat(a[1..], b);
      ConcatSplit(a, b, 1);
      Associate(a[0].Source(), Source(a[1..]), Source(b));
    }
  }

  lemma {:induction false} RenderConcat(a: seq<Token>, b: seq<Token>, repl: Bytes -> Bytes)
    ensures Render(a + b, repl) == Render(a, repl) + Render(b, repl)
  {
    if a == [] {
      assert a + b == b;
    } else {
      RenderConcat(a[1..], b, repl);
      ConcatSplit(a, b, 1);
      Associate(a[0].Render(repl), Render(a[1..], repl), Render(b, repl));
    }
  }

  lemma {:induction false} RedsConcat(a: seq<Token>, b: seq<Token>)
    ensures Reds(a + b) == Reds(a) + Reds(b)
  {
    if a == [] {
      assert a + b == b;
    } else {
      RedsConcat(a[1..], b);
      assert (a + b)[1..] == a[1..] + b;
    }
  }

  lemma {:induction false} LitsMeaning(bytes: Bytes, repl: Bytes -> Bytes)
    ensures Source(Lits(bytes)) == bytes == Render(Lits(bytes), repl)
    ensures Reds(Lits(bytes)) == 0
  {
    if bytes != [] {
      LitsMeaning(bytes[1..], repl);
      assert Lits(bytes)[1..] == Lits(bytes[1..]);
    }
  }

  lemma OneRed(span: Bytes, repl: Bytes -> Bytes)
    ensures Source([Red(span)]) == span && Render([Red(span)], repl) == repl(span) && Reds([Red(span)]) == 1
  {
    var one := [Red(span)];
    assert one[1..] == [];
  }

  // ----- Buffered scanning -----

  /** What a scan that keeps the last hold bytes back emits, and what it leaves in the buffer. */
  function Advance(m: Matcher, buf: Bytes, hold: nat): (r: (seq<Token>, Bytes))
    ensures |r.1| <= hold
    decreases |buf|
  {
    if |buf| <= hold then ([], buf)
    else
      var n := m(buf);
      if n > 0 then
        var (tokens, left) := Advance(m, buf[n..], hold);
        ([Red(buf[..n])] + tokens, left)
      else
        var (tokens, left) := Advance(m, buf[1..], hold);
        ([Lit(buf[0])] + tokens, left)
  }

  /** The matcher decides by the first span bytes. */
  ghost predicate DecidesWithin(m: Matcher, span: nat) {
    forall a: Bytes, b: Bytes :: a != [] && span <= |a| ==> m(a + b) == m(a)
  }

  /** The first token of a nonempty text, and how many bytes it accounts for. */
  function First(m: Matcher, text: Bytes): (r: (Token, nat))
    requires text != []
    ensures 0 < r.1 <= |text| && r.0.Source() == text[..r.1]
  {
    var n := m(text);
    if n > 0 then (Red(text[..n]), n) else (Lit(text[0]), 1)
  }

  lemma TokensStep(m: Matcher, text: Bytes)
    requires text != []
    ensures Tokens(m, text) == [First(m, text).0] + Tokens(m, text[First(m, text).1..])
  {
  }

  lemma AdvanceStep(m: Matcher, buf: Bytes, hold: nat)
    requires |buf| > hold
    ensures Advance(m, buf, hold).0 == [First(m, buf).0] + Advance(m, buf[First(m, buf).1..], hold).0
    ensures Advance(m, buf, hold).1 == Advance(m, buf[First(m, buf).1..], hold).1
  {
  }

  /** What a buffered scan emits, followed by a scan of everything else, is one scan of everything. */
  lemma {:induction false} AdvanceAgrees(m: Matcher, buf: Bytes, hold: nat, more: Bytes)
    requires more == [] || DecidesWithin(m, hold + 1)
    ensures Advance(m, buf, hold).0 + Tokens(m, Advance(m, buf, hold).1 + more) == Tokens(m, buf + more)
    decreases |buf|
  {
    if |buf| > hold {
      assert m(buf + more) == m(buf) by {
        assert more == [] ==> buf + more == buf;
      }
      var (first, step) := First(m, buf);
      AdvanceStep(m, buf, hold);
      TokensStep(m, buf + more);
      ConcatSplit(buf, more, step);
      AdvanceAgrees(m, buf[step..], hold, more);
      Associate([first], Advance(m, buf[step..], hold).0, Tokens(m, Advance(m, buf, hold).1 + more));
    }
  }

  lemma NoLits(buf: Bytes)
    ensures Lits(buf[..0]) == []
  {
  }

  lemma LitsStep(buf: Bytes, k: nat)
    requires 0 < k <= |buf|
    ensures Lits(buf[..k]) == [Lit(buf[0])] + Lits(buf[1..][..k - 1])
  {
  }

  /** Bytes at which nothing matches are emitted as they are. */
  lemma {:induction false} AdvanceLits(m: Matcher, buf: Bytes, hold: nat, k: nat)
    requires k + hold <= |buf|
    requires forall i: nat :: i < k ==> m(buf[i..]) == 0
    ensures Advance(m, buf, hold).0 == Lits(buf[..k]) + Advance(m, buf[k..], hold).0
    ensures Advance(m, buf, hold).1 == Advance(m, buf[k..], hold).1
    decreases k
  {
    hide Advance, Lits;
    NoLits(buf);
    if k == 0 {
      assert buf[0..] == buf;
    } else {
      var tail := buf[1..];
      assert buf[0..] == buf && m(buf[0..]) == 0;
      forall i: nat | i < k - 1
        ensures m(tail[i..]) == 0
      {
        assert tail[i..] == buf[i + 1..] && m(buf[i + 1..]) == 0;
      }
      AdvanceStep(m, buf, hold);
      AdvanceLits(m, tail, hold, k - 1);
      assert tail[k - 1..] == buf[k..];
      LitsStep(buf, k);
      Associate([Lit(buf[0])], Lits(tail[..k - 1]), Advance(m, buf[k..], hold).0);
    }
  }

  /** The tokens and the leftover of writing chunks one after another onto a buffer. */
  function Feed(m: Matcher, buf: Bytes, hold: nat, chunks: seq<Bytes>): (r: (seq<Token>, Bytes))
    decreases |chunks|
  {
    if chunks == [] then ([], buf)
    else
      var (now, left) := Advance(m, buf + chunks[0], hold);
      var (later, end) := Feed(m, left, hold, chunks[1..]);
      (now + later, end)
  }

  /** However a stream is cut into chunks, the scan of it comes out the same. */
  lemma {:induction false} ChunkingIrrelevant(m: Matcher, buf: Bytes, hold: nat, chunks: seq<Bytes>, more: Bytes)
    requires DecidesWithin(m, hold + 1)
    ensures Feed(m, buf, hold, chunks).0 + Tokens(m, Feed(m, buf, hold, chunks).1 + more)
         == Tokens(m, buf + Concat(chunks) + more)
    decreases |chunks|
  {
    if chunks == [] {
      assert buf + Concat(chunks) == buf;
    } else {
      var (now, left) := Advance(m, buf + chunks[0], hold);
      var (later, end) := Feed(m, left, hold, chunks[1..]);
      var tail := Concat(chunks[1..]);
      ChunkingIrrelevant(m, left, hold, chunks[1..], more);
      AdvanceAgrees(m, buf + chunks[0], hold, tail + more);
      Associate(now, later, Tokens(m, end + more));
      Associate(left, tail, more);
      Associate(buf + chunks[0], tail, more);
      Associate(buf, chunks[0], tail);
    }
  }

  // ----- What a scan leaves behind -----

  /** The byte at index i of the source of tokens is emitted as it is. */
  predicate IsLiteral(tokens: seq<Token>, i: nat) {
    tokens != [] &&
    match tokens[0]
    case Lit(_) => i == 0 || IsLiteral(tokens[1..], i - 1)
    case Red(span) => i >= |span| && IsLiteral(tokens[1..], i - |span|)
  }

  /** Token k is a literal byte, and i bytes come before it. */
  predicate LiteralToken(tokens: seq<Token>, k: nat, i: nat) {
    k < |tokens| && tokens[k].Lit? && |Source(tokens[..k])| == i
  }

  /** A byte is emitted as it is exactly when it is a literal token. */
  lemma {:induction false} LiteralMeans(tokens: seq<Token>, i: nat)
    ensures IsLiteral(tokens, i) <==> exists k: nat :: LiteralToken(tokens, k, i)
  {
    hide Source;
    if IsLiteral(tokens, i) {
      SourceOfNone(tokens);
      var n := |tokens[0].Source()|;
      if tokens[0].Lit? && i == 0 {
        assert LiteralToken(tokens, 0, i);
      } else {
        LiteralMeans(tokens[1..], i - n);
        var k: nat :| LiteralToken(tokens[1..], k, i - n);
        SourceStep(tokens, k + 1);
        assert LiteralToken(tokens, k + 1, i);
      }
    }
    if k: nat :| LiteralToken(tokens, k, i) {
      SourceOfNone(tokens);
      if k > 0 {
        SourceStep(tokens, k);
        assert LiteralToken(tokens[1..], k - 1, i - |tokens[0].Source()|);
        LiteralMeans(tokens[1..], i - |tokens[0].Source()|);
      }
    }
  }

  lemma SourceOfNone(tokens: seq<Token>)
    ensures Source(tokens[..0]) == []
  {
  }

  lemma SourceStep(tokens: seq<Token>, k: nat)
    requires 0 < k <= |tokens|
    ensures |Source(tokens[..k])| == |tokens[0].Source()| + |Source(tokens[1..][..k - 1])|
  {
    assert tokens[..k][0] == tokens[0] && tokens[..k][1..] == tokens[1..][..k - 1];
  }

  /** Each byte of the text is in exactly one token, in order. */
  lemma {:induction false} TokensConserve(m: Matcher, text: Bytes)
    ensures Source(Tokens(m, text)) == text
    decreases |text|
  {
    if text != [] {
      var n := m(text);
      TokensConserve(m, if n > 0 then text[n..] else text[1..]);
    }
  }

  /** Nothing matches at a byte that is emitted as it is. */
  lemma {:induction false} LiteralsAreUnmatched(m: Matcher, text: Bytes, i: nat)
    requires IsLiteral(Tokens(m, text), i)
    ensures i < |text| && m(text[i..]) == 0
    decreases |text|
  {
    if text != [] {
      var n := m(text);
      if n > 0 {
        LiteralsAreUnmatched(m, text[n..], i - n);
        assert text[n..][i - n..] == text[i..];
      } else if i > 0 {
        LiteralsAreUnmatched(m, text[1..], i - 1);
        assert text[1..][i - 1..] == text[i..];
      } else {
        assert text[0..] == text;
      }
    }
  }

  lemma TokensOfNothing(m: Matcher, text: Bytes)
    ensures text == [] <==> Tokens(m, text) == []
  {
  }

  /** The matcher finds span at index i of the text. */
  ghost predicate MatchedAt(m: Matcher, text: Bytes, i: nat, span: Bytes) {
    i < |text| && m(text[i..]) > 0 && span == text[i..][..m(text[i..])]
  }

  /** Every redacted span is what the matcher found at some place in the text. */
  lemma {:induction false} RedsAreMatches(m: Matcher, text: Bytes, k: nat) returns (i: nat)
    requires k < |Tokens(m, text)| && Tokens(m, text)[k].Red?
    ensures MatchedAt(m, text, i, Tokens(m, text)[k].span)
    decreases |text|
  {
    hide Tokens;
    TokensOfNothing(m, text);
    var (first, step) := First(m, text);
    TokensStep(m, text);
    if k == 0 {
      assert text[0..] == text;
      return 0;
    }
    var tail := text[step..];
    assert Tokens(m, text)[k] == Tokens(m, tail)[k - 1];
    var j := RedsAreMatches(m, tail, k - 1);
    assert tail[j..] == text[step + j..];
    i := step + j;
  }
}
