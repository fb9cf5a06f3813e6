/**
 The reference semantics of the streaming redactor (internal/redact/redact.go): what one scan of
 the whole stream, with neither buffer nor indexes, makes of it.
 */
module RedactSpec {
  import opened ByteStrings
  import opened Scanning
  import opened Options

  // ----- Gap bytes and projections -----

  const FRAGMENT_LEN: nat := 12
  const FRAGMENT_MIN_SECRET_LEN: nat := 24
  const FRAGMENT_MAX_SECRET_LEN: nat := 65536

  const PLACEHOLDER: Bytes := Ascii("[REDACTED]")

  /** ASCII whitespace, control bytes and DEL are ignorable between the bytes of a secret. */
  predicate IsFlexGap(b: Byte) {
    b <= 0x20 || b == 0x7F
  }

  function FlexSpanCap(secretLen: nat): nat {
    2 * secretLen + 32
  }

  /** The projection of s: its bytes without the gap bytes. */
  function Strip(s: Bytes): (p: Bytes)
    ensures |p| <= |s|
  {
    if s == [] then []
    else
      var last := s[|s| - 1];
      Strip(s[..|s| - 1]) + (if IsFlexGap(last) then [] else [last])
  }

  lemma {:induction false} StripConcat(a: Bytes, b: Bytes)
    ensures Strip(a + b) == Strip(a) + Strip(b)
  {
    if b == [] {
      assert a + b == a;
    } else {
      var init := b[..|b| - 1];
      StripConcat(a, init);
      assert (a + b)[..|a + b| - 1] == a + init;
    }
  }

  lemma StripPrefix(s: Bytes, i: nat, j: nat)
    requires i <= j <= |s|
    ensures Strip(s[..i]) <= Strip(s[..j])
  {
    StripConcat(s[..i], s[i..j]);
    assert s[..i] + s[i..j] == s[..j];
  }

  lemma StripSnoc(s: Bytes, i: nat)
    requires i < |s|
    ensures Strip(s[..i + 1]) == Strip(s[..i]) + (if IsFlexGap(s[i]) then [] else [s[i]])
  {
    assert s[..i + 1][..i] == s[..i];
  }

  /** The least end of a prefix of s whose projection has k bytes. */
  function EndOf(s: Bytes, k: nat): (e: nat)
    requires k <= |Strip(s)|
    ensures e <= |s|
    decreases |s|
  {
    if k == 0 then 0
    else if k <= |Strip(s[..|s| - 1])| then EndOf(s[..|s| - 1], k)
    else |s|
  }

  lemma {:induction false} EndOfIsLeast(s: Bytes, k: nat)
    requires k <= |Strip(s)|
    ensures Strip(s[..EndOf(s, k)]) == Strip(s)[..k]
    ensures forall d: nat :: d < EndOf(s, k) ==> |Strip(s[..d])| < k
    ensures k > 0 ==> EndOf(s, k) > 0 && !IsFlexGap(s[EndOf(s, k) - 1])
    decreases |s|
  {
    if k == 0 {
    } else {
      var init := s[..|s| - 1];
      if k <= |Strip(init)| {
        EndOfIsLeast(init, k);
        assert init[..EndOf(init, k)] == s[..EndOf(s, k)];
        forall d: nat | d < EndOf(s, k)
          ensures |Strip(s[..d])| < k
        {
          assert init[..d] == s[..d];
        }
      } else {
        assert s[..|s|] == s;
        forall d: nat | d < |s|
          ensures |Strip(s[..d])| < k
        {
          StripPrefix(s, d, |s| - 1);
        }
      }
    }
  }

  lemma EndOfMonotone(s: Bytes, j: nat, k: nat)
    requires j <= k <= |Strip(s)|
    ensures EndOf(s, j) <= EndOf(s, k)
  {
    EndOfIsLeast(s, j);
    EndOfIsLeast(s, k);
  }

  /** An end of a prefix with k projected bytes that stops right after one of them is the least one. */
  lemma EndOfUnique(s: Bytes, k: nat, e: nat)
    requires e <= |s|
    requires |Strip(s[..e])| == k
    requires e == 0 || !IsFlexGap(s[e - 1])
    ensures k <= |Strip(s)|
    ensures EndOf(s, k) == e
  {
    StripPrefix(s, e, |s|);
    assert s[..|s|] == s;
    EndOfIsLeast(s, k);
    var least := EndOf(s, k);
    if e < least {
    } else if least < e {
      StripSnoc(s, e - 1);
      StripPrefix(s, least, e - 1);
    }
  }

  // ----- What a match at the start of a text consumes -----

  /** The part of the text a gap-tolerant match may look at. */
  function Clip(text: Bytes, maxSpan: nat): (window: Bytes)
  {
    text[..Min(|text|, maxSpan)]
  }

  /** The span over which the longest registered secret may be spread. */
  function MaxSpan(secrets: seq<Bytes>): (span: nat)
    ensures forall s :: s in secrets ==> FlexSpanCap(|s|) <= span
  {
    if secrets == [] then 0
    else
      assert forall s :: s in secrets ==> s == secrets[|secrets| - 1] || s in secrets[..|secrets| - 1];
      Max(MaxSpan(secrets[..|secrets| - 1]), FlexSpanCap(|secrets[|secrets| - 1]|))
  }

  /** Tier 1: the length of the first secret, from index i on, that starts the text; 0 if none. */
  function FirstExact(secrets: seq<Bytes>, text: Bytes, i: nat): (n: nat)
    requires i <= |secrets|
    ensures n <= |text|
    decreases |secrets| - i
  {
    if i == |secrets| then 0
    else if secrets[i] <= text then |secrets[i]|
    else FirstExact(secrets, text, i + 1)
  }

  /** A gap-tolerant match may begin at the secret's own first byte or at its first projected byte. */
  predicate CanBegin(secret: Bytes, b: Byte) {
    (secret != [] && secret[0] == b) || (Strip(secret) != [] && Strip(secret)[0] == b)
  }

  function FlexLen(secret: Bytes, window: Bytes): (n: nat)
    ensures n <= |window|
  {
    if Strip(secret) <= Strip(window) then EndOf(window, |Strip(secret)|) else 0
  }

  /** Tier 2: the span of the first secret, from index i on, whose projection starts the projected window. */
  function FirstFlex(secrets: seq<Bytes>, text: Bytes, window: Bytes, i: nat): (n: nat)
    requires i <= |secrets|
    requires text != []
    ensures n <= |window|
    decreases |secrets| - i
  {
    if i == |secrets| then 0
    else if CanBegin(secrets[i], text[0]) && FlexLen(secrets[i], window) > 0 then FlexLen(secrets[i], window)
    else FirstFlex(secrets, text, window, i + 1)
  }

  /** Only long secrets have their fragments matched. */
  predicate HasFragments(secret: Bytes) {
    FRAGMENT_MIN_SECRET_LEN <= |Strip(secret)| <= FRAGMENT_MAX_SECRET_LEN
  }

  function WindowCount(secret: Bytes): nat {
    if HasFragments(secret) then |Strip(secret)| - FRAGMENT_LEN + 1 else 0
  }

  /** A fragment's place: the projection of its secret, and its offset there. */
  datatype FragHit = FragHit(secret: Bytes, off: nat)

  /**
   The last fragment equal to key among all fragments of the first n secrets and the first
   offs fragments of the secret after them.
   */
  function LastHit(secrets: seq<Bytes>, n: nat, offs: nat, key: Bytes): (hit: Option<FragHit>)
    requires n < |secrets| ==> offs <= WindowCount(secrets[n])
    requires n == |secrets| ==> offs == 0
    requires n <= |secrets|
    ensures hit.Some? ==> hit.value.off + FRAGMENT_LEN <= |hit.value.secret|
    decreases n, offs
  {
    if offs > 0 then
      var p := Strip(secrets[n]);
      if p[offs - 1..offs - 1 + FRAGMENT_LEN] == key then Some(FragHit(p, offs - 1))
      else LastHit(secrets, n, offs - 1, key)
    else if n > 0 then LastHit(secrets, n - 1, WindowCount(secrets[n - 1]), key)
    else None
  }

  function FragmentOf(secrets: seq<Bytes>, key: Bytes): (hit: Option<FragHit>) {
    LastHit(secrets, |secrets|, 0, key)
  }

  /** The length of the longest common prefix. */
  function Common(a: Bytes, b: Bytes): (n: nat)
    ensures n <= |a| && n <= |b|
    ensures a[..n] == b[..n]
    ensures n < |a| && n < |b| ==> a[n] != b[n]
  {
    if a != [] && b != [] && a[0] == b[0] then
      var n := 1 + Common(a[1..], b[1..]);
      assert a[..n] == [a[0]] + a[1..][..n - 1];
      assert b[..n] == [b[0]] + b[1..][..n - 1];
      n
    else 0
  }

  lemma CommonUnique(a: Bytes, b: Bytes, n: nat)
    requires n <= |a| && n <= |b|
    requires a[..n] == b[..n]
    requires n < |a| && n < |b| ==> a[n] != b[n]
    ensures Common(a, b) == n
  {
    var c := Common(a, b);
    assert forall k: nat :: k < n ==> a[k] == a[..n][k] == b[..n][k] == b[k];
    assert forall k: nat :: k < c ==> a[k] == a[..c][k] == b[..c][k] == b[k];
  }

  lemma {:induction false} CommonAtLeast(a: Bytes, b: Bytes, n: nat)
    requires n <= |a| && n <= |b| && a[..n] == b[..n]
    ensures Common(a, b) >= n
  {
    if n > 0 {
      assert a[0] == a[..n][0] == b[..n][0] == b[0];
      assert a[1..][..n - 1] == a[..n][1..] && b[1..][..n - 1] == b[..n][1..];
      CommonAtLeast(a[1..], b[1..], n - 1);
    }
  }

  /** Tier 3: a fragment of a long secret, extended as far as that secret continues. */
  function FragmentLen(secrets: seq<Bytes>, window: Bytes): (n: nat)
    ensures n <= |window|
  {
    var p := Strip(window);
    if |p| < FRAGMENT_LEN then 0
    else
      match FragmentOf(secrets, p[..FRAGMENT_LEN])
      case None => 0
      case Some(hit) => EndOf(window, Common(p, hit.secret[hit.off..]))
  }

  /** How many bytes of the text the scanner replaces at its start; 0 if none. */
  function MatchLen(secrets: seq<Bytes>, text: Bytes): (n: nat)
    ensures n <= |text|
  {
    if text == [] then 0
    else
      var exact := FirstExact(secrets, text, 0);
      if exact > 0 then exact
      else
        var window := Clip(text, MaxSpan(secrets));
        var flex := FirstFlex(secrets, text, window, 0);
        if flex > 0 then flex
        else if IsFlexGap(text[0]) then 0
        else FragmentLen(secrets, window)
  }

  // ----- The scan as a whole -----

  /** The matcher for a list of secrets. */
  function MatcherOf(secrets: seq<Bytes>): Matcher {
    (text: Bytes) => MatchLen(secrets, text)
  }

  /** What the output shows for a redacted span. */
  function Shown(span: Bytes): Bytes {
    PLACEHOLDER
  }

  /** How many bytes the scanner keeps back until the end of the stream is known. */
  function Hold(secrets: seq<Bytes>): nat {
    Max(MaxSpan(secrets) - 1, 0)
  }

  // ----- Matching is local -----

  lemma {:induction false} FirstExactLocal(secrets: seq<Bytes>, a: Bytes, b: Bytes, i: nat)
    requires i <= |secrets|
    requires MaxSpan(secrets) <= |a|
    ensures FirstExact(secrets, a + b, i) == FirstExact(secrets, a, i)
    decreases |secrets| - i
  {
    if i < |secrets| {
      assert secrets[i] in secrets && FlexSpanCap(|secrets[i]|) <= |a|;
      assert (a + b)[..|secrets[i]|] == a[..|secrets[i]|];
      FirstExactLocal(secrets, a, b, i + 1);
    }
  }

  lemma {:induction false} FirstFlexLocal(secrets: seq<Bytes>, a: Bytes, b: Bytes, window: Bytes, i: nat)
    requires i <= |secrets| && a != [] && b != []
    requires a[0] == b[0]
    ensures FirstFlex(secrets, a, window, i) == FirstFlex(secrets, b, window, i)
    decreases |secrets| - i
  {
    if i < |secrets| {
      FirstFlexLocal(secrets, a, b, window, i + 1);
    }
  }

  /** A match is decided by the first MaxSpan bytes: bytes that have not arrived yet cannot change it. */
  lemma MatchLocal(secrets: seq<Bytes>, a: Bytes, b: Bytes)
    requires a != [] && MaxSpan(secrets) <= |a|
    ensures MatchLen(secrets, a + b) == MatchLen(secrets, a)
  {
    FirstExactLocal(secrets, a, b, 0);
    var window := Clip(a, MaxSpan(secrets));
    assert Clip(a + b, MaxSpan(secrets)) == window;
    FirstFlexLocal(secrets, a + b, a, window, 0);
  }

  lemma HoldSuffices(secrets: seq<Bytes>)
    ensures DecidesWithin(MatcherOf(secrets), Hold(secrets) + 1)
  {
    forall a: Bytes, b: Bytes | a != [] && Hold(secrets) + 1 <= |a|
      ensures MatcherOf(secrets)(a + b) == MatcherOf(secrets)(a)
    {
      MatchLocal(secrets, a, b);
    }
  }
}
