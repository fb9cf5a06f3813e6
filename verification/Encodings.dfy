/** The encoded forms of a secret that are registered beside it (internal/redact/encodings.go). */
module Encodings {
  import opened ByteStrings
  import opened RedactSpec
  import opened Base64

  const NEWLINE: Byte := 10
  const PERCENT: Byte := 37

  /** Escapers of the standard library and JSON escaping, which are not part of this model. */
  datatype Escapers = Escapers(query: Bytes -> Bytes, path: Bytes -> Bytes, json: Bytes -> seq<Bytes>)

  // ----- Cores -----

  /** The cores for the first n byte alignments, in both alphabets. */
  function Cores(secret: Bytes, n: nat): seq<Bytes>
    requires secret != [] && n <= 3
  {
    if n == 0 then [] else Cores(secret, n - 1) + [Core(secret, n - 1, Std), Core(secret, n - 1, Url)]
  }

  /** The core of the secret for every byte alignment, whatever the alphabet, is among the results. */
  method Base64Cores(secret: Bytes) returns (out: seq<Bytes>)
    requires secret != []
    ensures out == Cores(secret, 3)
  {
    out := [];
    for k := 0 to 3
      invariant out == Cores(secret, k)
    {
      hide Encode;
      var padded := Zeros(k) + secret;
      var start, end := (8 * k + 5) / 6, 8 * (k + |secret|) / 6;
      CoreInRange(secret, k, Std);
      CoreInRange(secret, k, Url);
      var std, url := Encode(padded, Std, false)[start..end], Encode(padded, Url, false)[start..end];
      assert std == Core(secret, k, Std) && url == Core(secret, k, Url);
      out := out + [std, url];
    }
  }

  lemma {:induction false} CoresHasCore(secret: Bytes, n: nat, k: nat, a: Alphabet)
    requires secret != [] && k < n <= 3
    ensures Core(secret, k, a) in Cores(secret, n)
  {
    hide Core;
    if k < n - 1 {
      CoresHasCore(secret, n - 1, k, a);
    }
  }

  // ----- Hexadecimal -----

  function HexDigit(v: int, upper: bool): (c: Byte)
    requires 0 <= v < 16
    ensures HexValue(c) == v
  {
    if v < 10 then 48 + v else if upper then 55 + v else 87 + v
  }

  /** The value of a hex digit in either case; -1 if c is none. */
  function HexValue(c: Byte): (v: int)
    ensures -1 <= v < 16
  {
    if 48 <= c <= 57 then c - 48
    else if 65 <= c <= 70 then c - 55
    else if 97 <= c <= 102 then c - 87
    else -1
  }

  function Hex(s: Bytes, upper: bool): Bytes {
    if s == [] then [] else [HexDigit(s[0] / 16, upper), HexDigit(s[0] % 16, upper)] + Hex(s[1..], upper)
  }

  // ----- Percent encoding -----

  predicate IsUnreserved(c: Byte) {
    97 <= c <= 122 || 65 <= c <= 90 || 48 <= c <= 57 || c == 45 || c == 95 || c == 46 || c == 126
  }

  function PercentOf(c: Byte, safe: Bytes, upper: bool): (text: Bytes) {
    if IsUnreserved(c) || c in safe then [c] else [PERCENT, HexDigit(c / 16, upper), HexDigit(c % 16, upper)]
  }

  /** Escapes every byte outside the unreserved set and the extra safe bytes. */
  function Percent(s: Bytes, safe: Bytes, upper: bool): Bytes {
    if s == [] then [] else Percent(s[..|s| - 1], safe, upper) + PercentOf(s[|s| - 1], safe, upper)
  }

  method PercentEncode(s: Bytes, safe: Bytes, upper: bool) returns (text: Bytes)
    ensures text == Percent(s, safe, upper)
  {
    text := [];
    for i := 0 to |s|
      invariant text == Percent(s[..i], safe, upper)
    {
      assert s[..i + 1][..i] == s[..i];
      if IsUnreserved(s[i]) || s[i] in safe {
        text := text + [s[i]];
        continue;
      }
      text := text + [PERCENT];
      text := text + [HexDigit(s[i] / 16, upper)];
      text := text + [HexDigit(s[i] % 16, upper)];
    }
    assert s[..|s|] == s;
  }

  predicate IsEscape(t: Bytes) {
    |t| >= 3 && t[0] == PERCENT && HexValue(t[1]) >= 0 && HexValue(t[2]) >= 0
  }

  /** Reads %XX escapes back, in either case; anything else stands for itself. */
  function Unescape(t: Bytes): Bytes {
    if t == [] then []
    else if IsEscape(t) then [16 * HexValue(t[1]) + HexValue(t[2])] + Unescape(t[3..])
    else [t[0]] + Unescape(t[1..])
  }

  /** Every percent sign starts an escape. */
  predicate WellEscaped(t: Bytes) {
    t == [] || (if t[0] == PERCENT then IsEscape(t) && WellEscaped(t[3..]) else WellEscaped(t[1..]))
  }

  lemma {:induction false} UnescapeConcat(a: Bytes, b: Bytes)
    requires WellEscaped(a)
    ensures Unescape(a + b) == Unescape(a) + Unescape(b)
    ensures WellEscaped(b) ==> WellEscaped(a + b)
    decreases |a|
  {
    if a == [] {
      assert a + b == b;
    } else {
      hide Unescape, WellEscaped;
      var n := if a[0] == PERCENT then 3 else 1;
      UnescapeStep(a, n);
      UnescapeConcat(a[n..], b);
      ConcatSplit(a, b, n);
      assert n == 3 ==> (a + b)[1] == a[1] && (a + b)[2] == a[2];
      UnescapeStep(a + b, n);
      Associate(UnescapedFirst(a), Unescape(a[n..]), Unescape(b));
    }
  }

  /** The bytes that the first step of unescaping yields. */
  function UnescapedFirst(t: Bytes): Bytes
    requires t != []
  {
    if IsEscape(t) then [16 * HexValue(t[1]) + HexValue(t[2])] else [t[0]]
  }

  lemma UnescapeStep(t: Bytes, n: nat)
    requires t != [] && n == (if t[0] == PERCENT then 3 else 1)
    ensures WellEscaped(t) <==> (n == 3 ==> IsEscape(t)) && n <= |t| && WellEscaped(t[n..])
    ensures (n == 3 ==> IsEscape(t)) ==> Unescape(t) == UnescapedFirst(t) + Unescape(t[n..])
  {
  }

  lemma PercentOfDecodes(c: Byte, safe: Bytes, upper: bool)
    requires PERCENT !in safe
    ensures WellEscaped(PercentOf(c, safe, upper)) && Unescape(PercentOf(c, safe, upper)) == [c]
  {
    var t := PercentOf(c, safe, upper);
    if |t| == 1 {
      assert t[1..] == [];
    } else {
      assert t[3..] == [];
    }
  }

  /** Percent encoding loses nothing: unescaping gives the secret back. */
  lemma {:induction false} PercentRoundTrip(s: Bytes, safe: Bytes, upper: bool)
    requires PERCENT !in safe
    ensures WellEscaped(Percent(s, safe, upper))
    ensures Unescape(Percent(s, safe, upper)) == s
  {
    if s != [] {
      var init, last := s[..|s| - 1], s[|s| - 1];
      PercentRoundTrip(init, safe, upper);
      PercentOfDecodes(last, safe, upper);
      UnescapeConcat(Percent(init, safe, upper), PercentOf(last, safe, upper));
      assert s == init + [last];
    }
  }

  function LowerHexDigit(c: Byte): (l: Byte)
    ensures HexValue(l) == HexValue(c)
  {
    if 65 <= c <= 70 then c + 32 else c
  }

  /** The text with the two bytes after each percent sign lowercased, left to right. */
  function Lowered(t: Bytes): (l: Bytes)
    ensures |l| == |t|
  {
    if |t| < 3 then t
    else if t[0] == PERCENT then [t[0], LowerHexDigit(t[1]), LowerHexDigit(t[2])] + Lowered(t[3..])
    else [t[0]] + Lowered(t[1..])
  }

  /** The bytes that one step of lowercasing settles. */
  function LoweredFirst(t: Bytes): (l: Bytes)
    requires |t| >= 3
    ensures |l| == 1 || |l| == 3
  {
    if t[0] == PERCENT then [t[0], LowerHexDigit(t[1]), LowerHexDigit(t[2])] else [t[0]]
  }

  lemma LoweredStep(done: Bytes, t: Bytes)
    requires |t| >= 3
    ensures done + Lowered(t) == (done + LoweredFirst(t)) + Lowered(t[|LoweredFirst(t)|..])
  {
    Associate(done, LoweredFirst(t), Lowered(t[|LoweredFirst(t)|..]));
  }

  /** Lowercases escapes in place. */
  method LowerPctEscapes(out: array<Byte>)
    modifies out
    ensures out[..] == Lowered(old(out[..]))
  {
    ghost var was, done := out[..], [];
    var i := 0;
    assert out[0..] == was && [] + Lowered(was) == Lowered(was);
    while i + 2 < out.Length
      invariant i <= out.Length
      invariant out[..i] == done && out[i..] == was[i..]
      invariant done + Lowered(was[i..]) == Lowered(was)
    {
      hide Lowered, LowerHexDigit;
      ghost var t := out[i..];
      assert t[0] == out[i] && t[1] == out[i + 1] && t[2] == out[i + 2];
      LoweredStep(done, t);
      done := done + LoweredFirst(t);
      if out[i] == PERCENT {
        out[i + 1] := LowerHexDigit(out[i + 1]);
        out[i + 2] := LowerHexDigit(out[i + 2]);
        assert out[..i + 3] == out[..i] + [out[i], out[i + 1], out[i + 2]];
        i := i + 2;
      }
      i := i + 1;
      assert was[i..] == t[|LoweredFirst(t)|..];
    }
    assert out[..] == out[..i] + out[i..];
  }

  // ----- What lowercasing is for -----

  /** An escape starts at index j. */
  predicate EscapeAt(t: Bytes, j: int) {
    0 <= j <= |t| && IsEscape(t[j..])
  }

  /** Reading the text as Unescape does, an escape is read at index j. */
  predicate ReadAt(t: Bytes, j: int) {
    t != [] && if IsEscape(t) then j == 0 || ReadAt(t[3..], j - 3) else ReadAt(t[1..], j - 1)
  }

  /** The byte at index i is a digit of an escape. */
  predicate InEscape(t: Bytes, i: int) {
    EscapeAt(t, i - 1) || EscapeAt(t, i - 2)
  }

  /** The text with the digits of its escapes lowercased, and nothing else. */
  function Promised(t: Bytes): (l: Bytes)
    ensures |l| == |t|
  {
    seq(|t|, i requires 0 <= i < |t| => if InEscape(t, i) then LowerHexDigit(t[i]) else t[i])
  }

  /** The scan stops at index j, at a percent sign with two bytes after it. */
  predicate StopsAt(t: Bytes, j: int) {
    |t| >= 3 && if t[0] == PERCENT then j == 0 || StopsAt(t[3..], j - 3) else StopsAt(t[1..], j - 1)
  }

  /** The byte at index i is one of the two after a percent sign at which the scan stops. */
  predicate Reached(t: Bytes, i: int) {
    StopsAt(t, i - 1) || StopsAt(t, i - 2)
  }

  predicate IsUpperDigit(c: Byte) {
    65 <= c <= 70
  }

  lemma {:induction false} StopIsInside(t: Bytes, j: int)
    ensures StopsAt(t, j) ==> 0 <= j <= |t| - 3
  {
    if |t| >= 3 {
      var n := if t[0] == PERCENT then 3 else 1;
      StopIsInside(t[n..], j - n);
    }
  }

  /** The scan lowercases the bytes that it reaches, and no others. */
  lemma {:induction false} LoweredAt(t: Bytes, i: nat)
    requires i < |t|
    ensures Lowered(t)[i] == if Reached(t, i) then LowerHexDigit(t[i]) else t[i]
    decreases |t|
  {
    if |t| >= 3 {
      var n := if t[0] == PERCENT then 3 else 1;
      if i < n {
        NothingReachesBack(t, n, i);
      } else {
        LoweredAt(t[n..], i - n);
        NothingReachesBack(t, n, i);
      }
    }
  }

  /** Where the scan stops after the first step is where it stops in the rest. */
  lemma NothingReachesBack(t: Bytes, n: nat, i: nat)
    requires |t| >= 3 && n == (if t[0] == PERCENT then 3 else 1) && i < |t|
    ensures Reached(t, i) <==> if i < n then n == 3 && i > 0 else Reached(t[n..], i - n)
  {
    var rest := t[n..];
    StopIsInside(rest, i - 1 - n);
    StopIsInside(rest, i - 2 - n);
    assert StopsAt(t, i - 1) <==> (n == 3 && i == 1) || StopsAt(rest, i - 1 - n);
    assert StopsAt(t, i - 2) <==> (n == 3 && i == 2) || StopsAt(rest, i - 2 - n);
  }

  /** Unescape reads every escape of the text: escapes do not overlap. */
  lemma {:induction false} EveryEscapeIsRead(t: Bytes, j: nat)
    ensures ReadAt(t, j) <==> EscapeAt(t, j)
    decreases |t|
  {
    if t != [] {
      var n := if IsEscape(t) then 3 else 1;
      if j >= n {
        EveryEscapeIsRead(t[n..], j - n);
        assert j <= |t| ==> t[n..][j - n..] == t[j..];
      } else {
        assert t[0..] == t;
        assert 0 < j < n ==> t[j..][0] == t[j] != PERCENT;
        ReadIsInside(t[n..], j - n);
      }
    }
  }

  lemma {:induction false} ReadIsInside(t: Bytes, j: int)
    ensures ReadAt(t, j) ==> 0 <= j < |t|
  {
    if t != [] {
      if IsEscape(t) {
        ReadIsInside(t[3..], j - 3);
      } else {
        ReadIsInside(t[1..], j - 1);
      }
    }
  }

  /**
   Lowercasing does what it is for exactly when the upper-case digits that the scan reaches are those
   of escapes.
   */
  lemma LoweredAsPromised(t: Bytes)
    ensures Lowered(t) == Promised(t)
       <==> forall i :: 0 <= i < |t| && IsUpperDigit(t[i]) ==> (Reached(t, i) <==> InEscape(t, i))
  {
    hide Lowered, Reached, InEscape;
    forall i | 0 <= i < |t|
      ensures Lowered(t)[i] == Promised(t)[i] <==> (IsUpperDigit(t[i]) ==> (Reached(t, i) <==> InEscape(t, i)))
    {
      LoweredAt(t, i);
    }
    assert Lowered(t) == Promised(t) <==> forall i :: 0 <= i < |t| ==> Lowered(t)[i] == Promised(t)[i];
  }

  /** On a text in which every percent sign starts an escape, it always does. */
  lemma WellEscapedAsPromised(t: Bytes)
    requires WellEscaped(t)
    ensures Lowered(t) == Promised(t)
  {
    forall i | 0 <= i < |t| ensures Reached(t, i) <==> InEscape(t, i) {
      StopsAtEscapes(t, i - 1);
      StopsAtEscapes(t, i - 2);
    }
    hide *;
    LoweredAsPromised(t);
  }

  lemma {:induction false} StopsAtEscapes(t: Bytes, j: int)
    requires WellEscaped(t)
    ensures StopsAt(t, j) <==> EscapeAt(t, j)
    decreases |t|
  {
    if |t| >= 3 {
      var n := if t[0] == PERCENT then 3 else 1;
      StopsAtEscapes(t[n..], j - n);
      assert n <= j <= |t| ==> t[n..][j - n..] == t[j..];
      assert t[0..] == t;
      assert 0 < j < n ==> t[j..][0] == t[j] != PERCENT;
    }
  }

  /** Lowercasing well-formed escapes does not change what they stand for. */
  lemma {:induction false} LoweredDecodesAlike(t: Bytes)
    requires WellEscaped(t)
    ensures WellEscaped(Lowered(t)) && Unescape(Lowered(t)) == Unescape(t)
    decreases |t|
  {
    if |t| >= 3 {
      var n := if t[0] == PERCENT then 3 else 1;
      LoweredDecodesAlike(t[n..]);
      assert Lowered(t)[n..] == Lowered(t[n..]);
    }
  }

  /** Both spellings of an escaped secret, which are registered together, stand for the secret. */
  lemma EscapedFormsDecode(s: Bytes, safe: Bytes, upper: bool)
    requires PERCENT !in safe
    ensures Unescape(Percent(s, safe, upper)) == s == Unescape(Lowered(Percent(s, safe, upper)))
    ensures Lowered(Percent(s, safe, upper)) == Promised(Percent(s, safe, upper))
  {
    PercentRoundTrip(s, safe, upper);
    WellEscapedAsPromised(Percent(s, safe, upper));
    LoweredDecodesAlike(Percent(s, safe, upper));
  }

  /** A percent sign that starts no escape may have the bytes after it changed, as in %AZ. */
  lemma LoweredTouchesNonEscapes()
    ensures var t := [PERCENT, 65, 90]; Lowered(t) != t == Promised(t)
  {
    var t := [PERCENT, 65, 90];
    assert Lowered(t)[1] == 97;
    assert forall j :: 0 <= j <= 3 ==> !IsEscape(t[j..]);
    assert forall i :: 0 <= i < 3 ==> Promised(t)[i] == t[i];
  }

  /** A percent sign that starts no escape may keep the scan from the escape right after it, as in %%2F. */
  lemma LoweredMissesEscapes()
    ensures var t := [PERCENT, PERCENT, 50, 70]; Lowered(t) == t != Promised(t)
  {
    var t := [PERCENT, PERCENT, 50, 70];
    assert t[3..] == [70] && Lowered(t[3..]) == [70];
    assert t[1..] == [PERCENT, 50, 70];
    assert EscapeAt(t, 1);
    assert Promised(t)[3] == 102;
  }

  // ----- Line wrapping -----

  /** The text cut into lines of width bytes, with a newline between lines and none after the last. */
  function Wrapped(s: Bytes, width: nat): Bytes
    requires width > 0
    decreases |s|
  {
    if |s| <= width then s else s[..width] + [NEWLINE] + Wrapped(s[width..], width)
  }

  method WrapLines(s: Bytes, width: nat) returns (b: Bytes)
    requires width > 0
    ensures b == Wrapped(s, width)
  {
    if |s| <= width {
      return s;
    }
    b := [];
    var i := 0;
    ghost var lead: Bytes := [];
    assert s[0..] == s;
    while i < |s|
      invariant lead == if i > 0 then b + [NEWLINE] else []
      invariant i == 0 ==> b == []
      invariant i < |s| ==> lead + Wrapped(s[i..], width) == Wrapped(s, width)
      invariant i >= |s| ==> b == Wrapped(s, width)
      decreases |s| - i
    {
      if i > 0 {
        b := b + [NEWLINE];
      }
      var line := s[i..Min(i + width, |s|)];
      WrappedStep(s, i, width, lead);
      b := b + line;
      i := i + width;
      lead := b + [NEWLINE];
    }
  }

  lemma WrappedStep(s: Bytes, i: nat, width: nat, lead: Bytes)
    requires width > 0 && i < |s|
    ensures i + width >= |s| ==> Wrapped(s[i..], width) == s[i..Min(i + width, |s|)]
    ensures i + width < |s| ==>
              lead + Wrapped(s[i..], width) == lead + s[i..i + width] + [NEWLINE] + Wrapped(s[i + width..], width)
  {
    var rest := s[i..];
    if i + width < |s| {
      assert rest[..width] == s[i..i + width] && rest[width..] == s[i + width..];
      var tail := Wrapped(s[i + width..], width);
      Associate(lead, s[i..i + width], [NEWLINE]);
      Associate(lead, s[i..i + width] + [NEWLINE], tail);
    }
  }

  /** Wrapping only inserts gap bytes, so the wrapped form projects onto the secret's text. */
  lemma {:induction false} WrappedProjectsBack(s: Bytes, width: nat)
    requires width > 0
    ensures Strip(Wrapped(s, width)) == Strip(s)
    decreases |s|
  {
    if |s| > width {
      WrappedProjectsBack(s[width..], width);
      StripConcat(s[..width] + [NEWLINE], Wrapped(s[width..], width));
      StripConcat(s[..width], [NEWLINE]);
      StripConcat(s[..width], s[width..]);
      assert s[..width] + s[width..] == s;
      assert [NEWLINE][..0] == [];
      assert Strip([NEWLINE]) == [];
    }
  }

  // ----- All encodings of a secret -----

  function Base64Forms(s: Bytes): seq<Bytes> {
    [Encode(s, Std, true), Encode(s, Std, false), Encode(s, Url, true), Encode(s, Url, false)]
  }

  function HexForms(s: Bytes): seq<Bytes> {
    [Hex(s, false), Hex(s, true)]
  }

  /** Second-level encodings of an encoded form. */
  function DeriveNested(encoded: Bytes, esc: Escapers): seq<Bytes> {
    [Encode(encoded, Std, true), Encode(encoded, Url, true), Hex(encoded, false),
     esc.query(encoded), Lowered(esc.query(encoded))]
  }

  /** The candidates without those already seen, too short, or repeated, in order. */
  function Fresh(candidates: seq<Bytes>, minLen: nat, seen: set<Bytes>): (out: seq<Bytes>)
  {
    if candidates == [] then []
    else if |candidates[0]| < minLen || candidates[0] in seen then Fresh(candidates[1..], minLen, seen)
    else [candidates[0]] + Fresh(candidates[1..], minLen, seen + {candidates[0]})
  }

  /** Nothing new is dropped, and nothing short, seen or repeated is kept. */
  lemma {:induction false} FreshIsComplete(candidates: seq<Bytes>, minLen: nat, seen: set<Bytes>)
    ensures forall c :: c in Fresh(candidates, minLen, seen) <==> c in candidates && |c| >= minLen && c !in seen
    ensures forall i, j :: 0 <= i < j < |Fresh(candidates, minLen, seen)| ==>
              Fresh(candidates, minLen, seen)[i] != Fresh(candidates, minLen, seen)[j]
  {
    if candidates != [] {
      var first, rest := candidates[0], candidates[1..];
      FreshIsComplete(rest, minLen, seen);
      FreshIsComplete(rest, minLen, seen + {first});
      assert forall c :: c in candidates <==> c == first || c in rest;
    }
  }

  function BothCases(e: Bytes): seq<Bytes> {
    [e, Lowered(e)]
  }

  /** The byte sets that other ecosystems' escapers keep: none, JavaScript's and Python's. */
  const SAFE_SETS: seq<Bytes> := [[], Ascii("!*'()"), Ascii("/")]

  function PercentForms(s: Bytes, n: nat): seq<Bytes>
    requires n <= |SAFE_SETS|
  {
    if n == 0 then [] else PercentForms(s, n - 1) + BothCases(Percent(s, SAFE_SETS[n - 1], true))
  }

  function NestedForms(forms: seq<Bytes>, esc: Escapers): seq<Bytes> {
    if forms == [] then [] else NestedForms(forms[..|forms| - 1], esc) + DeriveNested(forms[|forms| - 1], esc)
  }

  function WrappedForms(forms: seq<Bytes>): seq<Bytes> {
    if forms == [] then []
    else WrappedForms(forms[..|forms| - 1]) + [Wrapped(forms[|forms| - 1], 64), Wrapped(forms[|forms| - 1], 76)]
  }

  /** The forms of a secret that need no nesting and no wrapping. */
  function PlainForms(s: Bytes, esc: Escapers): seq<Bytes>
    requires s != []
  {
    Base64Forms(s) + Cores(s, 3) + HexForms(s)
    + (BothCases(esc.query(s)) + BothCases(esc.path(s)) + PercentForms(s, |SAFE_SETS|)) + esc.json(s)
  }

  /** Everything that may be registered beside a secret. */
  function AllForms(s: Bytes, depth: int, esc: Escapers): seq<Bytes>
    requires s != []
  {
    PlainForms(s, esc) + (if depth >= 2 then NestedForms(Base64Forms(s) + HexForms(s), esc) else [])
    + WrappedForms(Base64Forms(s))
  }

  /** The encodings of a secret that are long enough and new, in order. */
  method EncodingsWithDepth(secret: Bytes, minLen: nat, depth: int, esc: Escapers) returns (out: seq<Bytes>)
    ensures out == if secret == [] then [] else Fresh(AllForms(secret, depth, esc), minLen, {secret})
  {
    if secret == [] {
      return [];
    }
    var candidates := GatherForms(secret, depth, esc);
    out := Dedupe(candidates, minLen, {secret});
  }

  method GatherForms(secret: Bytes, depth: int, esc: Escapers) returns (candidates: seq<Bytes>)
    requires secret != []
    ensures candidates == AllForms(secret, depth, esc)
  {
    hide Encode, Hex, Lowered, Percent, Wrapped, DeriveNested, Cores;
    var cores := Base64Cores(secret);
    var percentForms := [];
    for n := 0 to |SAFE_SETS|
      invariant percentForms == PercentForms(secret, n)
    {
      var e := PercentEncode(secret, SAFE_SETS[n], true);
      percentForms := percentForms + BothCases(e);
    }
    var urlForms := BothCases(esc.query(secret)) + BothCases(esc.path(secret)) + percentForms;
    candidates := Base64Forms(secret) + cores + HexForms(secret) + urlForms + esc.json(secret);
    var nested := [];
    if depth >= 2 {
      nested := GatherNested(Base64Forms(secret) + HexForms(secret), esc);
    }
    var wrapped := GatherWrapped(Base64Forms(secret));
    candidates := candidates + nested + wrapped;
  }

  method GatherNested(forms: seq<Bytes>, esc: Escapers) returns (nested: seq<Bytes>)
    ensures nested == NestedForms(forms, esc)
  {
    nested := [];
    for i := 0 to |forms|
      invariant nested == NestedForms(forms[..i], esc)
    {
      assert forms[..i + 1][..i] == forms[..i];
      nested := nested + DeriveNested(forms[i], esc);
    }
    assert forms[..|forms|] == forms;
  }

  method GatherWrapped(forms: seq<Bytes>) returns (wrapped: seq<Bytes>)
    ensures wrapped == WrappedForms(forms)
  {
    wrapped := [];
    for i := 0 to |forms|
      invariant wrapped == WrappedForms(forms[..i])
    {
      assert forms[..i + 1][..i] == forms[..i];
      var narrow := WrapLines(forms[i], 64);
      var wide := WrapLines(forms[i], 76);
      wrapped := wrapped + [narrow, wide];
    }
    assert forms[..|forms|] == forms;
  }

  method Dedupe(candidates: seq<Bytes>, minLen: nat, known: set<Bytes>) returns (out: seq<Bytes>)
    ensures out == Fresh(candidates, minLen, known)
  {
    out := [];
    var seen := known;
    for i := 0 to |candidates|
      invariant out + Fresh(candidates[i..], minLen, seen) == Fresh(candidates, minLen, known)
    {
      var c := candidates[i];
      assert candidates[i..][1..] == candidates[i + 1..];
      if |c| < minLen || c in seen {
        continue;
      }
      Associate(out, [c], Fresh(candidates[i + 1..], minLen, seen + {c}));
      seen := seen + {c};
      out := out + [c];
    }
  }

  lemma CoresAreForms(secret: Bytes, depth: int, esc: Escapers)
    requires secret != []
    ensures forall c :: c in Cores(secret, 3) ==> c in AllForms(secret, depth, esc)
  {
    hide Cores, Base64Forms, HexForms, BothCases, PercentForms, NestedForms, WrappedForms;
  }

  /** Every core that is long enough is registered, unless it is the secret itself. */
  lemma CoresAreRegistered(secret: Bytes, minLen: nat, depth: int, esc: Escapers, k: nat, a: Alphabet)
    requires secret != [] && k < 3 && |Core(secret, k, a)| >= minLen
    ensures Core(secret, k, a) == secret || Core(secret, k, a) in Fresh(AllForms(secret, depth, esc), minLen, {secret})
  {
    hide Core, Cores, Fresh, AllForms;
    CoresHasCore(secret, 3, k, a);
    CoresAreForms(secret, depth, esc);
    FreshIsComplete(AllForms(secret, depth, esc), minLen, {secret});
  }
}
