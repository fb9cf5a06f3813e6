/** What the encoded forms of a secret look like, and which of them are registered. */
module EncodingForms {
  import opened ByteStrings
  import opened Base64
  import opened Encodings
  import opened Lines

  // ----- Hexadecimal -----

  const HEX_LOWER: string := "0123456789abcdef"
  const HEX_UPPER: string := "0123456789ABCDEF"

  function HexTable(upper: bool): (table: string)
    ensures |table| == 16
  {
    if upper then HEX_UPPER else HEX_LOWER
  }

  lemma DigitsAreTabled(v: int, upper: bool)
    requires 0 <= v < 16
    ensures HexDigit(v, upper) == HexTable(upper)[v] as int
  {
  }

  /** Reads two digits to a byte, in either case; -1 in the result marks a digit that is none. */
  function ReadHex(t: Bytes): (s: seq<int>) {
    if |t| < 2 then [] else [16 * HexValue(t[0]) + HexValue(t[1])] + ReadHex(t[2..])
  }

  lemma HexStep(s: Bytes, upper: bool)
    requires s != []
    ensures |Hex(s, upper)| >= 2 && Hex(s, upper)[2..] == Hex(s[1..], upper)
    ensures Hex(s, upper)[0] == HexTable(upper)[s[0] / 16] as int && HexValue(Hex(s, upper)[0]) == s[0] / 16
    ensures Hex(s, upper)[1] == HexTable(upper)[s[0] % 16] as int && HexValue(Hex(s, upper)[1]) == s[0] % 16
    ensures 16 * HexValue(Hex(s, upper)[0]) + HexValue(Hex(s, upper)[1]) == s[0]
  {
    hide HexDigit, HexValue, HexTable;
    DigitsAreTabled(s[0] / 16, upper);
    DigitsAreTabled(s[0] % 16, upper);
  }

  /** Each byte is its two digits, from the table of that spelling. */
  lemma {:induction false} HexIsTabled(s: Bytes, upper: bool, i: nat)
    requires i < |s|
    ensures |Hex(s, upper)| == 2 * |s|
    ensures Hex(s, upper)[2 * i] == HexTable(upper)[s[i] / 16] as int
    ensures Hex(s, upper)[2 * i + 1] == HexTable(upper)[s[i] % 16] as int
  {
    hide Hex, HexTable;
    HexStep(s, upper);
    if |s| > 1 {
      var j := if i > 0 then i - 1 else 0;
      HexIsTabled(s[1..], upper, j);
      assert Hex(s, upper)[2..][2 * j] == Hex(s, upper)[2 * j + 2];
      assert Hex(s, upper)[2..][2 * j + 1] == Hex(s, upper)[2 * j + 3];
    } else {
      HexOfNothing(upper);
    }
  }

  lemma HexOfNothing(upper: bool)
    ensures Hex([], upper) == []
  {
  }

  lemma ReadStep(t: Bytes)
    requires |t| >= 2
    ensures ReadHex(t) == [16 * HexValue(t[0]) + HexValue(t[1])] + ReadHex(t[2..])
  {
  }

  /** The digits read back are the secret. */
  lemma {:induction false} HexReadsBack(s: Bytes, upper: bool)
    ensures ReadHex(Hex(s, upper)) == s
  {
    if s != [] {
      hide Hex, HexTable, HexValue, ReadHex;
      HexStep(s, upper);
      ReadStep(Hex(s, upper));
      HexReadsBack(s[1..], upper);
      assert s == [s[0]] + s[1..];
    }
  }

  // ----- Percent encoding -----

  /** The unreserved characters of RFC 3986, section 2.3. */
  predicate Unreserved(c: char) {
    'A' <= c <= 'Z' || 'a' <= c <= 'z' || '0' <= c <= '9' || c == '-' || c == '.' || c == '_' || c == '~'
  }

  predicate IsPlain(c: Byte, safe: Bytes) {
    Unreserved(c as char) || c in safe
  }

  /** A percent sign and the two digits of the byte, from the table of that case. */
  function EscapeOf(c: Byte, upper: bool): Bytes {
    ['%' as int, HexTable(upper)[c / 16] as int, HexTable(upper)[c % 16] as int]
  }

  /** t spells s byte by byte: a plain byte by itself and any other byte by its escape. */
  predicate Spells(t: Bytes, s: Bytes, safe: Bytes, upper: bool) {
    if s == [] then t == []
    else if IsPlain(s[0], safe) then t != [] && t[0] == s[0] && Spells(t[1..], s[1..], safe, upper)
    else EscapeOf(s[0], upper) <= t && Spells(t[3..], s[1..], safe, upper)
  }

  lemma PercentPiece(c: Byte, safe: Bytes, upper: bool)
    ensures PercentOf(c, safe, upper) == if IsPlain(c, safe) then [c] else EscapeOf(c, upper)
  {
    DigitsAreTabled(c / 16, upper);
    DigitsAreTabled(c % 16, upper);
  }

  lemma {:induction false} SpellsConcat(t: Bytes, s: Bytes, c: Byte, safe: Bytes, upper: bool)
    requires Spells(t, s, safe, upper)
    ensures Spells(t + PercentOf(c, safe, upper), s + [c], safe, upper)
  {
    hide EscapeOf, IsPlain, PercentOf;
    var piece := PercentOf(c, safe, upper);
    var more := s + [c];
    PercentPiece(c, safe, upper);
    if s == [] {
      assert more[1..] == [] && t + piece == piece;
      PieceSpells(piece, c, safe, upper);
    } else {
      EscapeLength(s[0], upper);
      var n := if IsPlain(s[0], safe) then 1 else 3;
      assert more[1..] == s[1..] + [c] && (t + piece)[n..] == t[n..] + piece;
      SpellsConcat(t[n..], s[1..], c, safe, upper);
    }
  }

  lemma EscapeLength(c: Byte, upper: bool)
    ensures |EscapeOf(c, upper)| == 3
  {
  }

  lemma PieceSpells(piece: Bytes, c: Byte, safe: Bytes, upper: bool)
    requires piece == if IsPlain(c, safe) then [c] else EscapeOf(c, upper)
    ensures Spells(piece, [c], safe, upper)
  {
    hide EscapeOf, IsPlain;
    EscapeLength(c, upper);
    assert [c][1..] == [] && piece[|piece|..] == [];
  }

  /** The encoder's text is the one text that spells the secret. */
  lemma {:induction false} PercentMeans(t: Bytes, s: Bytes, safe: Bytes, upper: bool)
    ensures Spells(t, s, safe, upper) <==> t == Percent(s, safe, upper)
  {
    PercentSpells(s, safe, upper);
    if Spells(t, s, safe, upper) {
      SpelledOnce(t, Percent(s, safe, upper), s, safe, upper);
    }
  }

  lemma {:induction false} PercentSpells(s: Bytes, safe: Bytes, upper: bool)
    ensures Spells(Percent(s, safe, upper), s, safe, upper)
  {
    if s != [] {
      var init, last := s[..|s| - 1], s[|s| - 1];
      PercentSpells(init, safe, upper);
      SpellsConcat(Percent(init, safe, upper), init, last, safe, upper);
      assert init + [last] == s;
    }
  }

  lemma {:induction false} SpelledOnce(t: Bytes, u: Bytes, s: Bytes, safe: Bytes, upper: bool)
    requires Spells(t, s, safe, upper) && Spells(u, s, safe, upper)
    ensures t == u
  {
    hide EscapeOf, IsPlain;
    if s != [] {
      EscapeLength(s[0], upper);
      var n := if IsPlain(s[0], safe) then 1 else 3;
      SpelledOnce(t[n..], u[n..], s[1..], safe, upper);
      assert t == t[..n] + t[n..] && u == u[..n] + u[n..];
    }
  }

  // ----- Line wrapping -----

  /** All lines but the last are as wide as they may be. */
  predicate IsFilled(lines: seq<Bytes>, width: nat)
    requires lines != []
  {
    (forall i :: 0 <= i < |lines| - 1 ==> |lines[i]| == width) && |lines[|lines| - 1]| <= width
  }

  /** A wrapped text is its lines joined by newlines: all but the last are width bytes long. */
  lemma {:induction false} WrappedLayout(s: Bytes, width: nat) returns (lines: seq<Bytes>)
    requires width > 0
    ensures lines != []
    ensures Wrapped(s, width) == Join(lines) && Concat(lines) == s
    ensures IsFilled(lines, width) && (s != [] ==> lines[|lines| - 1] != [])
    decreases |s|
  {
    hide IsFilled, Wrapped, Join, Concat;
    WrapOnce(s, width);
    if |s| <= width {
      lines := [s];
      OneLine(s, width);
    } else {
      var rest := WrappedLayout(s[width..], width);
      lines := [s[..width]] + rest;
      PrependLine(s[..width], rest);
      assert s == s[..width] + s[width..];
    }
  }

  lemma WrapOnce(s: Bytes, width: nat)
    requires width > 0
    ensures Wrapped(s, width) == if |s| <= width then s else s[..width] + [NL] + Wrapped(s[width..], width)
  {
  }

  lemma OneLine(line: Bytes, width: nat)
    ensures Join([line]) == line && Concat([line]) == line && (|line| <= width ==> IsFilled([line], width))
  {
    assert [line][1..] == [] && line + [] == line;
  }

  lemma PrependLine(line: Bytes, rest: seq<Bytes>)
    requires rest != []
    ensures Join([line] + rest) == line + [NL] + Join(rest)
    ensures Concat([line] + rest) == line + Concat(rest)
    ensures IsFilled(rest, |line|) ==> IsFilled([line] + rest, |line|)
  {
    assert ([line] + rest)[1..] == rest;
  }

  // ----- Which forms are registered -----

  ghost predicate IsBase64(s: Bytes, f: Bytes) {
    exists a: Alphabet, padded: bool :: f == Encode(s, a, padded)
  }

  ghost predicate IsFlat(s: Bytes, f: Bytes) {
    IsBase64(s, f) || exists upper: bool :: f == Hex(s, upper)
  }

  ghost predicate IsCore(s: Bytes, f: Bytes)
    requires s != []
  {
    exists k: nat, a: Alphabet :: k < 3 && f == Core(s, k, a)
  }

  /** Percent-encoded as Go, a strict escaper, JavaScript or Python would, with digits in upper case. */
  predicate IsEscaped(s: Bytes, e: Bytes, esc: Escapers) {
    || e == esc.query(s) || e == esc.path(s)
    || e == Percent(s, [], true) || e == Percent(s, Ascii("!*'()"), true) || e == Percent(s, Ascii("/"), true)
  }

  ghost predicate IsUrlForm(s: Bytes, f: Bytes, esc: Escapers) {
    exists e :: IsEscaped(s, e, esc) && (f == e || f == Lowered(e))
  }

  /** A base64 or hex form encoded once more. */
  ghost predicate IsNested(s: Bytes, f: Bytes, esc: Escapers) {
    exists g :: IsFlat(s, g) && IsDerived(g, f, esc)
  }

  predicate IsDerived(g: Bytes, f: Bytes, esc: Escapers) {
    || f == Encode(g, Std, true) || f == Encode(g, Url, true) || f == Hex(g, false)
    || f == esc.query(g) || f == Lowered(esc.query(g))
  }

  ghost predicate IsWrapped(s: Bytes, f: Bytes) {
    exists g :: IsBase64(s, g) && IsWrapOf(g, f)
  }

  /** Wrapped as PEM files or as MIME bodies are. */
  predicate IsWrapOf(g: Bytes, f: Bytes) {
    f == Wrapped(g, 64) || f == Wrapped(g, 76)
  }

  /** The encoded forms that are looked for, kind by kind. */
  ghost predicate IsForm(s: Bytes, f: Bytes, depth: int, esc: Escapers)
    requires s != []
  {
    || IsFlat(s, f) || IsCore(s, f) || IsUrlForm(s, f, esc) || f in esc.json(s)
    || (depth >= 2 && IsNested(s, f, esc)) || IsWrapped(s, f)
  }

  lemma Base64FormsMean(s: Bytes, f: Bytes)
    ensures f in Base64Forms(s) <==> IsBase64(s, f)
  {
    hide Encode;
    if a: Alphabet, padded: bool :| f == Encode(s, a, padded) {
      assert a == Std || a == Url;
      assert padded || !padded;
    }
  }

  lemma FlatFormsMean(s: Bytes, f: Bytes)
    ensures f in Base64Forms(s) + HexForms(s) <==> IsFlat(s, f)
  {
    hide IsBase64, Hex, Base64Forms;
    Base64FormsMean(s, f);
    assert f in HexForms(s) <==> f == Hex(s, false) || f == Hex(s, true);
  }

  lemma CoresMean(s: Bytes, f: Bytes)
    requires s != []
    ensures f in Cores(s, 3) <==> IsCore(s, f)
  {
    hide Core;
    assert Cores(s, 3) == Cores(s, 2) + [Core(s, 2, Std), Core(s, 2, Url)];
    assert Cores(s, 2) == Cores(s, 1) + [Core(s, 1, Std), Core(s, 1, Url)];
    assert Cores(s, 1) == Cores(s, 0) + [Core(s, 0, Std), Core(s, 0, Url)];
    if k: nat, a: Alphabet :| k < 3 && f == Core(s, k, a) {
      assert a == Std || a == Url;
      CoresHasCore(s, 3, k, a);
    }
  }

  lemma UrlFormsMean(s: Bytes, f: Bytes, esc: Escapers)
    ensures f in BothCases(esc.query(s)) + BothCases(esc.path(s)) + PercentForms(s, |SAFE_SETS|)
       <==> IsUrlForm(s, f, esc)
  {
    hide Lowered, Percent, Ascii;
    PercentFormsMean(s);
    var q, p := esc.query(s), esc.path(s);
    var strict, js, py := Percent(s, [], true), Percent(s, Ascii("!*'()"), true), Percent(s, Ascii("/"), true);
    var all := [q, Lowered(q), p, Lowered(p), strict, Lowered(strict), js, Lowered(js), py, Lowered(py)];
    assert BothCases(q) + BothCases(p) + PercentForms(s, |SAFE_SETS|) == all;
    assert forall e :: IsEscaped(s, e, esc) <==> e == q || e == p || e == strict || e == js || e == py;
    forall e | e == q || e == p || e == strict || e == js || e == py
      ensures IsEscaped(s, e, esc)
    {
    }
  }

  lemma PercentFormsMean(s: Bytes)
    ensures PercentForms(s, |SAFE_SETS|) ==
              BothCases(Percent(s, [], true)) + BothCases(Percent(s, Ascii("!*'()"), true))
              + BothCases(Percent(s, Ascii("/"), true))
  {
    hide Lowered, Percent, Ascii, BothCases;
    assert PercentForms(s, 3) == PercentForms(s, 2) + BothCases(Percent(s, SAFE_SETS[2], true));
    assert PercentForms(s, 2) == PercentForms(s, 1) + BothCases(Percent(s, SAFE_SETS[1], true));
    assert PercentForms(s, 1) == PercentForms(s, 0) + BothCases(Percent(s, SAFE_SETS[0], true));
  }

  lemma {:induction false} NestedFormsMean(forms: seq<Bytes>, f: Bytes, esc: Escapers)
    ensures f in NestedForms(forms, esc) <==> exists g :: g in forms && IsDerived(g, f, esc)
  {
    hide Encode, Hex, Lowered;
    if forms != [] {
      var init, last := forms[..|forms| - 1], forms[|forms| - 1];
      NestedFormsMean(init, f, esc);
      assert forall g :: g in forms <==> g in init || g == last;
      assert f in DeriveNested(last, esc) <==> IsDerived(last, f, esc);
    }
  }

  lemma {:induction false} WrappedFormsMean(forms: seq<Bytes>, f: Bytes)
    ensures f in WrappedForms(forms) <==> exists g :: g in forms && IsWrapOf(g, f)
  {
    hide Wrapped;
    if forms != [] {
      var init, last := forms[..|forms| - 1], forms[|forms| - 1];
      WrappedFormsMean(init, f);
      assert forall g :: g in forms <==> g in init || g == last;
      assert f in [Wrapped(last, 64), Wrapped(last, 76)] <==> IsWrapOf(last, f);
    }
  }

  lemma AllFormsMean(s: Bytes, f: Bytes, depth: int, esc: Escapers)
    requires s != []
    ensures f in AllForms(s, depth, esc) <==> IsForm(s, f, depth, esc)
  {
    hide Base64Forms, HexForms, BothCases, PercentForms, NestedForms, WrappedForms, Cores, Wrapped, IsCore, IsUrlForm,
      IsBase64, IsFlat, IsDerived;
    var flat := Base64Forms(s) + HexForms(s);
    forall g ensures (g in flat <==> IsFlat(s, g)) && (g in Base64Forms(s) <==> IsBase64(s, g)) {
      FlatFormsMean(s, g);
      Base64FormsMean(s, g);
    }
    CoresMean(s, f);
    UrlFormsMean(s, f, esc);
    NestedFormsMean(flat, f, esc);
    WrappedFormsMean(Base64Forms(s), f);
  }

  /** Registered beside a secret are its forms that are long enough and not the secret itself, each once. */
  lemma RegisteredFormsMean(s: Bytes, minLen: nat, depth: int, esc: Escapers, f: Bytes)
    requires s != []
    ensures f in Fresh(AllForms(s, depth, esc), minLen, {s}) <==> IsForm(s, f, depth, esc) && |f| >= minLen && f != s
    ensures var out := Fresh(AllForms(s, depth, esc), minLen, {s});
            forall i, j :: 0 <= i < j < |out| ==> out[i] != out[j]
  {
    hide AllForms, Fresh, IsForm;
    AllFormsMean(s, f, depth, esc);
    FreshIsComplete(AllForms(s, depth, esc), minLen, {s});
  }
}
