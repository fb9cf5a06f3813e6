/** Texts as lines: Go's strings.Split and strings.Join at newlines. */
module Lines {
  import opened ByteStrings

  const NL: Byte := 10

  /** The pieces of a text between its newlines; one more piece than there are newlines. */
  function Split(text: Bytes): (lines: seq<Bytes>)
    ensures lines != []
  {
    if text == [] then [[]]
    else
      var rest := Split(text[1..]);
      if text[0] == NL then [[]] + rest else [[text[0]] + rest[0]] + rest[1..]
  }

  function Join(lines: seq<Bytes>): Bytes {
    if lines == [] then []
    else if |lines| == 1 then lines[0]
    else lines[0] + [NL] + Join(lines[1..])
  }

  /** Each line with its newline. */
  function Terminated(lines: seq<Bytes>): Bytes {
    if lines == [] then [] else lines[0] + [NL] + Terminated(lines[1..])
  }

  predicate IsLine(line: Bytes) {
    NL !in line
  }

  lemma {:induction false} SplitLine(line: Bytes, rest: Bytes)
    requires IsLine(line)
    ensures Split(line) == [line]
    ensures Split(line + [NL] + rest) == [line] + Split(rest)
  {
    if line == [] {
      assert line + [NL] + rest == [NL] + rest;
      assert ([NL] + rest)[1..] == rest;
    } else {
      var tail := line[1..];
      SplitLine(tail, rest);
      assert (line + [NL] + rest)[1..] == tail + [NL] + rest;
      assert line == [line[0]] + tail;
    }
  }

  /** Splitting undoes joining. */
  lemma {:induction false} SplitJoin(lines: seq<Bytes>)
    requires forall i :: 0 <= i < |lines| ==> IsLine(lines[i])
    ensures Split(Join(lines)) == if lines == [] then [[]] else lines
  {
    if |lines| == 1 {
      SplitLine(lines[0], []);
      assert lines == [lines[0]];
    } else if lines != [] {
      SplitJoin(lines[1..]);
      SplitLine(lines[0], Join(lines[1..]));
      assert lines == [lines[0]] + lines[1..];
    }
  }

  /** Splitting terminated lines leaves one empty piece at the end. */
  lemma {:induction false} SplitTerminated(lines: seq<Bytes>)
    requires forall i :: 0 <= i < |lines| ==> IsLine(lines[i])
    ensures Split(Terminated(lines)) == lines + [[]]
  {
    if lines != [] {
      SplitTerminated(lines[1..]);
      SplitLine(lines[0], Terminated(lines[1..]));
      assert lines + [[]] == [lines[0]] + (lines[1..] + [[]]);
    }
  }

  lemma {:induction false} SplitYieldsLines(text: Bytes)
    ensures forall i :: 0 <= i < |Split(text)| ==> IsLine(Split(text)[i])
  {
    if text != [] {
      SplitYieldsLines(text[1..]);
    }
  }

  lemma {:induction false} JoinSplit(text: Bytes)
    ensures Join(Split(text)) == text
  {
    if text != [] {
      var rest := Split(text[1..]);
      JoinSplit(text[1..]);
      assert text == [text[0]] + text[1..];
      if text[0] == NL {
        assert ([[]] + rest)[1..] == rest;
      } else if |rest| == 1 {
        assert [[text[0]] + rest[0]] + rest[1..] == [[text[0]] + rest[0]];
      } else {
        assert ([[text[0]] + rest[0]] + rest[1..])[1..] == rest[1..];
        assert [text[0]] + (rest[0] + [NL] + Join(rest[1..])) == [text[0]] + rest[0] + [NL] + Join(rest[1..]);
      }
    }
  }

  lemma {:induction false} TerminatedConcat(a: seq<Bytes>, b: seq<Bytes>)
    ensures Terminated(a + b) == Terminated(a) + Terminated(b)
  {
    if a == [] {
      assert a + b == b;
    } else {
      TerminatedConcat(a[1..], b);
      ConcatSplit(a, b, 1);
      Associate(a[0] + [NL], Terminated(a[1..]), Terminated(b));
    }
  }

  /** Terminated lines are joined lines and one more newline. */
  lemma {:induction false} TerminatedIsJoin(lines: seq<Bytes>)
    requires lines != []
    ensures Terminated(lines) == Join(lines) + [NL]
  {
    if |lines| > 1 {
      TerminatedIsJoin(lines[1..]);
    } else {
      assert lines[1..] == [];
    }
  }

  /** Text without a newline that occurs in joined lines occurs in one of them. */
  lemma {:induction false} OccursInOneLine(lines: seq<Bytes>, w: Bytes, at: nat) returns (i: nat)
    requires w != [] && IsLine(w) && OccursAt(w, Join(lines), at)
    ensures i < |lines| && Occurs(w, lines[i])
  {
    if |lines| == 1 {
      return 0;
    }
    var first, rest := lines[0], Join(lines[1..]);
    var all := first + [NL] + rest;
    assert all == Join(lines);
    if at <= |first| {
      if at + |w| > |first| {
        NewlineIn(w, all, at, |first|);
      }
      assert first[at..at + |w|] == all[at..at + |w|];
      assert OccursAt(w, first, at);
      return 0;
    }
    var later := at - |first| - 1;
    assert rest[later..later + |w|] == all[at..at + |w|];
    i := OccursInOneLine(lines[1..], w, later);
    i := i + 1;
  }

  lemma NewlineIn(w: Bytes, text: Bytes, at: nat, k: nat)
    requires OccursAt(w, text, at) && at <= k < at + |w| && text[k] == NL
    ensures !IsLine(w)
  {
    assert w[k - at] == text[at..at + |w|][k - at];
  }
}
