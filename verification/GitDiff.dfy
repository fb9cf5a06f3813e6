/** What a unified diff adds (cmd/ironrun/gitcmd.go). */
module GitDiff {
  import opened ByteStrings
  import opened Lines
  import opened Needles

  const PLUS: Byte := '+' as int
  const MINUS: Byte := '-' as int
  const SPACE: Byte := ' ' as int
  const BACKSLASH: Byte := '\\' as int
  const HUNK: Bytes := ['@' as int, '@' as int]

  // ----- The scanner -----

  /** A context or removed line, or the remark that a file ends without a newline. */
  predicate IsOther(line: Bytes) {
    line == [] || line[0] == SPACE || line[0] == MINUS || line[0] == BACKSLASH
  }

  predicate IsAdded(line: Bytes) {
    line != [] && line[0] == PLUS
  }

  /** Hunk mode after a line. */
  function ModeAfter(inHunk: bool, line: Bytes): bool {
    HUNK <= line || (inHunk && (IsAdded(line) || IsOther(line)))
  }

  /** What a line contributes. */
  function Contribution(inHunk: bool, line: Bytes): Bytes {
    if !(HUNK <= line) && inHunk && IsAdded(line) then line[1..] + [NL] else []
  }

  /** The content that lines add, starting in or out of hunk mode. */
  function Content(inHunk: bool, lines: seq<Bytes>): Bytes
    decreases |lines|
  {
    if lines == [] then []
    else Contribution(inHunk, lines[0]) + Content(ModeAfter(inHunk, lines[0]), lines[1..])
  }

  method AddedContent(diff: Bytes) returns (b: Bytes)
    ensures b == Content(false, Split(diff))
  {
    b := [];
    var inHunk := false;
    var lines := Split(diff);
    for i := 0 to |lines|
      invariant b + Content(inHunk, lines[i..]) == Content(false, lines)
    {
      var line := lines[i];
      assert lines[i..][1..] == lines[i + 1..];
      Associate(b, Contribution(inHunk, line), Content(ModeAfter(inHunk, line), lines[i + 1..]));
      if HUNK <= line {
        inHunk := true;
      } else if !inHunk {
      } else if line != [] && line[0] == PLUS {
        b := b + (line[1..] + [NL]);
      } else if line == [] || line[0] == SPACE || line[0] == MINUS || line[0] == BACKSLASH {
      } else {
        inHunk := false;
      }
    }
  }

  // ----- Diffs and how they are printed -----

  datatype DiffLine = Added(text: Bytes) | Removed(text: Bytes) | Context(text: Bytes) | Blank | Remark(text: Bytes) {
    function Print(): Bytes {
      match this
      case Added(t) => ['+' as int] + t
      case Removed(t) => ['-' as int] + t
      case Context(t) => [' ' as int] + t
      case Blank => []
      case Remark(t) => ['\\' as int] + t
    }
  }

  datatype Hunk = Hunk(header: Bytes, lines: seq<DiffLine>)

  datatype FileDiff = FileDiff(headers: seq<Bytes>, hunks: seq<Hunk>)

  /** A line that ends hunk mode. */
  predicate EndsHunk(line: Bytes) {
    !(HUNK <= line) && !IsAdded(line) && !IsOther(line)
  }

  predicate WellFormedHunk(h: Hunk) {
    && ['@' as int, '@' as int] <= h.header && IsLine(h.header)
    && forall i :: 0 <= i < |h.lines| ==> IsLine(h.lines[i].Print())
  }

  predicate WellFormed(f: FileDiff) {
    && f.headers != [] && EndsHunk(f.headers[0])
    && (forall i :: 0 <= i < |f.headers| ==> IsLine(f.headers[i]) && !(HUNK <= f.headers[i]))
    && forall i :: 0 <= i < |f.hunks| ==> WellFormedHunk(f.hunks[i])
  }

  function PrintLines(lines: seq<DiffLine>): seq<Bytes> {
    if lines == [] then [] else [lines[0].Print()] + PrintLines(lines[1..])
  }

  function PrintHunks(hunks: seq<Hunk>): seq<Bytes> {
    if hunks == [] then [] else [hunks[0].header] + PrintLines(hunks[0].lines) + PrintHunks(hunks[1..])
  }

  function PrintFiles(files: seq<FileDiff>): seq<Bytes> {
    if files == [] then [] else files[0].headers + PrintHunks(files[0].hunks) + PrintFiles(files[1..])
  }

  /** The text of a diff: every line ends with a newline. */
  function Print(files: seq<FileDiff>): Bytes {
    Terminated(PrintFiles(files))
  }

  function AddedLines(lines: seq<DiffLine>): seq<Bytes> {
    if lines == [] then []
    else (if lines[0].Added? then [lines[0].text] else []) + AddedLines(lines[1..])
  }

  function AddedByHunks(hunks: seq<Hunk>): seq<Bytes> {
    if hunks == [] then [] else AddedLines(hunks[0].lines) + AddedByHunks(hunks[1..])
  }

  function AddedByFiles(files: seq<FileDiff>): seq<Bytes> {
    if files == [] then [] else AddedByHunks(files[0].hunks) + AddedByFiles(files[1..])
  }

  // ----- Scanning undoes printing -----

  /** Hunk mode after some lines. */
  function ModeAfterAll(inHunk: bool, lines: seq<Bytes>): bool
    decreases |lines|
  {
    if lines == [] then inHunk else ModeAfterAll(ModeAfter(inHunk, lines[0]), lines[1..])
  }

  lemma {:induction false} ContentConcat(inHunk: bool, a: seq<Bytes>, b: seq<Bytes>)
    ensures Content(inHunk, a + b) == Content(inHunk, a) + Content(ModeAfterAll(inHunk, a), b)
    ensures ModeAfterAll(inHunk, a + b) == ModeAfterAll(ModeAfterAll(inHunk, a), b)
    decreases |a|
  {
    if a == [] {
      assert a + b == b;
    } else {
      var mode := ModeAfter(inHunk, a[0]);
      ContentConcat(mode, a[1..], b);
      ConcatSplit(a, b, 1);
      Associate(Contribution(inHunk, a[0]), Content(mode, a[1..]), Content(ModeAfterAll(mode, a[1..]), b));
    }
  }

  lemma PrintedLine(line: DiffLine)
    ensures ModeAfter(true, line.Print())
    ensures Contribution(true, line.Print()) == if line.Added? then line.text + [NL] else []
  {
    if line.Added? {
      assert line.Print()[1..] == line.text;
    }
  }

  lemma {:induction false} ScanLines(lines: seq<DiffLine>)
    ensures Content(true, PrintLines(lines)) == Terminated(AddedLines(lines))
    ensures ModeAfterAll(true, PrintLines(lines))
  {
    if lines != [] {
      ScanLines(lines[1..]);
      PrintedLine(lines[0]);
      assert PrintLines(lines)[1..] == PrintLines(lines[1..]);
      TerminatedConcat(if lines[0].Added? then [lines[0].text] else [], AddedLines(lines[1..]));
      OneTerminated(lines[0].Print()[if lines[0].Added? then 1 else 0..]);
    }
  }

  lemma OneTerminated(line: Bytes)
    ensures Terminated([line]) == line + [NL]
  {
    assert [line][1..] == [];
  }

  lemma ScanHunk(inHunk: bool, h: Hunk, rest: seq<Bytes>)
    requires WellFormedHunk(h)
    ensures Content(inHunk, [h.header] + PrintLines(h.lines) + rest)
         == Terminated(AddedLines(h.lines)) + Content(true, rest)
  {
    ScanLines(h.lines);
    ContentConcat(true, PrintLines(h.lines), rest);
    HunkHeader(inHunk, h.header, PrintLines(h.lines) + rest);
    Associate([h.header], PrintLines(h.lines), rest);
  }

  lemma HunkHeader(inHunk: bool, header: Bytes, rest: seq<Bytes>)
    requires HUNK <= header
    ensures Content(inHunk, [header] + rest) == Content(true, rest)
  {
    assert ([header] + rest)[1..] == rest;
  }

  lemma {:induction false} ScanHunks(inHunk: bool, hunks: seq<Hunk>)
    requires forall i :: 0 <= i < |hunks| ==> WellFormedHunk(hunks[i])
    ensures Content(inHunk, PrintHunks(hunks)) == Terminated(AddedByHunks(hunks))
    decreases |hunks|
  {
    if hunks != [] {
      ScanHunks(true, hunks[1..]);
      ScanHunk(inHunk, hunks[0], PrintHunks(hunks[1..]));
      TerminatedConcat(AddedLines(hunks[0].lines), AddedByHunks(hunks[1..]));
    }
  }

  /** Out of hunk mode, header lines add nothing and stay out of it. */
  lemma {:induction false} ScanHeaders(headers: seq<Bytes>)
    requires forall i :: 0 <= i < |headers| ==> !(HUNK <= headers[i])
    ensures Content(false, headers) == [] && !ModeAfterAll(false, headers)
  {
    if headers != [] {
      ScanHeaders(headers[1..]);
    }
  }

  lemma FileHeaders(inHunk: bool, f: FileDiff)
    requires WellFormed(f)
    ensures Content(inHunk, f.headers) == [] && !ModeAfterAll(inHunk, f.headers)
  {
    ScanHeaders(f.headers[1..]);
  }

  lemma ScanFile(inHunk: bool, f: FileDiff)
    requires WellFormed(f)
    ensures Content(inHunk, f.headers + PrintHunks(f.hunks)) == Terminated(AddedByHunks(f.hunks))
  {
    FileHeaders(inHunk, f);
    ScanHunks(false, f.hunks);
    ContentConcat(inHunk, f.headers, PrintHunks(f.hunks));
  }

  lemma {:induction false} ScanFiles(inHunk: bool, files: seq<FileDiff>)
    requires forall i :: 0 <= i < |files| ==> WellFormed(files[i])
    ensures Content(inHunk, PrintFiles(files)) == Terminated(AddedByFiles(files))
    decreases |files|
  {
    if files != [] {
      hide Content, ModeAfterAll, Terminated, PrintHunks, AddedByHunks, WellFormed;
      var f := files[0];
      var lines := f.headers + PrintHunks(f.hunks);
      ScanFile(inHunk, f);
      ScanFiles(ModeAfterAll(inHunk, lines), files[1..]);
      ContentConcat(inHunk, lines, PrintFiles(files[1..]));
      TerminatedConcat(AddedByHunks(f.hunks), AddedByFiles(files[1..]));
    }
  }

  lemma {:induction false} PrintedAreLines(files: seq<FileDiff>)
    requires forall i :: 0 <= i < |files| ==> WellFormed(files[i])
    ensures forall i :: 0 <= i < |PrintFiles(files)| ==> IsLine(PrintFiles(files)[i])
  {
    if files != [] {
      PrintedHunksAreLines(files[0].hunks);
      PrintedAreLines(files[1..]);
    }
  }

  lemma {:induction false} PrintedHunksAreLines(hunks: seq<Hunk>)
    requires forall i :: 0 <= i < |hunks| ==> WellFormedHunk(hunks[i])
    ensures forall i :: 0 <= i < |PrintHunks(hunks)| ==> IsLine(PrintHunks(hunks)[i])
  {
    if hunks != [] {
      PrintedLinesAreLines(hunks[0].lines);
      PrintedHunksAreLines(hunks[1..]);
    }
  }

  lemma {:induction false} PrintedLinesAreLines(lines: seq<DiffLine>)
    requires forall i :: 0 <= i < |lines| ==> IsLine(lines[i].Print())
    ensures forall i :: 0 <= i < |PrintLines(lines)| ==> IsLine(PrintLines(lines)[i])
  {
    if lines != [] {
      PrintedLinesAreLines(lines[1..]);
    }
  }

  /** Of a printed diff, the scanner keeps exactly the added lines, in order, each with a newline. */
  lemma ScanUndoesPrint(files: seq<FileDiff>)
    requires forall i :: 0 <= i < |files| ==> WellFormed(files[i])
    ensures Content(false, Split(Print(files))) == Terminated(AddedByFiles(files))
  {
    var lines := PrintFiles(files);
    PrintedAreLines(files);
    SplitTerminated(lines);
    ScanFiles(false, files);
    ContentConcat(false, lines, [[]]);
  }

  // ----- Values that span several added lines -----

  /** Lines that a diff adds one after another. */
  ghost predicate AddsTogether(files: seq<FileDiff>, block: seq<Bytes>) {
    exists a, b :: AddedByFiles(files) == a + block + b
  }

  lemma BlockReappears(a: seq<Bytes>, block: seq<Bytes>, b: seq<Bytes>)
    requires block != []
    ensures Terminated(a + block + b) == Terminated(a) + Join(block) + ([NL] + Terminated(b))
  {
    TerminatedConcat(a + block, b);
    TerminatedConcat(a, block);
    TerminatedIsJoin(block);
  }

  /** A value spread over consecutive added lines reappears verbatim, and the matcher finds it. */
  lemma AddedValueReappears(files: seq<FileDiff>, block: seq<Bytes>, value: Bytes, d: Dictionary)
    requires forall i :: 0 <= i < |files| ==> WellFormed(files[i])
    requires AddsTogether(files, block) && block != [] && Occurs(value, Join(block))
    ensures Occurs(value, Content(false, Split(Print(files))))
    ensures value in d && value != [] ==> Holds(d, Content(false, Split(Print(files))))
  {
    hide WellFormed, AddedByFiles, Content, Split, Print, Terminated, Join;
    var a, b :| AddedByFiles(files) == a + block + b;
    ScanUndoesPrint(files);
    BlockReappears(a, block, b);
    var at: nat :| OccursAt(value, Join(block), at);
    OccursWithin(value, Join(block), at, Terminated(a), [NL] + Terminated(b));
  }
}
