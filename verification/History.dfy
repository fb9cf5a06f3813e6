/** Purging shell history of managed values (internal/shellguard/history.go). */
module History {
  import opened ByteStrings
  import opened Lines
  import opened Needles
  import opened Scrub
  import opened Options

  datatype Shell = Bash | Zsh | Fish

  const WHEN: Bytes := Ascii("  when:")

  /** Fish pairs a command line with the timestamp line after it. */
  predicate DropsNext(shell: Shell, lines: seq<Bytes>) {
    shell == Fish && |lines| > 1 && WHEN <= lines[1]
  }

  /** The lines that remain, and how many held a needle. */
  ghost function Purged(d: Dictionary, shell: Shell, lines: seq<Bytes>): (r: (seq<Bytes>, nat))
    decreases |lines|
  {
    if lines == [] then ([], 0)
    else if Holds(d, lines[0]) then
      var (kept, dropped) := Purged(d, shell, if DropsNext(shell, lines) then lines[2..] else lines[1..]);
      (kept, dropped + 1)
    else
      var (kept, dropped) := Purged(d, shell, lines[1..]);
      ([lines[0]] + kept, dropped)
  }

  datatype PurgeFileResult = PurgeFileResult(matchedLines: nat, rewritten: bool, missing: bool)

  method PurgeLines(m: Matcher, shell: Shell, lines: seq<Bytes>) returns (kept: seq<Bytes>, dropped: nat)
    requires m.Valid() && m.Counted()
    ensures (kept, dropped) == Purged(Denoted(m.nodes), shell, lines)
  {
    hide Holds, IsTrie;
    ghost var d := Denoted(m.nodes);
    kept, dropped := [], 0;
    var i := 0;
    assert lines[0..] == lines;
    while i < |lines|
      invariant i <= |lines|
      invariant Purged(d, shell, lines).0 == kept + Purged(d, shell, lines[i..]).0
      invariant Purged(d, shell, lines).1 == dropped + Purged(d, shell, lines[i..]).1
    {
      PurgedStep(d, shell, lines, i, kept);
      var holds := m.Contains(lines[i]);
      if holds {
        dropped := dropped + 1;
        if shell == Fish && i + 1 < |lines| && WHEN <= lines[i + 1] {
          i := i + 1;
        }
        i := i + 1;
        continue;
      }
      kept := kept + [lines[i]];
      i := i + 1;
    }
    assert lines[i..] == [] && kept + [] == kept;
  }

  lemma PurgedStep(d: Dictionary, shell: Shell, lines: seq<Bytes>, i: nat, kept: seq<Bytes>)
    requires i < |lines|
    ensures var now, skips := Purged(d, shell, lines[i..]), shell == Fish && i + 1 < |lines| && WHEN <= lines[i + 1];
            var next := Purged(d, shell, lines[if Holds(d, lines[i]) && skips then i + 2 else i + 1..]);
            && now.1 == next.1 + (if Holds(d, lines[i]) then 1 else 0)
            && kept + now.0 == (if Holds(d, lines[i]) then kept else kept + [lines[i]]) + next.0
  {
    hide Holds;
    assert lines[i..][1..] == lines[i + 1..];
    if i + 1 < |lines| {
      assert lines[i..][2..] == lines[i + 2..];
    }
  }

  /** Purges one history file; a dry run only counts, and a file without matches is not rewritten. */
  method PurgeFile(m: Matcher, shell: Shell, file: Option<Bytes>, apply: bool)
    returns (result: PurgeFileResult, file': Option<Bytes>)
    requires m.Valid() && m.Counted()
    ensures file == None ==> file' == None && result == PurgeFileResult(0, false, true)
    ensures file.Some? ==>
              var (kept, dropped) := Purged(Denoted(m.nodes), shell, Split(file.value));
              && result == PurgeFileResult(dropped, dropped > 0 && apply, false)
              && file' == if dropped > 0 && apply then Some(Join(kept)) else file
  {
    if file == None {
      return PurgeFileResult(0, false, true), None;
    }
    var kept, dropped := PurgeLines(m, shell, Split(file.value));
    if dropped == 0 || !apply {
      return PurgeFileResult(dropped, false, false), file;
    }
    return PurgeFileResult(dropped, true, false), Some(Join(kept));
  }

  /** Is kept what remains of lines when the lines at some indexes are taken out? */
  ghost predicate IsSubsequence(kept: seq<Bytes>, lines: seq<Bytes>) {
    kept == [] ||
    (lines != [] && ((kept[0] == lines[0] && IsSubsequence(kept[1..], lines[1..])) || IsSubsequence(kept, lines[1..])))
  }

  lemma {:induction false} LaterSubsequence(kept: seq<Bytes>, lines: seq<Bytes>, k: nat)
    requires k <= |lines| && IsSubsequence(kept, lines[k..])
    ensures IsSubsequence(kept, lines)
    decreases k
  {
    if k == 0 {
      assert lines[0..] == lines;
    } else {
      assert lines[k..] == lines[1..][k - 1..];
      LaterSubsequence(kept, lines[1..], k - 1);
    }
  }

  /** What remains are some of the original lines, in order, and none of them holds a needle. */
  lemma {:induction false} KeptIsClean(d: Dictionary, shell: Shell, lines: seq<Bytes>)
    ensures var kept := Purged(d, shell, lines).0;
            && IsSubsequence(kept, lines)
            && forall i :: 0 <= i < |kept| ==> !Holds(d, kept[i]) && kept[i] in lines
    decreases |lines|
  {
    hide Holds;
    if lines != [] {
      var k := if Holds(d, lines[0]) && DropsNext(shell, lines) then 2 else 1;
      KeptIsClean(d, shell, lines[k..]);
      var kept := Purged(d, shell, lines[k..]).0;
      assert forall s :: s in lines[k..] ==> s in lines;
      if Holds(d, lines[0]) {
        LaterSubsequence(kept, lines, k);
      } else {
        assert ([lines[0]] + kept)[1..] == kept;
      }
    }
  }

  /** A line that holds no needle is kept, unless it is the timestamp of a command that was dropped. */
  lemma {:induction false} CleanLineKept(d: Dictionary, shell: Shell, lines: seq<Bytes>, i: nat)
    requires i < |lines| && !Holds(d, lines[i])
    requires shell == Fish && i > 0 && WHEN <= lines[i] ==> !Holds(d, lines[i - 1])
    ensures lines[i] in Purged(d, shell, lines).0
    decreases |lines|
  {
    hide Holds;
    var k := if Holds(d, lines[0]) && DropsNext(shell, lines) then 2 else 1;
    if i >= k {
      CleanLineKept(d, shell, lines[k..], i - k);
    }
  }

  /** Line i is dropped for a needle in it. */
  ghost predicate Dropped(d: Dictionary, shell: Shell, lines: seq<Bytes>, i: nat)
    requires i < |lines|
    decreases i, 1
  {
    Holds(d, lines[i]) && !GoesAlong(d, shell, lines, i)
  }

  /** Line i is dropped as the timestamp of the fish command in the line before. */
  ghost predicate GoesAlong(d: Dictionary, shell: Shell, lines: seq<Bytes>, i: nat)
    requires i < |lines|
    decreases i, 0
  {
    shell == Fish && i > 0 && Ascii("  when:") <= lines[i] && Dropped(d, shell, lines, i - 1)
  }

  /** The lines from index i on that are not dropped, and how many are dropped for a needle. */
  ghost function KeptFrom(d: Dictionary, shell: Shell, lines: seq<Bytes>, i: nat): (r: (seq<Bytes>, nat))
    requires i <= |lines|
    decreases |lines| - i
  {
    if i == |lines| then ([], 0)
    else
      var (kept, dropped) := KeptFrom(d, shell, lines, i + 1);
      if Dropped(d, shell, lines, i) then (kept, dropped + 1)
      else if GoesAlong(d, shell, lines, i) then (kept, dropped)
      else ([lines[i]] + kept, dropped)
  }

  /** Line by line: a purge takes out the lines with needles and the timestamps of those, and counts the former. */
  lemma PurgedMeans(d: Dictionary, shell: Shell, lines: seq<Bytes>)
    ensures Purged(d, shell, lines) == KeptFrom(d, shell, lines, 0)
  {
    PurgedFrom(d, shell, lines, 0);
    assert lines[0..] == lines;
  }

  lemma {:induction false} PurgedFrom(d: Dictionary, shell: Shell, lines: seq<Bytes>, i: nat)
    requires i <= |lines| && (i < |lines| ==> !GoesAlong(d, shell, lines, i))
    ensures Purged(d, shell, lines[i..]) == KeptFrom(d, shell, lines, i)
    decreases |lines| - i
  {
    hide Holds, Ascii;
    if i < |lines| {
      PurgedStep(d, shell, lines, i, []);
      var both := i + 1 < |lines| && GoesAlong(d, shell, lines, i + 1);
      PurgedFrom(d, shell, lines, if both then i + 2 else i + 1);
    }
  }

  lemma {:induction false} NothingToPurge(d: Dictionary, shell: Shell, lines: seq<Bytes>)
    requires forall i :: 0 <= i < |lines| ==> !Holds(d, lines[i])
    ensures Purged(d, shell, lines) == (lines, 0)
  {
    hide Holds;
    if lines != [] {
      NothingToPurge(d, shell, lines[1..]);
      assert lines == [lines[0]] + lines[1..];
    }
  }

  lemma EmptyHoldsNothing(d: Dictionary)
    ensures !Holds(d, [])
  {
    forall needle, at: nat | needle in d && needle != []
      ensures !OccursAt(needle, [], at)
    {
    }
  }

  /** Purging a purged history again drops no line and leaves it as it is. */
  lemma PurgingTwice(d: Dictionary, shell: Shell, text: Bytes)
    ensures var once := Join(Purged(d, shell, Split(text)).0);
            Purged(d, shell, Split(once)) == (Split(once), 0)
  {
    var kept := Purged(d, shell, Split(text)).0;
    KeptIsClean(d, shell, Split(text));
    SplitYieldsLines(text);
    SplitJoin(kept);
    EmptyHoldsNothing(d);
    NothingToPurge(d, shell, Split(Join(kept)));
  }

  /** No needle that fits on one line is left anywhere in a purged history. */
  lemma PurgedTextIsClean(d: Dictionary, shell: Shell, text: Bytes, needle: Bytes)
    requires needle in d && needle != [] && IsLine(needle)
    ensures !Occurs(needle, Join(Purged(d, shell, Split(text)).0))
  {
    var kept := Purged(d, shell, Split(text)).0;
    if at: nat :| OccursAt(needle, Join(kept), at) {
      var i := OccursInOneLine(kept, needle, at);
      KeptIsClean(d, shell, Split(text));
    }
  }
}
