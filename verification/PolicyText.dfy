/** Where an approved command goes in the text of the policy file (cmd/ironrun/review.go:227-255). */
module PolicyText {
  import opened Names
  import opened Options
  import opened Trimming

  /** The lines, each with its newline; what follows the last newline is the last line. */
  function SplitAfter(text: string): (lines: seq<string>)
    ensures lines != []
  {
    if text == "" then [""]
    else
      var rest := SplitAfter(text[1..]);
      if text[0] == '\n' then ["\n"] + rest else [[text[0]] + rest[0]] + rest[1..]
  }

  function Joined(lines: seq<string>): string {
    if lines == [] then "" else lines[0] + Joined(lines[1..])
  }

  lemma {:induction false} JoinedSplit(text: string)
    ensures Joined(SplitAfter(text)) == text
  {
    if text != "" {
      JoinedSplit(text[1..]);
    }
  }

  lemma Regroup(a: string, b: string, c: string)
    ensures a + (b + c) == a + b + c
  {
  }

  lemma {:induction false} JoinedParts(a: seq<string>, b: seq<string>)
    ensures Joined(a + b) == Joined(a) + Joined(b)
  {
    if a == [] {
      assert a + b == b;
    } else {
      JoinedParts(a[1..], b);
      assert (a + b)[1..] == a[1..] + b;
      Regroup(a[0], Joined(a[1..]), Joined(b));
    }
  }

  /** The line starts at the margin. */
  predicate AtMargin(line: string) {
    line != "" && line[0] != ' ' && line[0] != '\t'
  }

  predicate IsHeader(line: string) {
    AtMargin(line) && Trim(line) == "commands:"
  }

  predicate EndsSection(line: string) {
    AtMargin(line) && Trim(line) != ""
  }

  function HeaderAt(lines: seq<string>): (h: nat)
    ensures h <= |lines|
    ensures h < |lines| ==> IsHeader(lines[h])
    ensures forall j :: 0 <= j < h ==> !IsHeader(lines[j])
  {
    if lines == [] || IsHeader(lines[0]) then 0 else 1 + HeaderAt(lines[1..])
  }

  function SectionEnd(lines: seq<string>, from: nat): (e: nat)
    requires from <= |lines|
    ensures from <= e <= |lines|
    ensures e < |lines| ==> EndsSection(lines[e])
    ensures forall j :: from <= j < e ==> !EndsSection(lines[j])
    decreases |lines| - from
  {
    if from == |lines| || EndsSection(lines[from]) then from else SectionEnd(lines, from + 1)
  }

  /** The line before which the block goes: the first at the margin after the header. */
  function Place(lines: seq<string>): (e: Option<nat>)
    ensures e.Some? ==> 0 < e.value <= |lines|
  {
    var h := HeaderAt(lines);
    if h == |lines| then None else Some(SectionEnd(lines, h + 1))
  }

  function Ended(text: string): string {
    if text != "" && text[|text| - 1] == '\n' then text else text + "\n"
  }

  function Around(lines: seq<string>, e: nat, block: string): string
    requires e <= |lines|
  {
    Ended(Joined(lines[..e])) + Ended(block) + Joined(lines[e..])
  }

  /** The text with the block at the end of the commands section; None: there is no such section. */
  function Inserted(text: string, block: string): Option<string> {
    var lines := SplitAfter(text);
    match Place(lines)
    case None => None
    case Some(e) => Some(Around(lines, e, block))
  }

  method InsertCommandBlock(text: string, block: string) returns (r: Option<string>)
    ensures r == Inserted(text, block)
  {
    hide Trim, SplitAfter, Joined, HeaderAt, SectionEnd;
    var lines := SplitAfter(text);
    JoinedSplit(text);
    var offset, commandsEnd, insertAt := 0, -1, |text|;
    ghost var end := |lines|;
    assert lines[..|lines|] == lines && lines[..0] == [];
    NothingJoined();
    for i := 0 to |lines|
      invariant offset == |Joined(lines[..i])|
      invariant commandsEnd < 0 ==> HeaderAt(lines) >= i
      invariant commandsEnd >= 0 ==> HeaderAt(lines) < i && SectionEnd(lines, HeaderAt(lines) + 1) >= i
      invariant insertAt == |text| && end == |lines|
    {
      var line := lines[i];
      var trimmed := Trim(line);
      PrefixGrows(lines, i);
      if commandsEnd < 0 {
        if trimmed == "commands:" && |line| > 0 && line[0] != ' ' && line[0] != '\t' {
          commandsEnd := offset + |line|;
          assert HeaderAt(lines) == i;
        }
      } else if trimmed != "" && |line| > 0 && line[0] != ' ' && line[0] != '\t' {
        insertAt := offset;
        end := i;
        break;
      }
      offset := offset + |line|;
    }
    if commandsEnd < 0 {
      return None;
    }
    assert Place(lines) == Some(end);
    CutAt(lines, text, end);
    var before, after := text[..insertAt], text[insertAt..];
    if before == "" || before[|before| - 1] != '\n' {
      before := before + "\n";
    }
    var ended := block;
    if ended == "" || ended[|ended| - 1] != '\n' {
      ended := ended + "\n";
    }
    return Some(before + ended + after);
  }

  lemma NothingJoined()
    ensures Joined([]) == ""
  {
  }

  lemma PrefixGrows(lines: seq<string>, i: nat)
    requires i < |lines|
    ensures |Joined(lines[..i + 1])| == |Joined(lines[..i])| + |lines[i]|
  {
    assert lines[..i + 1] == lines[..i] + [lines[i]];
    JoinedParts(lines[..i], [lines[i]]);
  }

  lemma CutAt(lines: seq<string>, text: string, e: nat)
    requires e <= |lines| && Joined(lines) == text
    ensures |Joined(lines[..e])| <= |text|
    ensures text[..|Joined(lines[..e])|] == Joined(lines[..e]) && text[|Joined(lines[..e])|..] == Joined(lines[e..])
  {
    assert lines == lines[..e] + lines[e..];
    JoinedParts(lines[..e], lines[e..]);
  }

  // ----- Lines -----

  /** A line with its newline, and no other. */
  predicate IsFullLine(line: string) {
    line != "" && line[|line| - 1] == '\n' && forall k :: 0 <= k < |line| - 1 ==> line[k] != '\n'
  }

  predicate AllLines(lines: seq<string>) {
    forall k :: 0 <= k < |lines| ==> IsFullLine(lines[k])
  }

  predicate NoNewline(line: string) {
    forall k :: 0 <= k < |line| ==> line[k] != '\n'
  }

  lemma {:induction false} SplitIsLines(text: string, k: nat)
    requires k < |SplitAfter(text)|
    ensures if k < |SplitAfter(text)| - 1 then IsFullLine(SplitAfter(text)[k]) else NoNewline(SplitAfter(text)[k])
  {
    if text != "" {
      var rest := SplitAfter(text[1..]);
      if text[0] == '\n' && k > 0 {
        SplitIsLines(text[1..], k - 1);
      } else if text[0] != '\n' {
        SplitIsLines(text[1..], k);
      }
    }
  }

  /** A line in front of a text is its first line. */
  lemma {:induction false} SplitOneLine(line: string, text: string)
    requires IsFullLine(line)
    ensures SplitAfter(line + text) == [line] + SplitAfter(text)
  {
    assert (line + text)[1..] == line[1..] + text;
    if |line| == 1 {
      assert line == "\n" && line[1..] + text == text;
    } else {
      SplitOneLine(line[1..], text);
      var rest := SplitAfter(line[1..] + text);
      assert rest[0] == line[1..] && rest[1..] == SplitAfter(text);
      assert [line[0]] + line[1..] == line;
    }
  }

  lemma {:induction false} SplitLines(lines: seq<string>, text: string)
    requires AllLines(lines)
    ensures SplitAfter(Joined(lines) + text) == lines + SplitAfter(text)
  {
    hide SplitAfter, IsFullLine;
    if lines == [] {
      assert Joined(lines) + text == text;
    } else {
      SplitLines(lines[1..], text);
      SplitOneLine(lines[0], Joined(lines[1..]) + text);
      assert Joined(lines) + text == lines[0] + (Joined(lines[1..]) + text);
      assert lines == [lines[0]] + lines[1..];
    }
  }

  lemma TrimWithNewline(line: string)
    ensures Trim(line + "\n") == Trim(line)
  {
    TrimWithSpace(line, IsSpace, '\n');
  }

  // ----- Where the block lands -----

  /** The lines before the block: complete, with the header, and nothing at the margin after it. */
  predicate IsSection(lines: seq<string>) {
    AllLines(lines) && HeaderAt(lines) < |lines| && forall k :: HeaderAt(lines) < k < |lines| ==> !EndsSection(lines[k])
  }

  /** The text after the block: empty, or it starts with a line at the margin. */
  predicate IsRest(text: string) {
    text == "" || EndsSection(SplitAfter(text)[0])
  }

  lemma {:induction false} HeaderInFront(lines: seq<string>, more: seq<string>)
    requires HeaderAt(lines) < |lines|
    ensures HeaderAt(lines + more) == HeaderAt(lines)
  {
    if !IsHeader(lines[0]) {
      assert (lines + more)[1..] == lines[1..] + more;
      HeaderInFront(lines[1..], more);
    }
  }

  /** Between a section and the rest is where the block goes. */
  lemma InsertedBetween(section: seq<string>, rest: string, block: string)
    requires IsSection(section) && IsRest(rest)
    ensures Inserted(Joined(section) + rest, block) == Some(Joined(section) + Ended(block) + rest)
  {
    hide EndsSection, SplitAfter, HeaderAt, Joined, Ended, SectionEnd, IsSection, Place;
    SectionMeans(section);
    SplitLines(section, rest);
    EmptyIsNoEnd();
    var last := SplitAfter(rest);
    PlaceBetween(section, last);
    JoinedSplit(rest);
    SectionIsEnded(section);
    if rest == "" {
      assert (section + last)[..|section| + 1] == section + [""] && (section + last)[|section| + 1..] == [];
      JoinedParts(section, [""]);
      EmptyJoins();
      assert Joined(section) + "" == Joined(section);
      assert Around(section + last, |section| + 1, block) == Joined(section) + Ended(block) + "";
    } else {
      assert (section + last)[..|section|] == section && (section + last)[|section|..] == last;
      assert Around(section + last, |section|, block) == Joined(section) + Ended(block) + rest;
    }
  }

  lemma SectionMeans(section: seq<string>)
    requires IsSection(section)
    ensures AllLines(section) && section != []
  {
  }

  lemma PlaceBetween(section: seq<string>, last: seq<string>)
    requires IsSection(section) && last != [] && (last == [""] || EndsSection(last[0]))
    ensures Place(section + last) == Some(if last == [""] then |section| + 1 else |section|)
  {
    hide EndsSection, IsFullLine, Trim;
    var lines := section + last;
    HeaderInFront(section, last);
    var h := HeaderAt(section);
    var e := SectionEnd(lines, h + 1);
    assert forall k :: h < k < |section| ==> lines[k] == section[k];
    assert lines[|section|] == last[0];
    if last == [""] {
      EmptyIsNoEnd();
      assert e == |lines|;
    } else {
      assert EndsSection(last[0]);
      assert e == |section|;
    }
  }

  lemma EmptyIsNoEnd()
    ensures !EndsSection("") && SplitAfter("") == [""]
  {
  }

  lemma EmptyJoins()
    ensures Joined([""]) == "" && Joined([]) == ""
  {
  }

  lemma SectionIsEnded(lines: seq<string>)
    requires AllLines(lines) && lines != []
    ensures Ended(Joined(lines)) == Joined(lines)
  {
    var n := |lines| - 1;
    assert lines == lines[..n] + [lines[n]];
    JoinedParts(lines[..n], [lines[n]]);
    assert Joined([lines[n]]) == lines[n];
    assert IsFullLine(lines[n]);
  }

  /** Every text with a commands section is a section and a rest; at most the newline after its last line is missing. */
  lemma Sectioned(text: string, block: string) returns (section: seq<string>, rest: string)
    requires Place(SplitAfter(text)).Some?
    ensures IsSection(section) && IsRest(rest)
    ensures Joined(section) + rest == text || (rest == "" && Joined(section) == text + "\n")
    ensures Inserted(text, block) == Some(Joined(section) + Ended(block) + rest)
  {
    hide SplitAfter, Joined, Place, IsSection, Inserted, Ended;
    var lines := SplitAfter(text);
    var e := Place(lines).value;
    JoinedSplit(text);
    if e < |lines| {
      section, rest := SectionAbove(text, lines, e);
      InsertedBetween(section, rest, block);
    } else {
      section := SectionToEnd(text, lines, block);
      rest := "";
      assert Joined(section) + rest == Joined(section);
    }
  }

  lemma LineAt(text: string, k: nat)
    requires k < |SplitAfter(text)| - 1
    ensures IsFullLine(SplitAfter(text)[k])
  {
    SplitIsLines(text, k);
  }

  lemma HeadLines(text: string, e: nat)
    requires e < |SplitAfter(text)|
    ensures AllLines(SplitAfter(text)[..e])
  {
    hide SplitAfter, IsFullLine;
    forall k | 0 <= k < e ensures IsFullLine(SplitAfter(text)[..e][k]) {
      LineAt(text, k);
    }
  }

  lemma SectionAbove(text: string, lines: seq<string>, e: nat) returns (section: seq<string>, rest: string)
    requires lines == SplitAfter(text) && Joined(lines) == text && Place(lines) == Some(e) && e < |lines|
    ensures IsSection(section) && IsRest(rest) && Joined(section) + rest == text
  {
    hide SplitAfter, Joined, HeaderAt, SectionEnd, IsHeader, EndsSection, IsFullLine;
    section, rest := lines[..e], Joined(lines[e..]);
    HeadLines(text, e);
    CutAt(lines, text, e);
    assert text == Joined(section) + rest;
    SplitLines(section, rest);
    assert lines == section + lines[e..];
    assert SplitAfter(rest) == lines[e..];
    assert EndsSection(lines[e]);
    assert HeaderAt(section) == HeaderAt(lines) by { HeaderKept(lines, section); }
  }

  /** Lines that agree up to the header, and on it, have the same header. */
  lemma HeaderKept(lines: seq<string>, section: seq<string>)
    requires HeaderAt(lines) < |section| <= |lines|
    requires forall k :: 0 <= k <= HeaderAt(lines) ==> (IsHeader(section[k]) <==> IsHeader(lines[k]))
    requires HeaderAt(lines) < |lines|
    ensures HeaderAt(section) == HeaderAt(lines)
  {
    hide HeaderAt, IsHeader;
    assert IsHeader(section[HeaderAt(lines)]);
    assert forall k :: 0 <= k < HeaderAt(lines) ==> !IsHeader(section[k]);
  }

  lemma SectionToEnd(text: string, lines: seq<string>, block: string) returns (section: seq<string>)
    requires lines == SplitAfter(text) && Joined(lines) == text && Place(lines) == Some(|lines|)
    ensures IsSection(section) && (Joined(section) == text || Joined(section) == text + "\n")
    ensures Inserted(text, block) == Some(Joined(section) + Ended(block) + "")
  {
    hide SplitAfter, Joined, HeaderAt, SectionEnd, IsHeader, EndsSection, IsFullLine, Trim;
    var n := |lines| - 1;
    HeadLines(text, n);
    assert lines == lines[..n] + [lines[n]];
    JoinedParts(lines[..n], [lines[n]]);
    JoinedOne(lines[n]);
    EmptyIsNoEnd();
    EmptyJoins();
    assert lines[..|lines|] == lines && lines[|lines|..] == [];
    if lines[n] == "" {
      section := lines[..n];
      EmptyIsNoHeader();
      HeaderKept(lines, section);
      assert Joined(section) == text;
    } else {
      var last := lines[n] + "\n";
      section := lines[..n] + [last];
      LastCompleted(text, n);
      JoinedParts(lines[..n], [last]);
      JoinedOne(last);
      assert Joined(section) == text + "\n";
      HeaderKept(lines, section);
      assert forall k :: 0 <= k < n ==> section[k] == lines[k];
    }
    SectionMeans(section);
    SectionIsEnded(section);
    TextEnded(text, section);
  }

  lemma TextEnded(text: string, section: seq<string>)
    requires Ended(Joined(section)) == Joined(section)
    requires Joined(section) == text || (Joined(section) == text + "\n" && !(text != "" && text[|text| - 1] == '\n'))
    ensures Ended(text) == Joined(section)
  {
  }

  lemma JoinedOne(line: string)
    ensures Joined([line]) == line
  {
    assert line + "" == line;
  }

  lemma EmptyIsNoHeader()
    ensures !IsHeader("")
  {
  }

  /** Ending the last line changes nothing about it. */
  lemma LastCompleted(text: string, n: nat)
    requires n == |SplitAfter(text)| - 1 && SplitAfter(text)[n] != ""
    ensures var last := SplitAfter(text)[n];
            && IsFullLine(last + "\n")
            && (IsHeader(last + "\n") <==> IsHeader(last))
            && (EndsSection(last + "\n") <==> EndsSection(last))
    ensures text != "" && text[|text| - 1] != '\n'
  {
    hide SplitAfter, Trim;
    var lines := SplitAfter(text);
    SplitIsLines(text, n);
    TrimWithNewline(lines[n]);
    JoinedSplit(text);
    assert lines == lines[..n] + [lines[n]];
    JoinedParts(lines[..n], [lines[n]]);
    JoinedOne(lines[n]);
    assert text == Joined(lines[..n]) + lines[n];
  }

  /** A line below the header that belongs to it: indented, or empty. */
  predicate Belongs(line: string) {
    IsFullLine(line) && (line[0] == ' ' || line[0] == '\t' || line == "\n")
  }

  /** The block goes below the header and all that is indented below it, and above the first line that is not. */
  lemma BlockGoesLast(before: seq<string>, body: seq<string>, rest: string, block: string)
    requires forall k :: 0 <= k < |before| ==> IsFullLine(before[k]) && !IsHeader(before[k])
    requires forall k :: 0 <= k < |body| ==> Belongs(body[k])
    requires rest == "" || IsLetter(rest[0]) || rest[0] == '#'
    requires block != "" && block[|block| - 1] == '\n'
    ensures Inserted(Joined(before) + "commands:\n" + Joined(body) + rest, block)
         == Some(Joined(before) + "commands:\n" + Joined(body) + block + rest)
  {
    hide Trim, Joined, SplitAfter, IsHeader, EndsSection, Inserted, IsSpace, Place, HeaderAt, IsFullLine;
    var section := before + ["commands:\n"] + body;
    HeaderLine();
    HeaderIsThere(before, body);
    forall k | 0 <= k < |body| ensures IsFullLine(body[k]) && !EndsSection(body[k]) {
      BelongingEndsNothing(body[k]);
    }
    assert IsSection(section);
    JoinedParts(before + ["commands:\n"], body);
    JoinedParts(before, ["commands:\n"]);
    JoinedOne("commands:\n");
    VisibleRest(rest);
    InsertedBetween(section, rest, block);
  }

  lemma NothingToTrim(s: string)
    requires s != "" && !IsSpace(s[0]) && !IsSpace(s[|s| - 1])
    ensures Trim(s) == s
  {
    hide IsSpace;
  }

  lemma HeaderLine()
    ensures IsFullLine("commands:\n") && IsHeader("commands:\n")
  {
    hide Trim, IsSpace;
    var header := "commands:";
    VisibleAscii(header[0]);
    VisibleAscii(header[8]);
    NothingToTrim(header);
    TrimWithNewline(header);
    assert header + "\n" == "commands:\n";
  }

  lemma HeaderIsThere(before: seq<string>, body: seq<string>)
    requires forall k :: 0 <= k < |before| ==> !IsHeader(before[k])
    ensures HeaderAt(before + ["commands:\n"] + body) == |before|
  {
    hide IsHeader;
    HeaderLine();
    var section := before + ["commands:\n"] + body;
    assert section[|before|] == "commands:\n";
    assert forall k :: 0 <= k < |before| ==> section[k] == before[k];
  }

  lemma BelongingEndsNothing(line: string)
    requires Belongs(line)
    ensures IsFullLine(line) && !EndsSection(line)
  {
    hide IsSpace, Trim;
    if line == "\n" {
      BlankLine(line);
    }
  }

  lemma BlankLine(line: string)
    requires line == "\n"
    ensures Trim(line) == ""
  {
    TrimWithNewline("");
    assert "" + "\n" == line;
  }

  lemma VisibleRest(rest: string)
    requires rest == "" || IsLetter(rest[0]) || rest[0] == '#'
    ensures IsRest(rest)
  {
    if rest != "" {
      var line := SplitAfter(rest)[0];
      assert line != "" && line[0] == rest[0];
      VisibleIsNotBlank(line, 0);
    }
  }

  // ----- Approving twice -----

  /** A block whose lines are blank or indented, as rendered commands are. */
  predicate IsIndented(block: string) {
    forall k :: 0 <= k < |SplitAfter(Ended(block))| ==> !EndsSection(SplitAfter(Ended(block))[k])
  }

  /** Commands gather at the end of the section in the order of their approval, and the rest of the text stays. */
  lemma ApprovalsGather(text: string, first: string, second: string) returns (section: seq<string>, rest: string)
    requires Inserted(text, first).Some? && IsIndented(first)
    ensures Joined(section) + rest == text || (rest == "" && Joined(section) == text + "\n")
    ensures Inserted(text, first) == Some(Joined(section) + Ended(first) + rest)
    ensures Inserted(Inserted(text, first).value, second) == Some(Joined(section) + Ended(first) + Ended(second) + rest)
  {
    section, rest := Sectioned(text, first);
    var more := SectionWithBlock(section, first);
    InsertedBetween(more, rest, second);
  }

  lemma SectionWithBlock(section: seq<string>, block: string) returns (more: seq<string>)
    requires IsSection(section) && IsIndented(block)
    ensures IsSection(more) && Joined(more) == Joined(section) + Ended(block)
  {
    hide SplitAfter, Joined, HeaderAt, IsHeader, EndsSection, IsFullLine, Trim;
    var lines := SplitAfter(Ended(block));
    var n := |lines| - 1;
    LastIsEmpty(Ended(block));
    HeadLines(Ended(block), n);
    more := section + lines[..n];
    JoinedParts(section, lines[..n]);
    HeaderInFront(section, lines[..n]);
    assert forall k :: |section| <= k < |more| ==> more[k] == lines[k - |section|];
  }

  lemma LastIsEmpty(text: string)
    requires text != "" && text[|text| - 1] == '\n'
    ensures var lines := SplitAfter(text); lines[|lines| - 1] == "" && Joined(lines[..|lines| - 1]) == text
  {
    hide SplitAfter;
    var lines := SplitAfter(text);
    var n := |lines| - 1;
    SplitIsLines(text, n);
    JoinedSplit(text);
    assert lines == lines[..n] + [lines[n]];
    JoinedParts(lines[..n], [lines[n]]);
    JoinedOne(lines[n]);
    assert text == Joined(lines[..n]) + lines[n];
    LastOfBoth(Joined(lines[..n]), lines[n]);
  }

  lemma LastOfBoth(a: string, b: string)
    ensures b != "" ==> (a + b)[|a + b| - 1] == b[|b| - 1]
  {
  }
}
