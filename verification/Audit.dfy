/** The tamper-evident audit log (internal/audit/audit.go). */
module Audit {
  import opened ByteStrings
  import opened Lines
  import opened Options
  import opened Trimming

  const GENESIS: Bytes := Ascii(ZEROS + ZEROS + ZEROS + ZEROS)
  const ZEROS: string := "0000000000000000"
  const SCHEMA_VERSION: int := 1
  const WINDOW: nat := 65536
  const MAX_LINE: nat := 8388608

  /** A record; meta stands for all fields that the chain does not look at. */
  datatype Entry = Entry(meta: Bytes, schema: int, prevHash: Bytes, hash: Bytes)

  /** JSON and SHA-256, which are not part of this model; text is what JSON makes of a byte string. */
  datatype Codec = Codec(
    marshal: Entry -> Bytes, parse: Bytes -> Option<Entry>, text: Bytes -> Bytes, digest: Bytes -> Bytes)

  /** The record that is read back for e: bytes that are not UTF-8 have been replaced. */
  function AsText(c: Codec, e: Entry): Entry {
    e.(meta := c.text(e.meta), prevHash := c.text(e.prevHash), hash := c.text(e.hash))
  }

  /** The record is read back as it was written. */
  predicate IsText(c: Codec, e: Entry) {
    c.text(e.meta) == e.meta
  }

  /** ASCII white space. */
  predicate IsSpace(b: Byte) {
    b == 32 || 9 <= b <= 13
  }

  /**
   What is assumed of the codec. Reading back what was written replaces bytes that are not UTF-8, once
   and for all; a replaced byte is written differently from the character that replaces it. Digests are
   in hexadecimal. A proper suffix of a JSON object is not a JSON object.
   */
  ghost predicate Sound(c: Codec) {
    && (forall e :: c.parse(c.marshal(e)) == Some(AsText(c, e)))
    && (forall raw :: c.parse(raw).Some? ==> AsText(c, c.parse(raw).value) == c.parse(raw).value)
    && (forall e :: c.marshal(AsText(c, e)) == c.marshal(e) ==> AsText(c, e) == e)
    && (forall x :: c.text(c.digest(x)) == c.digest(x)) && c.text(GENESIS) == GENESIS && c.text([]) == []
    && (forall e :: IsLine(c.marshal(e)) && c.marshal(e) != []
          && !IsSpace(c.marshal(e)[0]) && !IsSpace(c.marshal(e)[|c.marshal(e)| - 1]))
    && (forall e, k :: 0 < k < |c.marshal(e)| ==> c.parse(c.marshal(e)[k..]) == None)
    && (forall x, y :: c.digest(x) == c.digest(y) ==> x == y)
    && (forall x :: c.digest(x) != GENESIS)
  }

  function ComputeHash(c: Codec, e: Entry): Bytes {
    c.digest(c.marshal(e.(hash := [])))
  }

  // ----- Verifying -----

  function TrimSpace(s: Bytes): Bytes {
    Trimmed(s, IsSpace)
  }

  datatype Verdict = Intact | BrokenAt(line: nat) | LineTooLong

  /** The lines that a scanner delivers: no empty piece after the last newline. */
  function ScannedLines(file: Bytes): seq<Bytes> {
    var lines := Split(file);
    if lines[|lines| - 1] == [] then lines[..|lines| - 1] else lines
  }

  /** Does a line continue the chain after prev? */
  predicate Continues(c: Codec, raw: Bytes, prev: Bytes) {
    match c.parse(raw)
    case None => false
    case Some(e) => e.prevHash == prev && ComputeHash(c, e) == e.hash
  }

  /** What verifying lines yields, given the hash before them and the number of lines seen. */
  function VerifyLines(c: Codec, lines: seq<Bytes>, prev: Bytes, seen: nat): Verdict
    decreases |lines|
  {
    if lines == [] then Intact
    else if |lines[0]| >= MAX_LINE then LineTooLong
    else
      var raw := TrimSpace(lines[0]);
      if raw == [] then VerifyLines(c, lines[1..], prev, seen + 1)
      else if !Continues(c, raw, prev) then BrokenAt(seen + 1)
      else VerifyLines(c, lines[1..], c.parse(raw).value.hash, seen + 1)
  }

  method Verify(c: Codec, file: Bytes) returns (verdict: Verdict)
    ensures verdict == VerifyLines(c, ScannedLines(file), GENESIS, 0)
  {
    var lines := ScannedLines(file);
    var prev, line := GENESIS, 0;
    assert lines[0..] == lines;
    while line < |lines|
      invariant line <= |lines|
      invariant VerifyLines(c, lines[line..], prev, line) == VerifyLines(c, lines, GENESIS, 0)
    {
      assert lines[line..][1..] == lines[line + 1..];
      if |lines[line]| >= MAX_LINE {
        return LineTooLong;
      }
      var raw := TrimSpace(lines[line]);
      line := line + 1;
      if raw == [] {
        continue;
      }
      var parsed := c.parse(raw);
      if parsed == None {
        return BrokenAt(line);
      }
      var e := parsed.value;
      if e.prevHash != prev || ComputeHash(c, e) != e.hash {
        return BrokenAt(line);
      }
      prev := e.hash;
    }
    return Intact;
  }

  // ----- Appending -----

  function DropNewlines(s: Bytes): Bytes {
    if s != [] && s[|s| - 1] == NL then DropNewlines(s[..|s| - 1]) else s
  }

  /** What stands after the last newline. */
  function AfterLastNewline(s: Bytes): Bytes {
    if s == [] || s[|s| - 1] == NL then [] else AfterLastNewline(s[..|s| - 1]) + [s[|s| - 1]]
  }

  /** The hash of the last record, found in the last WINDOW bytes alone. */
  function LastHash(c: Codec, file: Bytes): Option<Bytes> {
    if file == [] then Some(GENESIS)
    else
      var tail := file[Max(|file| - WINDOW, 0)..];
      match c.parse(AfterLastNewline(DropNewlines(tail)))
      case None => None
      case Some(e) => Some(e.hash)
  }

  /** The record that gets written for e after prev. */
  function Linked(c: Codec, e: Entry, prev: Bytes): Entry {
    var linked := e.(schema := SCHEMA_VERSION, prevHash := prev);
    linked.(hash := ComputeHash(c, linked))
  }

  class Logger {
    const c: Codec
    var f: Bytes

    constructor (c: Codec)
      ensures this.c == c && f == []
    {
      this.c := c;
      f := [];
    }

    /** Links e to the tail of the log; an unreadable tail leaves the log as it is. */
    method Append(e: Entry) returns (ok: bool)
      modifies this
      ensures f == Appended(c, old(f), e)
      ensures ok <==> LastHash(c, old(f)).Some?
    {
      var prev := LastHash(c, f);
      if prev == None {
        return false;
      }
      var linked := e.(schema := SCHEMA_VERSION, prevHash := prev.value);
      linked := linked.(hash := ComputeHash(c, linked));
      f := f + c.marshal(linked) + [NL];
      return true;
    }
  }

  /** The log after an attempt to append e. */
  function Appended(c: Codec, file: Bytes, e: Entry): Bytes {
    match LastHash(c, file)
    case None => file
    case Some(prev) => file + c.marshal(Linked(c, e, prev)) + [NL]
  }

  function AppendedAll(c: Codec, entries: seq<Entry>): Bytes {
    if entries == [] then [] else Appended(c, AppendedAll(c, entries[..|entries| - 1]), entries[|entries| - 1])
  }

  // ----- Chains -----

  /** The hash that the next record must carry on. */
  function EndHash(records: seq<Entry>): Bytes {
    if records == [] then GENESIS else records[|records| - 1].hash
  }

  /** Each record carries the hash of the one before it, and its own. */
  predicate IsChain(c: Codec, records: seq<Entry>) {
    records == [] ||
    var init, last := records[..|records| - 1], records[|records| - 1];
    IsChain(c, init) && last.prevHash == EndHash(init) && last.hash == ComputeHash(c, last)
  }

  /** The records that are read back for written ones. */
  function ReadBack(c: Codec, records: seq<Entry>): (read: seq<Entry>)
    ensures |read| == |records|
    ensures forall i :: 0 <= i < |read| ==> read[i] == AsText(c, records[i])
  {
    seq(|records|, i requires 0 <= i < |records| => AsText(c, records[i]))
  }

  predicate AllText(c: Codec, records: seq<Entry>) {
    forall i :: 0 <= i < |records| ==> IsText(c, records[i])
  }

  /** The hashes in a chain are hexadecimal. */
  lemma ChainHashes(c: Codec, records: seq<Entry>)
    requires Sound(c) && IsChain(c, records)
    ensures c.text(EndHash(records)) == EndHash(records)
    ensures records != [] ==> c.text(records[|records| - 1].prevHash) == records[|records| - 1].prevHash
  {
    if records != [] {
      var init := records[..|records| - 1];
      assert IsChain(c, init);
      if init != [] {
        assert init[|init| - 1].hash == ComputeHash(c, init[|init| - 1]);
      }
    }
  }

  lemma SealedAlike(c: Codec, x: Entry, y: Entry)
    requires Sound(c) && x.hash == y.hash && x.hash == ComputeHash(c, x) && y.hash == ComputeHash(c, y)
    requires c.text(x.prevHash) == x.prevHash && c.text(y.prevHash) == y.prevHash
    ensures AsText(c, x) == AsText(c, y) && x.prevHash == y.prevHash
  {
    var x', y' := x.(hash := []), y.(hash := []);
    assert c.parse(c.marshal(x')) == c.parse(c.marshal(y'));
    assert AsText(c, x') == AsText(c, y');
    assert AsText(c, x').prevHash == x.prevHash && AsText(c, y').prevHash == y.prevHash;
  }

  lemma LastLink(c: Codec, records: seq<Entry>)
    requires IsChain(c, records) && records != []
    ensures var init, last := records[..|records| - 1], records[|records| - 1];
            IsChain(c, init) && last.prevHash == EndHash(init) && last.hash == ComputeHash(c, last)
  {
  }

  lemma ReadBackSnoc(c: Codec, records: seq<Entry>, e: Entry)
    ensures ReadBack(c, records + [e]) == ReadBack(c, records) + [AsText(c, e)]
    ensures AllText(c, records + [e]) <==> AllText(c, records) && IsText(c, e)
  {
    var more := records + [e];
    assert more[|records|] == e && forall i :: 0 <= i < |records| ==> more[i] == records[i];
  }

  /** Two chains with the same last hash are read back the same, record by record. */
  lemma {:induction false} HistoryIsUnique(c: Codec, a: seq<Entry>, b: seq<Entry>)
    requires Sound(c) && IsChain(c, a) && IsChain(c, b) && EndHash(a) == EndHash(b)
    ensures ReadBack(c, a) == ReadBack(c, b)
  {
    hide Sound, ReadBack, AsText, ComputeHash, IsChain;
    if a != [] && b != [] {
      var a', x, b', y := a[..|a| - 1], a[|a| - 1], b[..|b| - 1], b[|b| - 1];
      ChainHashes(c, a);
      ChainHashes(c, b);
      LastLink(c, a);
      LastLink(c, b);
      SealedAlike(c, x, y);
      HistoryIsUnique(c, a', b');
      ReadBackSnoc(c, a', x);
      ReadBackSnoc(c, b', y);
      assert a == a' + [x] && b == b' + [y];
    } else {
      OnlyEmptyIsGenesis(c, a);
      OnlyEmptyIsGenesis(c, b);
    }
  }

  lemma OnlyEmptyIsGenesis(c: Codec, records: seq<Entry>)
    requires Sound(c) && IsChain(c, records)
    ensures EndHash(records) == GENESIS <==> records == []
  {
  }

  /** What is written as a chain is read back as a chain exactly when all of it is text. */
  lemma {:induction false} ReadBackChains(c: Codec, records: seq<Entry>)
    requires Sound(c) && IsChain(c, records)
    ensures IsChain(c, ReadBack(c, records)) <==> AllText(c, records)
    ensures EndHash(ReadBack(c, records)) == EndHash(records)
  {
    hide Sound, ReadBack, AsText, ComputeHash, IsText;
    if records == [] {
      assert ReadBack(c, records) == [];
    } else {
      var init, last := records[..|records| - 1], records[|records| - 1];
      assert records == init + [last];
      ReadBackChains(c, init);
      ReadBackSnoc(c, init, last);
      IsChainSnoc(c, ReadBack(c, init), AsText(c, last));
      ChainHashes(c, records);
      ChainHashes(c, init);
      SealSurvives(c, last);
    }
  }

  /** A sealed record is read back sealed exactly when it is text. */
  lemma SealSurvives(c: Codec, e: Entry)
    requires Sound(c) && e.hash == ComputeHash(c, e) && c.text(e.prevHash) == e.prevHash
    ensures var read := AsText(c, e);
            read.hash == e.hash && read.prevHash == e.prevHash && (read.hash == ComputeHash(c, read) <==> IsText(c, e))
  {
    var read, e' := AsText(c, e), e.(hash := []);
    assert read.hash == e.hash;
    assert read.(hash := []) == AsText(c, e');
  }

  /** The records on lines, blank lines aside. */
  function Records(c: Codec, lines: seq<Bytes>): seq<Entry> {
    if lines == [] then []
    else
      var before, raw := Records(c, lines[..|lines| - 1]), TrimSpace(lines[|lines| - 1]);
      if raw == [] || c.parse(raw) == None then before else before + [c.parse(raw).value]
  }

  /** Every line that is not blank parses. */
  predicate Readable(c: Codec, lines: seq<Bytes>) {
    forall i :: 0 <= i < |lines| ==> TrimSpace(lines[i]) == [] || c.parse(TrimSpace(lines[i])).Some?
  }

  predicate AllShort(lines: seq<Bytes>) {
    forall i :: 0 <= i < |lines| ==> |lines[i]| < MAX_LINE
  }

  /** Verifying one more line at the end. */
  lemma {:induction false} VerifySnoc(c: Codec, lines: seq<Bytes>, last: Bytes, prev: Bytes, seen: nat)
    ensures VerifyLines(c, lines + [last], prev, seen)
         == if VerifyLines(c, lines, prev, seen) != Intact then VerifyLines(c, lines, prev, seen)
            else VerifyLines(c, [last], EndFrom(c, lines, prev), seen + |lines|)
    decreases |lines|
  {
    if lines == [] {
      assert lines + [last] == [last];
    } else {
      assert (lines + [last])[1..] == lines[1..] + [last];
      var raw := TrimSpace(lines[0]);
      var hash := if raw == [] || c.parse(raw) == None then prev else c.parse(raw).value.hash;
      VerifySnoc(c, lines[1..], last, hash, seen + 1);
    }
  }

  /** The hash after replaying lines from prev. */
  function EndFrom(c: Codec, lines: seq<Bytes>, prev: Bytes): Bytes
    decreases |lines|
  {
    if lines == [] then prev
    else
      var raw := TrimSpace(lines[0]);
      EndFrom(c, lines[1..], if raw == [] || c.parse(raw) == None then prev else c.parse(raw).value.hash)
  }

  lemma {:induction false} EndFromSnoc(c: Codec, lines: seq<Bytes>, last: Bytes, prev: Bytes)
    ensures EndFrom(c, lines + [last], prev) == EndFrom(c, [last], EndFrom(c, lines, prev))
    decreases |lines|
  {
    if lines == [] {
      assert lines + [last] == [last];
    } else {
      assert (lines + [last])[1..] == lines[1..] + [last];
      var raw := TrimSpace(lines[0]);
      EndFromSnoc(c, lines[1..], last, if raw == [] || c.parse(raw) == None then prev else c.parse(raw).value.hash);
    }
  }

  lemma {:induction false} EndFromIsEndHash(c: Codec, lines: seq<Bytes>)
    ensures EndFrom(c, lines, GENESIS) == EndHash(Records(c, lines))
  {
    if lines != [] {
      var init, last := lines[..|lines| - 1], lines[|lines| - 1];
      EndFromIsEndHash(c, init);
      EndFromSnoc(c, init, last, GENESIS);
      assert lines == init + [last];
      assert [last][1..] == lines[..0];
    }
  }

  /** A log verifies as intact exactly when its lines are short enough, readable, and form a chain. */
  lemma {:induction false} IntactMeansChain(c: Codec, lines: seq<Bytes>)
    ensures VerifyLines(c, lines, GENESIS, 0) == Intact
       <==> AllShort(lines) && Readable(c, lines) && IsChain(c, Records(c, lines))
  {
    if lines == [] {
      EmptyIsIntact(c, lines);
    } else {
      var init, last := lines[..|lines| - 1], lines[|lines| - 1];
      assert lines == init + [last];
      hide *;
      IntactMeansChain(c, init);
      VerifySnoc(c, init, last, GENESIS, 0);
      EndFromIsEndHash(c, init);
      VerifyOne(c, last, EndHash(Records(c, init)), 0 + |init|);
      ChainSnoc(c, init, last);
    }
  }

  lemma EmptyIsIntact(c: Codec, lines: seq<Bytes>)
    requires lines == []
    ensures VerifyLines(c, lines, GENESIS, 0) == Intact
    ensures AllShort(lines) && Readable(c, lines) && IsChain(c, Records(c, lines))
  {
  }

  lemma VerifyOne(c: Codec, last: Bytes, prev: Bytes, seen: nat)
    ensures VerifyLines(c, [last], prev, seen) == Intact
       <==> |last| < MAX_LINE && (TrimSpace(last) == [] || Continues(c, TrimSpace(last), prev))
  {
  }

  lemma LinesSnoc(c: Codec, init: seq<Bytes>, last: Bytes)
    ensures AllShort(init + [last]) <==> AllShort(init) && |last| < MAX_LINE
    ensures Readable(c, init + [last])
        <==> Readable(c, init) && (TrimSpace(last) == [] || c.parse(TrimSpace(last)).Some?)
  {
    hide TrimSpace;
    var lines := init + [last];
    assert lines[|init|] == last;
    assert forall i :: 0 <= i < |init| ==> init[i] == lines[i];
  }

  lemma RecordsSnoc(c: Codec, init: seq<Bytes>, last: Bytes)
    ensures Records(c, init + [last])
         == Records(c, init)
            + if TrimSpace(last) == [] || c.parse(TrimSpace(last)) == None then [] else [c.parse(TrimSpace(last)).value]
  {
    assert (init + [last])[..|init|] == init;
  }

  lemma IsChainSnoc(c: Codec, records: seq<Entry>, e: Entry)
    ensures IsChain(c, records + [e])
       <==> IsChain(c, records) && e.prevHash == EndHash(records) && e.hash == ComputeHash(c, e)
  {
    assert (records + [e])[..|records|] == records;
  }

  lemma ChainSnoc(c: Codec, init: seq<Bytes>, last: Bytes)
    ensures AllShort(init + [last]) <==> AllShort(init) && |last| < MAX_LINE
    ensures Readable(c, init + [last]) && IsChain(c, Records(c, init + [last]))
       <==> && Readable(c, init) && IsChain(c, Records(c, init))
            && (TrimSpace(last) == [] || Continues(c, TrimSpace(last), EndHash(Records(c, init))))
  {
    hide TrimSpace, ComputeHash, Records, IsChain, Readable, AllShort, EndHash;
    LinesSnoc(c, init, last);
    RecordsSnoc(c, init, last);
    var raw, records := TrimSpace(last), Records(c, init);
    if raw != [] && c.parse(raw).Some? {
      IsChainSnoc(c, records, c.parse(raw).value);
    } else {
      assert records + [] == records;
    }
  }

  /** Two intact logs whose replays end in the same hash hold the same records. */
  lemma IntactLogsAgree(c: Codec, a: Bytes, b: Bytes)
    requires Sound(c)
    requires VerifyLines(c, ScannedLines(a), GENESIS, 0) == Intact == VerifyLines(c, ScannedLines(b), GENESIS, 0)
    requires EndFrom(c, ScannedLines(a), GENESIS) == EndFrom(c, ScannedLines(b), GENESIS)
    ensures Records(c, ScannedLines(a)) == Records(c, ScannedLines(b))
  {
    hide ScannedLines, VerifyLines, EndFrom, Records, IsChain, EndHash;
    IntactMeansChain(c, ScannedLines(a));
    IntactMeansChain(c, ScannedLines(b));
    EndFromIsEndHash(c, ScannedLines(a));
    EndFromIsEndHash(c, ScannedLines(b));
    HistoryIsUnique(c, Records(c, ScannedLines(a)), Records(c, ScannedLines(b)));
    RecordsAreText(c, ScannedLines(a));
    RecordsAreText(c, ScannedLines(b));
  }

  /** Reading back what was read changes nothing. */
  lemma {:induction false} RecordsAreText(c: Codec, lines: seq<Bytes>)
    requires Sound(c)
    ensures ReadBack(c, Records(c, lines)) == Records(c, lines)
  {
    hide TrimSpace, ReadBack, AsText;
    if lines == [] {
      assert ReadBack(c, []) == [];
    } else {
      var init, last := lines[..|lines| - 1], lines[|lines| - 1];
      assert lines == init + [last];
      RecordsAreText(c, init);
      RecordsSnoc(c, init, last);
      var raw := TrimSpace(last);
      if raw != [] && c.parse(raw).Some? {
        ReadBackSnoc(c, Records(c, init), c.parse(raw).value);
      }
    }
  }

  // ----- What a verdict means -----

  /** The lines are short enough, readable, and form a chain. */
  ghost predicate IsLog(c: Codec, lines: seq<Bytes>) {
    AllShort(lines) && Readable(c, lines) && IsChain(c, Records(c, lines))
  }

  /** A log is broken at line n exactly when n is the first line with which it is no chain any more. */
  lemma {:induction false} BrokenMeans(c: Codec, lines: seq<Bytes>, n: nat)
    ensures VerifyLines(c, lines, GENESIS, 0) == BrokenAt(n)
       <==> && 1 <= n <= |lines| && IsLog(c, lines[..n - 1])
            && |lines[n - 1]| < MAX_LINE && !IsLog(c, lines[..n])
  {
    hide IsLog, EndFrom;
    if lines != [] {
      var init, last := lines[..|lines| - 1], lines[|lines| - 1];
      assert lines == init + [last];
      BrokenMeans(c, init, n);
      IntactIsLog(c, init);
      IntactIsLog(c, lines);
      VerifySnoc(c, init, last, GENESIS, 0);
      LastVerdict(c, last, EndFrom(c, init, GENESIS), |init|);
      assert lines[..|lines|] == lines;
      if 1 <= n <= |init| {
        assert init[..n] == lines[..n] && init[..n - 1] == lines[..n - 1];
      }
    }
  }

  lemma IntactIsLog(c: Codec, lines: seq<Bytes>)
    ensures VerifyLines(c, lines, GENESIS, 0) == Intact <==> IsLog(c, lines)
  {
    hide VerifyLines, AllShort, Readable, IsChain, Records;
    IntactMeansChain(c, lines);
  }

  lemma LastVerdict(c: Codec, last: Bytes, prev: Bytes, seen: nat)
    ensures var verdict := VerifyLines(c, [last], prev, seen);
            (verdict == LineTooLong <==> |last| >= MAX_LINE) && (verdict.BrokenAt? ==> verdict.line == seen + 1)
  {
  }

  // ----- Logs as Append writes them -----

  function Marshalled(c: Codec, records: seq<Entry>): (lines: seq<Bytes>)
    ensures |lines| == |records|
  {
    seq(|records|, i requires 0 <= i < |records| => c.marshal(records[i]))
  }

  /** The file is the records, one to a line. */
  ghost predicate Holds(c: Codec, file: Bytes, records: seq<Entry>) {
    file == Terminated(Marshalled(c, records))
  }

  /** The line of the last record, with its newline, fits the window. */
  predicate LastFits(c: Codec, records: seq<Entry>) {
    records == [] || |c.marshal(records[|records| - 1])| + 1 <= WINDOW
  }

  lemma {:induction false} TrimsToItself(s: Bytes)
    requires s != [] && !IsSpace(s[0]) && !IsSpace(s[|s| - 1])
    ensures TrimSpace(s) == s
  {
  }

  lemma {:induction false} LineBehindNewline(pre: Bytes, line: Bytes)
    requires IsLine(line)
    ensures AfterLastNewline(pre + [NL] + line) == line
    ensures AfterLastNewline(line) == line
  {
    var s := pre + [NL] + line;
    if line == [] {
      assert s == pre + [NL];
    } else {
      var init, last := line[..|line| - 1], line[|line| - 1];
      LineBehindNewline(pre, init);
      assert s[..|s| - 1] == pre + [NL] + init;
      assert line == init + [last];
    }
  }

  lemma DropOne(cut: Bytes)
    requires cut != [] && cut[|cut| - 1] != NL
    ensures DropNewlines(cut + [NL]) == cut
  {
    assert (cut + [NL])[..|cut|] == cut;
  }

  /** A window that reaches back before the line ends with the line; a shorter one cuts it. */
  lemma LineInWindow(pre: Bytes, line: Bytes, start: nat)
    requires IsLine(line) && (pre == [] || pre[|pre| - 1] == NL) && start <= |pre| + |line|
    ensures AfterLastNewline((pre + line)[start..]) == if start <= |pre| then line else line[start - |pre|..]
  {
    if start < |pre| {
      var head := pre[start..|pre| - 1];
      assert (pre + line)[start..] == head + [NL] + line;
      LineBehindNewline(head, line);
    } else {
      assert (pre + line)[start..] == line[start - |pre|..];
      LineBehindNewline([], line[start - |pre|..]);
    }
  }

  lemma CutEnds(pre: Bytes, line: Bytes, start: nat)
    requires IsLine(line) && start < |pre| + |line| && line != []
    ensures (pre + line)[start..] != [] && (pre + line)[start..][|pre| + |line| - start - 1] != NL
  {
    assert line[|line| - 1] in line;
  }

  /** The last record alone decides what the tail reader sees. */
  lemma TailReader(c: Codec, pre: Bytes, line: Bytes)
    requires IsLine(line) && line != [] && (pre == [] || pre[|pre| - 1] == NL)
    ensures var seen := if |line| + 1 <= WINDOW then line else line[|line| + 1 - WINDOW..];
            LastHash(c, pre + line + [NL]) == match c.parse(seen) case None => None case Some(e) => Some(e.hash)
  {
    var file := pre + line + [NL];
    var start := Max(|file| - WINDOW, 0);
    var cut := (pre + line)[start..];
    hide DropNewlines, AfterLastNewline;
    ConcatSplit(pre + line, [NL], start);
    CutEnds(pre, line, start);
    DropOne(cut);
    LineInWindow(pre, line, start);
  }

  lemma MarshalledSnoc(c: Codec, records: seq<Entry>, e: Entry)
    ensures Marshalled(c, records + [e]) == Marshalled(c, records) + [c.marshal(e)]
    ensures Terminated(Marshalled(c, records + [e])) == Terminated(Marshalled(c, records)) + c.marshal(e) + [NL]
  {
    assert Marshalled(c, records + [e]) == Marshalled(c, records) + [c.marshal(e)];
    TerminatedConcat(Marshalled(c, records), [c.marshal(e)]);
    assert [c.marshal(e)][1..] == [];
    Associate(Terminated(Marshalled(c, records)), c.marshal(e), [NL]);
  }

  lemma {:induction false} TerminatedEnds(lines: seq<Bytes>)
    requires lines != []
    ensures Terminated(lines) != [] && Terminated(lines)[|Terminated(lines)| - 1] == NL
  {
    if |lines| > 1 {
      TerminatedEnds(lines[1..]);
    }
  }

  /** The tail reader finds the hash of the last record exactly when that record's line fits the window. */
  lemma TailReaderIsExact(c: Codec, file: Bytes, records: seq<Entry>)
    requires Sound(c) && Holds(c, file, records) && IsChain(c, records)
    ensures LastHash(c, file) == if LastFits(c, records) then Some(EndHash(records)) else None
  {
    hide LastHash, Marshalled, Terminated;
    ChainHashes(c, records);
    if records == [] {
      NothingWritten(c);
    } else {
      var init, last := records[..|records| - 1], records[|records| - 1];
      assert records == init + [last];
      MarshalledSnoc(c, init, last);
      MarshalledEnds(c, init);
      TailReader(c, Terminated(Marshalled(c, init)), c.marshal(last));
      SeenOfLast(c, last);
    }
  }

  lemma NothingWritten(c: Codec)
    ensures Terminated(Marshalled(c, [])) == [] && LastHash(c, []) == Some(GENESIS)
  {
  }

  lemma MarshalledEnds(c: Codec, records: seq<Entry>)
    ensures var text := Terminated(Marshalled(c, records)); text == [] || text[|text| - 1] == NL
  {
    if records != [] {
      TerminatedEnds(Marshalled(c, records));
    }
  }

  /** The window shows the last record, or a part of it that cannot be read. */
  lemma SeenOfLast(c: Codec, last: Entry)
    requires Sound(c)
    ensures var line := c.marshal(last);
            if |line| + 1 <= WINDOW then c.parse(line) == Some(AsText(c, last))
            else c.parse(line[|line| + 1 - WINDOW..]) == None
  {
  }

  /** Replaying a written log yields its records as they are read back. */
  lemma {:induction false} RecordsOfWritten(c: Codec, records: seq<Entry>)
    requires Sound(c)
    ensures Records(c, Marshalled(c, records)) == ReadBack(c, records)
    ensures Readable(c, Marshalled(c, records))
  {
    hide Sound, ReadBack, AsText, Marshalled, Records, Readable;
    if records == [] {
      NothingRead(c);
    } else {
      var init, last := records[..|records| - 1], records[|records| - 1];
      assert records == init + [last];
      RecordsOfWritten(c, init);
      MarshalledSnoc(c, init, last);
      ReadBackSnoc(c, init, last);
      LineOfRecord(c, last);
      RecordsSnoc(c, Marshalled(c, init), c.marshal(last));
      LinesSnoc(c, Marshalled(c, init), c.marshal(last));
    }
  }

  lemma NothingRead(c: Codec)
    ensures Marshalled(c, []) == [] && Records(c, []) == [] && ReadBack(c, []) == [] && Readable(c, [])
  {
  }

  lemma LineOfRecord(c: Codec, e: Entry)
    requires Sound(c)
    ensures TrimSpace(c.marshal(e)) == c.marshal(e) != [] && c.parse(c.marshal(e)) == Some(AsText(c, e))
  {
    TrimsToItself(c.marshal(e));
  }

  lemma WrittenLines(c: Codec, file: Bytes, records: seq<Entry>)
    requires Sound(c) && Holds(c, file, records)
    ensures ScannedLines(file) == Marshalled(c, records)
  {
    var lines := Marshalled(c, records);
    SplitTerminated(lines);
    assert (lines + [[]])[..|lines|] == lines;
  }

  /**
   A written log that is a chain verifies as intact exactly when all its lines are within the scanner's
   limit and all its records are text.
   */
  lemma ChainVerifies(c: Codec, file: Bytes, records: seq<Entry>)
    requires Sound(c) && Holds(c, file, records) && IsChain(c, records)
    ensures VerifyLines(c, ScannedLines(file), GENESIS, 0) == Intact
       <==> AllShort(Marshalled(c, records)) && AllText(c, records)
  {
    hide *;
    WrittenLines(c, file, records);
    RecordsOfWritten(c, records);
    IntactMeansChain(c, Marshalled(c, records));
    ReadBackChains(c, records);
  }

  /** When the lines are within the limit, the log is reported as broken at its first record that is not text. */
  lemma ChainBreaks(c: Codec, file: Bytes, records: seq<Entry>, n: nat)
    requires Sound(c) && Holds(c, file, records) && IsChain(c, records) && AllShort(Marshalled(c, records))
    ensures VerifyLines(c, ScannedLines(file), GENESIS, 0) == BrokenAt(n)
       <==> 1 <= n <= |records| && AllText(c, records[..n - 1]) && !IsText(c, records[n - 1])
  {
    hide Sound, IsText, ComputeHash, VerifyLines, ScannedLines, IsChain, IsLog;
    WrittenLines(c, file, records);
    BrokenMeans(c, Marshalled(c, records), n);
    if 1 <= n <= |records| {
      WrittenPrefix(c, records, n - 1);
      WrittenPrefix(c, records, n);
      assert records[..n] == records[..n - 1] + [records[n - 1]];
      ReadBackSnoc(c, records[..n - 1], records[n - 1]);
    }
  }

  lemma WrittenPrefix(c: Codec, records: seq<Entry>, n: nat)
    requires Sound(c) && n <= |records| && IsChain(c, records) && AllShort(Marshalled(c, records))
    ensures IsLog(c, Marshalled(c, records)[..n]) <==> AllText(c, records[..n])
  {
    hide Sound, IsText, ComputeHash, IsChain, Records, Readable;
    var prefix := records[..n];
    assert Marshalled(c, records)[..n] == Marshalled(c, prefix);
    ChainPrefix(c, records, n);
    RecordsOfWritten(c, prefix);
    ReadBackChains(c, prefix);
  }

  lemma {:induction false} ChainPrefix(c: Codec, records: seq<Entry>, n: nat)
    requires n <= |records| && IsChain(c, records)
    ensures IsChain(c, records[..n])
  {
    if n < |records| {
      var init := records[..|records| - 1];
      ChainPrefix(c, init, n);
      assert init[..n] == records[..n];
    } else {
      assert records[..n] == records;
    }
  }

  /** One more append to a written chain extends it by the linked record, or, if the tail is unreadable, not at all. */
  lemma AppendExtends(c: Codec, file: Bytes, records: seq<Entry>, e: Entry)
    requires Sound(c) && Holds(c, file, records) && IsChain(c, records)
    ensures var more := if LastFits(c, records) then records + [Linked(c, e, EndHash(records))] else records;
            Holds(c, Appended(c, file, e), more) && IsChain(c, more)
  {
    hide LastHash, IsChain, Marshalled, Terminated, Sound, ComputeHash;
    TailReaderIsExact(c, file, records);
    if LastFits(c, records) {
      var linked := Linked(c, e, EndHash(records));
      MarshalledSnoc(c, records, linked);
      LinkedIsSealed(c, e, EndHash(records));
      IsChainSnoc(c, records, linked);
    }
  }

  lemma LinkedIsSealed(c: Codec, e: Entry, prev: Bytes)
    ensures Linked(c, e, prev).prevHash == prev
    ensures Linked(c, e, prev).hash == ComputeHash(c, Linked(c, e, prev))
  {
    var linked := e.(schema := SCHEMA_VERSION, prevHash := prev);
    assert Linked(c, e, prev).(hash := []) == linked.(hash := []);
  }

  /** The records in a log after appends from an empty one. */
  function WrittenBy(c: Codec, entries: seq<Entry>): seq<Entry> {
    if entries == [] then []
    else
      var records, e := WrittenBy(c, entries[..|entries| - 1]), entries[|entries| - 1];
      if LastFits(c, records) then records + [Linked(c, e, EndHash(records))] else records
  }

  /** The record as it must be at its place in a log: the entry's own content, linked to the record before it. */
  predicate RecordsAt(c: Codec, records: seq<Entry>, i: nat, e: Entry)
    requires i < |records|
  {
    var r := records[i];
    && r.meta == e.meta && r.schema == 1
    && r.prevHash == (if i == 0 then seq(64, _ => '0' as int) else records[i - 1].hash)
    && r.hash == c.digest(c.marshal(Entry(e.meta, 1, r.prevHash, [])))
  }

  /** The log has the entries in the order of the appends, and stops only behind a line too long for the tail reader. */
  lemma {:induction false} EntriesAreWritten(c: Codec, entries: seq<Entry>)
    ensures var records := WrittenBy(c, entries);
            && |records| <= |entries|
            && (forall i :: 0 <= i < |records| ==> RecordsAt(c, records, i, entries[i]))
            && (|records| < |entries| ==>
                  records != [] && |c.marshal(records[|records| - 1])| + 1 > 65536)
  {
    hide RecordsAt, Linked;
    if entries != [] {
      var before := entries[..|entries| - 1];
      EntriesAreWritten(c, before);
      var records := WrittenBy(c, before);
      var linked := Linked(c, entries[|entries| - 1], EndHash(records));
      NewRecordAt(c, records, entries[|entries| - 1]);
      forall i | 0 <= i < |records| ensures RecordsAt(c, records + [linked], i, entries[i]) {
        assert RecordsAt(c, records, i, before[i]);
        StaysAt(c, records, linked, i, entries[i]);
      }
    }
  }

  lemma NewRecordAt(c: Codec, records: seq<Entry>, e: Entry)
    ensures RecordsAt(c, records + [Linked(c, e, EndHash(records))], |records|, e)
  {
    GenesisIsZeros();
    var linked := Linked(c, e, EndHash(records));
    assert linked.(hash := []) == Entry(linked.meta, 1, linked.prevHash, []);
  }

  lemma StaysAt(c: Codec, records: seq<Entry>, more: Entry, i: nat, e: Entry)
    requires i < |records| && RecordsAt(c, records, i, e)
    ensures RecordsAt(c, records + [more], i, e)
  {
  }

  lemma GenesisIsZeros()
    ensures GENESIS == seq(64, _ => '0' as int)
  {
    assert forall i :: 0 <= i < 16 ==> ZEROS[i] == '0';
    hide ZEROS;
  }

  /**
   Any sequence of appends to an empty log writes a chain, which verifies as intact exactly when every
   line is within the scanner's limit and every record is text.
   */
  lemma {:induction false} AppendsVerify(c: Codec, entries: seq<Entry>)
    requires Sound(c)
    ensures var file, records := AppendedAll(c, entries), WrittenBy(c, entries);
            && Holds(c, file, records) && IsChain(c, records)
            && (VerifyLines(c, ScannedLines(file), GENESIS, 0) == Intact
                <==> AllShort(Marshalled(c, records)) && AllText(c, records))
  {
    hide VerifyLines, ScannedLines, AllShort, AllText, Sound;
    if entries != [] {
      var before := entries[..|entries| - 1];
      AppendsVerify(c, before);
      AppendExtends(c, AppendedAll(c, before), WrittenBy(c, before), entries[|entries| - 1]);
    } else {
      assert Marshalled(c, []) == [];
    }
    ChainVerifies(c, AppendedAll(c, entries), WrittenBy(c, entries));
  }

  /** One append of a record that is not text is enough to break a log. */
  lemma OneAppendBreaks(c: Codec, e: Entry)
    requires Sound(c) && !IsText(c, e) && |c.marshal(Linked(c, e, GENESIS))| < MAX_LINE
    ensures VerifyLines(c, ScannedLines(Appended(c, [], e)), GENESIS, 0) == BrokenAt(1)
  {
    hide Sound, ComputeHash, VerifyLines, ScannedLines, Appended;
    NothingWritten(c);
    AppendExtends(c, [], [], e);
    var records := [Linked(c, e, GENESIS)];
    assert [] + records == records && records[..0] == [];
    ChainBreaks(c, Appended(c, [], e), records, 1);
  }
}
