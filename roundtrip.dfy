/**
 * What `git log` prints for the custom format, and the round trip through the decoder:
 * when no value collides with the separators or the sentinels, cutting the rendered log
 * into commits and decoding each one gives back every field value and the name-status
 * lines' statuses and paths.
 */
module RoundTrip {
  import opened Wrappers
  import opened Text
  import opened Protocol
  import opened DecodeFacts

  /** One line of `--name-status` output: a status such as `M` or `R100`, and its paths. */
  datatype Change = Change(status: string, paths: seq<string>)

  /**
   * What git prints for one commit: the values of the requested fields, the number of
   * newlines before the name-status block, and the block's lines.
   */
  datatype LogEntry = LogEntry(values: seq<string>, gap: nat, changes: seq<Change>)

  /** The placeholder part of the format, expanded: a tab before each value. */
  function RenderFixed(values: seq<string>): string {
    Join([""] + values, Delimiter)
  }

  function RenderLine(c: Change): string {
    Join([c.status] + c.paths, Delimiter)
  }

  function Lines(changes: seq<Change>): (lines: seq<string>)
    ensures |lines| == |changes|
  {
    seq(|changes|, i requires 0 <= i < |changes| => RenderLine(changes[i]))
  }

  function Blank(g: nat): (b: seq<string>)
    ensures |b| == g
  {
    seq(g, _ => "")
  }

  /** `gap` newlines, then each name-status line followed by a newline. */
  function RenderBlock(gap: nat, changes: seq<Change>): string {
    Join(Blank(gap) + Lines(changes) + [""], "\n")
  }

  function RenderEntry(e: LogEntry): string {
    RenderFixed(e.values) + EndMarker + RenderBlock(e.gap, e.changes)
  }

  function RenderEntries(entries: seq<LogEntry>): (chunks: seq<string>)
    ensures |chunks| == |entries|
  {
    seq(|entries|, i requires 0 <= i < |entries| => RenderEntry(entries[i]))
  }

  /** The whole captured output: `@begin@` before every commit. */
  function RenderLog(entries: seq<LogEntry>): string {
    Join([""] + RenderEntries(entries), BeginMarker)
  }

  /** The split lines the decoder should see for a block. */
  function Items(changes: seq<Change>): (items: seq<seq<string>>)
    ensures |items| == |changes| && NonEmptyItems(items)
  {
    seq(|changes|, i requires 0 <= i < |changes| => [changes[i].status] + changes[i].paths)
  }

  // ---------------------------------------------------------------------------
  // When the format is unambiguous

  /** A value that contains neither the field separator nor a sentinel. */
  predicate Plain(v: string) {
    '\t' !in v && !Contains(v, EndMarker) && !Contains(v, BeginMarker)
  }

  /** A status or path: plain, and on one line. */
  predicate PlainWord(v: string) {
    Plain(v) && '\n' !in v
  }

  predicate WellFormedChange(c: Change) {
    && PlainWord(c.status) && c.status != [] && !IsSpace(c.status[0])
    && (forall j :: 0 <= j < |c.paths| ==> PlainWord(c.paths[j]))
  }

  /**
   * The values are plain and the last one does not end with a sentinel minus its closing
   * `@` (which would make the sentinel that follows it match one character early), and a
   * non-empty block is separated from the values by at least one newline.
   */
  predicate WellFormed(e: LogEntry) {
    && (forall i :: 0 <= i < |e.values| ==> Plain(e.values[i]))
    && (e.values != [] ==> !EndsWith(e.values[|e.values| - 1], "@end") && !EndsWith(e.values[|e.values| - 1], "@begin"))
    && (forall i :: 0 <= i < |e.changes| ==> WellFormedChange(e.changes[i]))
    && (e.changes != [] ==> e.gap >= 1)
  }

  /** What the decoded record of an entry should be. */
  predicate Decodes(r: Commit, e: LogEntry, fields: seq<string>, nameStatus: bool)
    requires |e.values| == |fields|
  {
    var items := Items(e.changes);
    && r.Keys == (set f | f in fields) + (if nameStatus then NameStatusFields else {})
    && (forall i :: 0 <= i < |fields| && LastAt(fields, i, |fields|) ==> fields[i] in r && r[fields[i]] == Str(e.values[i]))
    && (nameStatus ==> r["status"] == List(Statuses(items)) && r["files"] == List(Files(items)))
  }

  // ---------------------------------------------------------------------------
  // The fixed values

  lemma FixedSplits(values: seq<string>)
    requires forall i :: 0 <= i < |values| ==> '\t' !in values[i]
    ensures Split(RenderFixed(values), Delimiter) == [""] + values
  {
    SplitJoinChar([""] + values, '\t');
  }

  /** The values part is cut cleanly by the `@end@` that follows it. */
  lemma FixedEndsCleanly(e: LogEntry, sentinel: string)
    requires WellFormed(e)
    requires sentinel == EndMarker || sentinel == BeginMarker
    ensures !Contains(RenderFixed(e.values), sentinel)
    ensures !EndsWith(RenderFixed(e.values), sentinel[..|sentinel| - 1])
  {
    var parts := [""] + e.values;
    assert '\t' !in sentinel;
    forall i | 0 <= i < |parts| ensures !Contains(parts[i], sentinel) {
      if i == 0 {
        assert forall k :: !IsAt("", sentinel, k);
      }
    }
    NoMatchInJoin(parts, '\t', sentinel);
    if e.values != [] {
      var last := e.values[|e.values| - 1];
      JoinSnoc(parts[..|parts| - 1], Delimiter, last);
      assert parts[..|parts| - 1] + [last] == parts;
      EndsWithAfterBreak(Join(parts[..|parts| - 1], Delimiter), '\t', last, sentinel[..|sentinel| - 1]);
      assert sentinel[..|sentinel| - 1] == "@end" || sentinel[..|sentinel| - 1] == "@begin";
    }
  }

  // ---------------------------------------------------------------------------
  // The name-status block

  lemma {:induction false} BlankJoin(g: nat, rest: seq<string>)
    requires |rest| >= 1
    ensures Join(Blank(g) + rest, "\n") == seq(g, _ => '\n') + Join(rest, "\n")
  {
    if g > 0 {
      BlankJoin(g - 1, rest);
      assert Blank(g) + rest == [""] + (Blank(g - 1) + rest);
      assert seq(g, _ => '\n') == "\n" + seq(g - 1, _ => '\n');
    } else {
      assert Blank(0) + rest == rest;
    }
  }

  lemma LineSplits(c: Change)
    requires WellFormedChange(c)
    ensures Split(RenderLine(c), Delimiter) == [c.status] + c.paths
    ensures '\n' !in RenderLine(c)
    ensures !Contains(RenderLine(c), EndMarker) && !Contains(RenderLine(c), BeginMarker)
  {
    var parts := [c.status] + c.paths;
    assert forall i :: 0 <= i < |parts| ==> PlainWord(parts[i]);
    SplitJoinChar(parts, '\t');
    CharNotInJoin(parts, '\t', '\n');
    assert '\t' !in EndMarker && '\t' !in BeginMarker;
    NoMatchInJoin(parts, '\t', EndMarker);
    NoMatchInJoin(parts, '\t', BeginMarker);
  }

  /** The lines of a well-formed block, each with a newline after it. */
  lemma BlockLines(e: LogEntry)
    requires WellFormed(e)
    ensures var rest := Lines(e.changes) + [""];
      && (forall i :: 0 <= i < |rest| ==> '\n' !in rest[i])
      && (forall i :: 0 <= i < |rest| ==> !Contains(rest[i], EndMarker) && !Contains(rest[i], BeginMarker))
      && (e.changes != [] ==> Join(rest, "\n") != [] && !IsSpace(Join(rest, "\n")[0]))
  {
    var lines := Lines(e.changes);
    var rest := lines + [""];
    forall i | 0 <= i < |rest|
      ensures '\n' !in rest[i] && !Contains(rest[i], EndMarker) && !Contains(rest[i], BeginMarker)
    {
      if i < |lines| {
        LineSplits(e.changes[i]);
      } else {
        assert forall k :: !IsAt("", EndMarker, k) && !IsAt("", BeginMarker, k);
      }
    }
    if e.changes != [] {
      var c := e.changes[0];
      JoinHead([c.status] + c.paths, Delimiter);
      JoinHead(rest, "\n");
    }
  }

  /** `trimLeft` removes exactly the leading newlines of a well-formed block. */
  lemma TrimBlock(e: LogEntry)
    requires WellFormed(e)
    ensures TrimLeft(RenderBlock(e.gap, e.changes)) == Join(Lines(e.changes) + [""], "\n")
  {
    var rest := Lines(e.changes) + [""];
    var tail := Join(rest, "\n");
    var lead := seq(e.gap, _ => '\n');
    var block := RenderBlock(e.gap, e.changes);
    BlankJoin(e.gap, rest);
    assert Blank(e.gap) + Lines(e.changes) + [""] == Blank(e.gap) + rest;
    assert block == lead + tail;
    BlockLines(e);
    TrimLeftLead(lead, tail);
  }

  /** The decoder's lines of a well-formed block are the rendered name-status lines. */
  lemma BlockLinesDecode(e: LogEntry)
    requires WellFormed(e)
    ensures NameStatusLines(RenderBlock(e.gap, e.changes)) == Lines(e.changes)
  {
    var lines := Lines(e.changes);
    TrimBlock(e);
    BlockLines(e);
    SplitJoinChar(lines + [""], '\n');
    NameStatusLinesDropEmpty(RenderBlock(e.gap, e.changes), lines);
  }

  /** Each rendered line splits back into its status and paths. */
  lemma LinesSplit(changes: seq<Change>)
    requires forall i :: 0 <= i < |changes| ==> WellFormedChange(changes[i])
    ensures SplitItems(Lines(changes)) == Items(changes)
  {
    forall i | 0 <= i < |changes| ensures SplitItems(Lines(changes))[i] == Items(changes)[i] {
      LineSplits(changes[i]);
    }
  }

  /** The decoder recovers a well-formed block's split lines. */
  lemma BlockDecodes(e: LogEntry)
    requires WellFormed(e)
    ensures RenderBlock(e.gap, e.changes) != "" ==> SplitItems(NameStatusLines(RenderBlock(e.gap, e.changes))) == Items(e.changes)
    ensures RenderBlock(e.gap, e.changes) == "" ==> e.changes == []
  {
    var lines := Lines(e.changes);
    var block := RenderBlock(e.gap, e.changes);
    BlockLinesDecode(e);
    LinesSplit(e.changes);
    if e.changes != [] {
      assert |Blank(e.gap) + lines + [""]| >= 2;
      assert block != "" by {
        BlankJoin(e.gap, lines + [""]);
        assert Blank(e.gap) + lines + [""] == Blank(e.gap) + (lines + [""]);
      }
    }
  }

  /** The block contains neither sentinel. */
  lemma BlockClean(e: LogEntry)
    requires WellFormed(e)
    ensures !Contains(RenderBlock(e.gap, e.changes), EndMarker)
    ensures !Contains(RenderBlock(e.gap, e.changes), BeginMarker)
  {
    var parts := Blank(e.gap) + Lines(e.changes) + [""];
    BlockLines(e);
    forall i | 0 <= i < |parts| ensures !Contains(parts[i], EndMarker) && !Contains(parts[i], BeginMarker) {
      if i < e.gap {
        assert forall k :: !IsAt("", EndMarker, k) && !IsAt("", BeginMarker, k);
      } else {
        assert parts[i] == (Lines(e.changes) + [""])[i - e.gap];
      }
    }
    assert '\n' !in EndMarker && '\n' !in BeginMarker;
    NoMatchInJoin(parts, '\n', EndMarker);
    NoMatchInJoin(parts, '\n', BeginMarker);
  }

  /** A non-empty block starts and ends with a newline. */
  lemma BlockBorders(e: LogEntry)
    requires WellFormed(e)
    ensures var block := RenderBlock(e.gap, e.changes);
      block != [] ==> block[0] == '\n' && block[|block| - 1] == '\n'
  {
    var lines := Lines(e.changes);
    var block := RenderBlock(e.gap, e.changes);
    if block != [] {
      BlankJoin(e.gap, lines + [""]);
      assert Blank(e.gap) + lines + [""] == Blank(e.gap) + (lines + [""]);
      assert e.gap == 0 ==> Blank(e.gap) + lines + [""] == [""];
      assert block[0] == '\n';
      var parts := Blank(e.gap) + lines;
      assert |parts| >= 1;
      JoinSnoc(parts, "\n", "");
      assert parts + [""] == Blank(e.gap) + lines + [""];
    }
  }

  // ---------------------------------------------------------------------------
  // One commit

  lemma EntrySplitsAtEnd(e: LogEntry)
    requires WellFormed(e)
    ensures Split(RenderEntry(e), EndMarker) == [RenderFixed(e.values), RenderBlock(e.gap, e.changes)]
  {
    FixedEndsCleanly(e, EndMarker);
    SepFirstAfterBorder(RenderFixed(e.values), EndMarker);
    SplitAfter(RenderFixed(e.values), EndMarker, RenderBlock(e.gap, e.changes));
    BlockClean(e);
    SplitClean(RenderBlock(e.gap, e.changes), EndMarker);
  }

  lemma EntryLayout(e: LogEntry)
    requires WellFormed(e)
    ensures FixedValues(RenderEntry(e)) == e.values
    ensures BlockItems(RenderEntry(e)) == Items(e.changes)
  {
    EntrySplitsAtEnd(e);
    FixedSplits(e.values);
    BlockDecodes(e);
  }

  /**
   * Decoding a rendered commit gives back each requested field's value (the last one, when
   * a field is requested twice) and, with name-status, the statuses and paths of its block,
   * as many of each.
   */
  lemma ParseRenderedEntry(e: LogEntry, fields: seq<string>, nameStatus: bool)
    requires WellFormed(e) && |e.values| == |fields|
    requires "status" !in fields && "files" !in fields
    ensures Decodes(ParseCommit(RenderEntry(e), fields, nameStatus), e, fields, nameStatus)
    ensures |Statuses(Items(e.changes))| == |Files(Items(e.changes))|
  {
    var raw := RenderEntry(e);
    EntryLayout(e);
    ParseCommitZip(raw, fields, nameStatus);
    var r := ParseCommit(raw, fields, nameStatus);
    assert r.Keys == (set f | f in fields) + (if nameStatus then NameStatusFields else {});
    forall i | 0 <= i < |fields| && LastAt(fields, i, |fields|) ensures fields[i] in r && r[fields[i]] == Str(e.values[i]) {
      assert fields[i] in (set f | f in fields);
    }
  }

  /** A window of `@begin@`'s length that overlaps the `@end@` between the values and the block is not `@begin@`. */
  lemma NoBeginAcrossEnd(fixed: string, block: string, k: nat)
    requires !EndsWith(fixed, "@begin")
    requires block != [] ==> block[0] == '\n'
    requires |fixed| - 7 < k < |fixed| + 5
    ensures !IsAt(fixed + EndMarker + block, BeginMarker, k)
  {
    var s := fixed + EndMarker + block;
    var f := |fixed|;
    if k + 7 <= |s| {
      var w := s[k..k + 7];
      if k < f {
        assert w[f - k] == s[f] == '@';
        if f - k < 6 {
          assert w[f - k] != BeginMarker[f - k];
        } else {
          assert w[..6] == fixed[f - 6..];
          assert w[..6] != BeginMarker[..6];
        }
      } else if k == f + 4 {
        assert w[1] == block[0] == '\n';
        assert w[1] != BeginMarker[1];
      } else if k == f {
        assert w[1] == 'e';
        assert w[1] != BeginMarker[1];
      } else {
        assert w[0] == EndMarker[k - f];
        assert w[0] != BeginMarker[0];
      }
    }
  }

  /** `@begin@` occurs neither in the values, nor in the block, nor across the `@end@` between them. */
  lemma NoBeginInEntryText(fixed: string, block: string)
    requires !Contains(fixed, BeginMarker) && !EndsWith(fixed, "@begin")
    requires !Contains(block, BeginMarker)
    requires block != [] ==> block[0] == '\n'
    ensures !Contains(fixed + EndMarker + block, BeginMarker)
  {
    var s := fixed + EndMarker + block;
    var f := |fixed|;
    forall k | 0 <= k <= |s| ensures !IsAt(s, BeginMarker, k) {
      if k + 7 <= f {
        assert s == fixed + (EndMarker + block);
        IsAtInPrefix(fixed, EndMarker + block, BeginMarker, k);
      } else if k >= f + 5 {
        IsAtInSuffix(fixed + EndMarker, block, BeginMarker, k);
      } else {
        NoBeginAcrossEnd(fixed, block, k);
      }
    }
  }

  /** No rendered commit contains `@begin@`, nor ends with all of it but the closing `@`. */
  lemma EntryHasNoBegin(e: LogEntry)
    requires WellFormed(e)
    ensures !Contains(RenderEntry(e), BeginMarker)
    ensures !EndsWith(RenderEntry(e), BeginMarker[..|BeginMarker| - 1])
  {
    var fixed := RenderFixed(e.values);
    var block := RenderBlock(e.gap, e.changes);
    var s := RenderEntry(e);
    FixedEndsCleanly(e, BeginMarker);
    assert BeginMarker[..|BeginMarker| - 1] == "@begin";
    BlockClean(e);
    BlockBorders(e);
    NoBeginInEntryText(fixed, block);
    if block != [] {
      assert s[|s| - 1] == '\n';
    } else {
      assert s[|s| - 1] == '@';
    }
  }

  // ---------------------------------------------------------------------------
  // The whole log

  /** Cutting a rendered log at `@begin@` gives back its commits, and the empty output no commit. */
  lemma SplitRenderedLog(entries: seq<LogEntry>)
    requires forall i :: 0 <= i < |entries| ==> WellFormed(entries[i])
    ensures SplitChunks(RenderLog(entries)) == RenderEntries(entries)
  {
    var parts := [""] + RenderEntries(entries);
    forall i | 0 <= i < |parts| ensures SepFirstAfter(parts[i], BeginMarker) && !Contains(parts[i], BeginMarker) {
      if i == 0 {
        assert forall k :: !IsAt("", BeginMarker, k);
      } else {
        EntryHasNoBegin(entries[i - 1]);
        SepFirstAfterBorder(parts[i], BeginMarker);
      }
    }
    SplitJoin(parts, BeginMarker);
    assert parts[1..] == RenderEntries(entries);
  }

  /** Every commit of a rendered log decodes back to its values and block. */
  lemma ParseRenderedLog(entries: seq<LogEntry>, fields: seq<string>, nameStatus: bool)
    requires forall i :: 0 <= i < |entries| ==> WellFormed(entries[i]) && |entries[i].values| == |fields|
    requires "status" !in fields && "files" !in fields
    ensures var chunks := SplitChunks(RenderLog(entries));
      && |chunks| == |entries|
      && forall i :: 0 <= i < |entries| ==> Decodes(ParseCommit(chunks[i], fields, nameStatus), entries[i], fields, nameStatus)
  {
    SplitRenderedLog(entries);
    forall i | 0 <= i < |entries|
      ensures Decodes(ParseCommit(RenderEntries(entries)[i], fields, nameStatus), entries[i], fields, nameStatus)
    {
      ParseRenderedEntry(entries[i], fields, nameStatus);
    }
  }

  // ---------------------------------------------------------------------------
  // Where the format is ambiguous, and two concrete decodings

  /** A rename line stands for the new path and a deletion of the old one; other lines for their one path. */
  lemma RenameLine()
    ensures Statuses([["R100", "old.txt", "new.txt"]]) == ["R100", "D"]
    ensures Files([["R100", "old.txt", "new.txt"]]) == ["new.txt", "old.txt"]
    ensures Statuses([["M", "a.txt"]]) == ["M"] && Files([["M", "a.txt"]]) == ["a.txt"]
  {
    var items := [["R100", "old.txt", "new.txt"]];
    assert items[..0] == [];
    assert Middle(items[0]) == ["old.txt"];
    var m := [["M", "a.txt"]];
    assert m[..0] == [];
  }

  /**
   * One more newline after a block (a blank last line) is not dropped with the single
   * trailing empty line, and decodes as an extra empty status and an extra empty path.
   */
  lemma TrailingBlankLine(e: LogEntry)
    requires WellFormed(e) && e.changes != []
    ensures NameStatusValues(RenderBlock(e.gap, e.changes) + "\n") == ExpandItems(Items(e.changes)) + ["", ""]
  {
    var lines := Lines(e.changes);
    TrailingBlankLines(e);
    var items := SplitItems(lines + [""]);
    forall i | 0 <= i < |lines| ensures items[i] == Items(e.changes)[i] {
      LineSplits(e.changes[i]);
    }
    SplitClean("", Delimiter);
    assert items == Items(e.changes) + [[""]];
    assert items[..|items| - 1] == Items(e.changes);
    assert ExpandItem([""]) == ["", ""];
  }

  lemma TrailingBlankLines(e: LogEntry)
    requires WellFormed(e) && e.changes != []
    ensures NameStatusLines(RenderBlock(e.gap, e.changes) + "\n") == Lines(e.changes) + [""]
  {
    TrailingSplit(e);
    NameStatusLinesDropEmpty(RenderBlock(e.gap, e.changes) + "\n", Lines(e.changes) + [""]);
  }

  /** With one more newline the trimmed block splits into the lines and two empty pieces. */
  lemma TrailingSplit(e: LogEntry)
    requires WellFormed(e) && e.changes != []
    ensures Split(TrimLeft(RenderBlock(e.gap, e.changes) + "\n"), "\n") == Lines(e.changes) + [""] + [""]
  {
    var rest := Lines(e.changes) + [""];
    TrimBlockNewline(e);
    BlockLines(e);
    var more := rest + [""];
    assert Lines(e.changes) + ["", ""] == more;
    forall i | 0 <= i < |more| ensures '\n' !in more[i] {
      if i < |rest| {
        assert more[i] == rest[i];
      }
    }
    SplitJoinChar(more, '\n');
  }

  lemma TrimBlockNewline(e: LogEntry)
    requires WellFormed(e) && e.changes != []
    ensures TrimLeft(RenderBlock(e.gap, e.changes) + "\n") == Join(Lines(e.changes) + ["", ""], "\n")
  {
    var lines := Lines(e.changes);
    var lead := seq(e.gap, _ => '\n');
    var tail := Join(lines + [""], "\n");
    BlankJoin(e.gap, lines + [""]);
    assert Blank(e.gap) + lines + [""] == Blank(e.gap) + (lines + [""]);
    JoinSnoc(lines + [""], "\n", "");
    assert lines + [""] + [""] == lines + ["", ""];
    assert RenderBlock(e.gap, e.changes) + "\n" == lead + (tail + "\n");
    BlockLines(e);
    assert (tail + "\n")[0] == tail[0];
    TrimLeftLead(lead, tail + "\n");
  }

  /** The text after a misplaced `@end@`. */
  lemma LeftoverBlock()
    ensures NameStatusValues("end@") == ["end@", "end@"]
  {
    TrimLeftLead("", "end@");
    assert "" + "end@" == "end@";
    SplitJoinChar(["end@"], '\n');
    SplitJoinChar(["end@"], '\t');
    var items := SplitItems(NameStatusLines("end@"));
    assert items == [["end@"]];
    assert items[..0] == [];
  }

  lemma EndSuffixRendering(p: string)
    ensures RenderEntry(LogEntry([p + "@end"], 0, [])) == ("\t" + p) + EndMarker + "end@"
  {
    assert [""] + [p + "@end"] == ["", p + "@end"];
    assert ["", p + "@end"][1..] == [p + "@end"];
    assert Join([p + "@end"], Delimiter) == p + "@end";
    assert Join(["", p + "@end"], Delimiter) == "" + Delimiter + (p + "@end");
    assert RenderFixed([p + "@end"]) == "\t" + (p + "@end");
    assert |Blank(0)| == 0;
    assert |Lines([])| == 0;
    assert Blank(0) + Lines([]) + [""] == [""];
    assert RenderBlock(0, []) == "";
  }

  lemma EndSuffixSplit(p: string)
    requires Plain(p) && !EndsWith(p, "@end")
    ensures Split(("\t" + p) + EndMarker + "end@", EndMarker) == ["\t" + p, "end@"]
  {
    var fixed := "\t" + p;
    assert fixed == "" + ['\t'] + p;
    assert forall k :: !IsAt("", EndMarker, k);
    NoMatchAcrossBreak("", '\t', p, EndMarker);
    EndsWithAfterBreak("", '\t', p, "@end");
    assert EndMarker[..4] == "@end";
    SepFirstAfterBorder(fixed, EndMarker);
    SplitAfter(fixed, EndMarker, "end@");
    assert forall k :: !IsAt("end@", EndMarker, k);
    SplitClean("end@", EndMarker);
  }

  lemma EndSuffixValues(p: string)
    requires Plain(p) && !EndsWith(p, "@end")
    ensures FlatValues(("\t" + p) + EndMarker + "end@") == [p, "end@", "end@"]
  {
    EndSuffixSplit(p);
    FixedSplits([p]);
    assert RenderFixed([p]) == "\t" + p by {
      assert ["", p][1..] == [p];
    }
    LeftoverBlock();
    assert ([""] + [p] + ["end@", "end@"])[1..] == [p, "end@", "end@"];
  }

  /**
   * A last value ending with `@end` is cut short: its `@end` and the sentinel's first `@`
   * read as the sentinel, the value decodes without its `@end`, and the rest of the
   * sentinel is decoded as a name-status line.
   */
  lemma EndSuffixTruncates(p: string, field: string, nameStatus: bool)
    requires Plain(p) && !EndsWith(p, "@end")
    requires field != "status" && field != "files"
    ensures var r := ParseCommit(RenderEntry(LogEntry([p + "@end"], 0, [])), [field], nameStatus);
      && field in r && r[field] == Str(p) && p != p + "@end"
      && (nameStatus ==> "status" in r && r["status"] == List(["end@"]) && "files" in r && r["files"] == List(["end@"]))
  {
    EndSuffixRendering(p);
    EndSuffixValues(p);
    var values := [p, "end@", "end@"];
    var r1 := InitialRecord(nameStatus)[field := Str(p)];
    assert [] + ["end@"] == ["end@"];
    var r2 := if nameStatus then r1["status" := List(["end@"])] else r1;
    var r3 := if nameStatus then r2["files" := List(["end@"])] else r2;
    assert Assigned(values, [field], nameStatus, 1) == r1;
    assert Assigned(values, [field], nameStatus, 2) == r2;
    assert Assigned(values, [field], nameStatus, 3) == r3;
    assert ParseCommit(RenderEntry(LogEntry([p + "@end"], 0, [])), [field], nameStatus) == r3;
    assert field in r3 && r3[field] == Str(p);
    assert nameStatus ==> r3["status"] == List(["end@"]) && r3["files"] == List(["end@"]);
    assert |p + "@end"| > |p|;
  }
}
