/**
 * The TypeScript variant (src/index.ts): the argument vector for `git log`, and the
 * parser that turns the captured output back into records.
 */
module TsGitlog {
  import opened Wrappers
  import opened Text
  import opened Protocol
  import opened DecodeFacts
  import opened FormatFacts

  const DefaultFields: seq<string> := ["abbrevHash", "hash", "subject", "authorName", "authorDate"]

  /** `defaultOptions`. */
  const Defaults: Options := NoOptions.(
    number := Some(10), fields := Some(DefaultFields), nameStatus := Some(true),
    includeMergeCommitFiles := Some(false), findCopiesHarder := Some(false), all := Some(false))

  // ---------------------------------------------------------------------------
  // The argument vector

  /** The `--key=value` element of one filter, when that filter is set. */
  function FilterArg(key: string, v: Option<string>): seq<string> {
    if IsSet(v) then ["--" + key + "=" + v.value] else []
  }

  /** What the countdown loop over the filter keys has pushed once its index is down to `i`. */
  function FilterArgs(o: Options, i: nat): (r: seq<string>)
    requires i <= |CmdOptional|
    ensures |r| <= |CmdOptional| - i
    ensures forall j :: 0 <= j < |r| ==> |r[j]| >= 2 && r[j][..2] == "--"
    decreases |CmdOptional| - i
  {
    if i == |CmdOptional| then [] else FilterArgs(o, i + 1) + FilterArg(CmdOptional[i], FilterValue(o, CmdOptional[i]))
  }

  /** `addOptionalArguments`: the command with one element per set filter appended. */
  method AddOptionalArguments(command: seq<string>, o: Options) returns (r: seq<string>)
    ensures r == command + FilterArgs(o, 0)
  {
    r := command;
    var i := |CmdOptional|;
    while i > 0
      invariant 0 <= i <= |CmdOptional|
      invariant r == command + FilterArgs(o, i)
    {
      i := i - 1;
      ghost var before := r;
      var key := CmdOptional[i];
      var value := FilterValue(o, key);
      if IsSet(value) {
        r := r + ["--" + key + "=" + value.value];
      }
      assert r == before + FilterArg(key, value);
      AppendAssoc(command, FilterArgs(o, i + 1), FilterArg(key, value));
    }
  }

  function FlagArgs(o: Options): seq<string> {
    (if IsOn(o.findCopiesHarder) then ["--find-copies-harder"] else [])
    + (if IsOn(o.all) then ["--all"] else [])
    + (if IsOn(o.includeMergeCommitFiles) then ["-m"] else [])
  }

  function EndText(e: LineEnd): string {
    match e
    case EndLine(n) => IntToString(n)
    case EndText(t) => t
  }

  /** `-L <startLine>,<endLine>:<file>`. */
  function RangeArg(r: LineRange): (a: string)
    ensures |a| >= 3 && a[..3] == "-L "
    ensures EndsWith(a, ":" + r.file)
  {
    "-L " + IntToString(r.startLine) + "," + EndText(r.endLine) + ":" + r.file
  }

  function BranchArgs(o: Options): seq<string> {
    if IsSet(o.branch) then [o.branch.value] else []
  }

  /** `--name-status` is passed only when no line range is asked for. */
  function NameStatusArgs(o: Options): seq<string> {
    if IsOn(o.nameStatus) && o.fileLineRange.None? then ["--name-status"] else []
  }

  function RangeArgs(o: Options): seq<string> {
    if o.fileLineRange.Some? then [RangeArg(o.fileLineRange.value)] else []
  }

  function FileArgs(o: Options): seq<string> {
    if IsSet(o.file) then ["--", o.file.value] else []
  }

  /** The branch, `--name-status` or the line range, and the file filter. */
  function TailArgs(o: Options): (r: seq<string>)
    ensures IsSet(o.branch) ==> |r| >= 1 && r[0] == o.branch.value
    ensures IsSet(o.file) ==> |r| >= 2 && r[|r| - 2..] == ["--", o.file.value]
  {
    BranchArgs(o) + NameStatusArgs(o) + RangeArgs(o) + FileArgs(o)
  }

  /** The requested fields; an absent list adds no placeholder. */
  function FieldsOf(o: Options): seq<string> {
    o.fields.GetOr([])
  }

  /** The arguments before the branch: the fixed ones, the flags, the count, the filters and the format carrying placeholders `t`. */
  function HeadArgs(o: Options, t: string): (r: seq<string>)
    ensures |r| >= 4 && r[..2] == ["log", "-l0"]
    ensures |r| > 2 + |FlagArgs(o)| && r[2 + |FlagArgs(o)|] == "-n " + NumberText(o.number)
    ensures r[|r| - 1] == "--pretty=@begin@" + t + "@end@"
  {
    ["log", "-l0"] + FlagArgs(o) + ["-n " + NumberText(o.number)] + FilterArgs(o, 0)
    + ["--pretty=@begin@" + t + "@end@"]
  }

  /** The whole argument vector, or the error raised for the first unknown field. */
  function CommandArguments(o: Options): (r: Result<seq<string>>)
    ensures r.Ok? <==> AllKnown(FieldsOf(o), TsFieldMap, NameStatusFields)
    ensures r.Ok? ==> |r.value| >= 2 && r.value[..2] == ["log", "-l0"]
    ensures r.Ok? ==> "--pretty=@begin@" + Tokens(FieldsOf(o), TsFieldMap) + "@end@" in r.value
  {
    match FieldFormat(FieldsOf(o), TsFieldMap, NameStatusFields)
    case Err(e) => Err(e)
    case Ok(t) => Ok(HeadArgs(o, t) + TailArgs(o))
  }

  /** The start of `createCommandArguments`: the fixed arguments and the three flags. */
  method FlagCommand(o: Options) returns (command: seq<string>)
    ensures command == ["log", "-l0"] + FlagArgs(o)
  {
    command := ["log", "-l0"];
    if IsOn(o.findCopiesHarder) {
      command := command + ["--find-copies-harder"];
    }
    if IsOn(o.all) {
      command := command + ["--all"];
    }
    if IsOn(o.includeMergeCommitFiles) {
      command := command + ["-m"];
    }
  }

  /** The end of `createCommandArguments`: branch, name-status or line range, and file. */
  method AppendTail(command0: seq<string>, o: Options) returns (command: seq<string>)
    ensures command == command0 + TailArgs(o)
  {
    ghost var b, n, l, f := BranchArgs(o), NameStatusArgs(o), RangeArgs(o), FileArgs(o);
    command := command0;
    if IsSet(o.branch) {
      command := command + [o.branch.value];
    }
    assert command == command0 + b;
    if IsOn(o.nameStatus) && o.fileLineRange.None? {
      command := command + ["--name-status"];
    }
    assert command == command0 + b + n;
    if o.fileLineRange.Some? {
      var rangeArg := RangeArg(o.fileLineRange.value);
      command := command + [rangeArg];
    }
    assert command == command0 + b + n + l;
    if IsSet(o.file) {
      command := command + ["--"];
      command := command + [o.file.value];
    }
    assert command == command0 + b + n + l + f;
    AppendAssoc(command0, b, n);
    AppendAssoc(command0, b + n, l);
    AppendAssoc(command0, b + n + l, f);
  }

  /** `createCommandArguments`. */
  method CreateCommandArguments(o: Options) returns (r: Result<seq<string>>)
    ensures r == CommandArguments(o)
  {
    var command := FlagCommand(o);
    command := command + ["-n " + NumberText(o.number)];
    command := AddOptionalArguments(command, o);
    var prettyArgument := "--pretty=@begin@";
    var placeholders := FieldLoop(FieldsOf(o), TsFieldMap, NameStatusFields);
    if placeholders.Err? {
      return Err(placeholders.error);
    }
    prettyArgument := prettyArgument + placeholders.value + "@end@";
    command := command + [prettyArgument];
    assert command == HeadArgs(o, placeholders.value);
    command := AppendTail(command, o);
    r := Ok(command);
  }

  // ---------------------------------------------------------------------------
  // What the argument vector promises

  /** The filters appear in the reverse of their list order, each only when set. */
  lemma FilterOrder(o: Options)
    ensures FilterArgs(o, 0)
      == FilterArg("committer", o.committer) + FilterArg("before", o.before) + FilterArg("until", o.until)
      + FilterArg("after", o.after) + FilterArg("since", o.since) + FilterArg("author", o.author)
  {
    assert FilterArgs(o, 5) == FilterArg("committer", o.committer);
    assert FilterArgs(o, 4) == FilterArgs(o, 5) + FilterArg("before", o.before);
    assert FilterArgs(o, 3) == FilterArgs(o, 4) + FilterArg("until", o.until);
    assert FilterArgs(o, 2) == FilterArgs(o, 3) + FilterArg("after", o.after);
    assert FilterArgs(o, 1) == FilterArgs(o, 2) + FilterArg("since", o.since);
  }

  /** An element `--key=value` is among the filter arguments exactly when that filter is set to that value. */
  lemma {:induction false} FilterArgsMembership(o: Options, i: nat, a: string)
    requires i <= |CmdOptional|
    ensures a in FilterArgs(o, i)
      <==> (exists j :: i <= j < |CmdOptional| && IsSet(FilterValue(o, CmdOptional[j])) &&
                a == "--" + CmdOptional[j] + "=" + FilterValue(o, CmdOptional[j]).value)
    decreases |CmdOptional| - i
  {
    if i < |CmdOptional| {
      FilterArgsMembership(o, i + 1, a);
    }
  }

  /** An unknown field is reported, naming the first one; any other list gives the argument vector. */
  lemma UnknownFieldFails(o: Options)
    ensures CommandArguments(o).Err? <==> !AllKnown(FieldsOf(o), TsFieldMap, NameStatusFields)
    ensures CommandArguments(o).Err? ==>
      CommandArguments(o).error == "Unknown field: " + FieldsOf(o)[FirstUnknown(FieldsOf(o), TsFieldMap, NameStatusFields)]
  {
  }

  /** An argument that is a line range. */
  predicate IsRangeArg(a: string) {
    |a| >= 3 && a[0] == '-' && a[1] == 'L' && a[2] == ' '
  }

  lemma RangeArgIsRange(r: LineRange)
    ensures IsRangeArg(RangeArg(r)) && RangeArg(r) != "--name-status"
  {
    var a := RangeArg(r);
    assert a == "-L " + (IntToString(r.startLine) + "," + EndText(r.endLine) + ":" + r.file);
    assert a[1] == 'L';
  }

  /** Neither `--name-status` nor a line range. */
  predicate Neutral(a: string) {
    a != "--name-status" && !IsRangeArg(a)
  }

  predicate AllNeutral(args: seq<string>) {
    forall a :: a in args ==> Neutral(a)
  }

  predicate HasRangeArg(args: seq<string>) {
    exists a :: a in args && IsRangeArg(a)
  }

  lemma AllNeutralConcat(a: seq<string>, b: seq<string>)
    requires AllNeutral(a) && AllNeutral(b)
    ensures AllNeutral(a + b)
  {
  }

  /** Neutral arguments around `mid` change neither whether `--name-status` occurs nor whether a line range does. */
  lemma NeutralAround(before: seq<string>, mid: seq<string>, after: seq<string>)
    requires AllNeutral(before) && AllNeutral(after)
    ensures "--name-status" in before + mid + after <==> "--name-status" in mid
    ensures HasRangeArg(before + mid + after) <==> HasRangeArg(mid)
  {
    var s := before + mid + after;
    if a :| a in s && IsRangeArg(a) {
      assert a in mid;
    }
    if a :| a in mid && IsRangeArg(a) {
      assert a in s;
    }
  }

  /** A filter argument is `--`, the key, `=` and the value, so it is neutral. */
  lemma FilterArgNeutral(key: string, v: Option<string>)
    ensures AllNeutral(FilterArg(key, v))
  {
    if IsSet(v) {
      var a := "--" + key + "=" + v.value;
      assert a[1] == '-' && a[2 + |key|] == '=';
      assert '=' !in "--name-status";
    }
  }

  lemma FilterArgsNeutral(o: Options)
    ensures AllNeutral(FilterArgs(o, 0))
  {
    FilterOrder(o);
    FilterArgNeutral("committer", o.committer);
    FilterArgNeutral("before", o.before);
    FilterArgNeutral("until", o.until);
    FilterArgNeutral("after", o.after);
    FilterArgNeutral("since", o.since);
    FilterArgNeutral("author", o.author);
    var c, b, u, a, s := FilterArg("committer", o.committer), FilterArg("before", o.before),
      FilterArg("until", o.until), FilterArg("after", o.after), FilterArg("since", o.since);
    AllNeutralConcat(c, b);
    AllNeutralConcat(c + b, u);
    AllNeutralConcat(c + b + u, a);
    AllNeutralConcat(c + b + u + a, s);
    AllNeutralConcat(c + b + u + a + s, FilterArg("author", o.author));
  }

  /** No argument the builder itself puts before the branch is `--name-status` or starts with `-L `. */
  lemma HeadArgsNeutral(o: Options, t: string)
    ensures AllNeutral(HeadArgs(o, t))
  {
    var count := "-n " + NumberText(o.number);
    var pretty := "--pretty=@begin@" + t + "@end@";
    assert Neutral(count) by { assert count[1] == 'n'; }
    assert Neutral(pretty) by { assert pretty[1] == '-' && pretty[2] == 'p'; }
    var flags := ["log", "-l0"] + FlagArgs(o);
    assert AllNeutral(flags);
    FilterArgsNeutral(o);
    AllNeutralConcat(flags, [count]);
    AllNeutralConcat(flags + [count], FilterArgs(o, 0));
    AllNeutralConcat(flags + [count] + FilterArgs(o, 0), [pretty]);
  }

  /**
   * `--name-status` is passed exactly when name-status is on and no line range is given,
   * `-L` exactly when a line range is given, so never both; the caller's branch and file
   * are the only values that could imitate either.
   */
  lemma NameStatusOrLineRange(o: Options, args: seq<string>)
    requires CommandArguments(o) == Ok(args)
    requires o.branch.Some? ==> Neutral(o.branch.value)
    requires o.file.Some? ==> Neutral(o.file.value)
    ensures "--name-status" in args <==> IsOn(o.nameStatus) && o.fileLineRange.None?
    ensures (exists a :: a in args && IsRangeArg(a)) <==> o.fileLineRange.Some?
    ensures !("--name-status" in args && exists a :: a in args && IsRangeArg(a))
  {
    var t := FieldFormat(FieldsOf(o), TsFieldMap, NameStatusFields).value;
    var head := HeadArgs(o, t);
    var tail := TailArgs(o);
    HeadArgsNeutral(o, t);
    TailFacts(o);
    assert args == head + tail + [];
    NeutralAround(head, tail, []);
    assert HasRangeArg(args) <==> o.fileLineRange.Some?;
  }

  /** The tail carries `--name-status` and the line range under complementary conditions. */
  lemma TailFacts(o: Options)
    requires o.branch.Some? ==> Neutral(o.branch.value)
    requires o.file.Some? ==> Neutral(o.file.value)
    ensures "--name-status" in TailArgs(o) <==> IsOn(o.nameStatus) && o.fileLineRange.None?
    ensures (exists a :: a in TailArgs(o) && IsRangeArg(a)) <==> o.fileLineRange.Some?
  {
    var b, n, l, f := BranchArgs(o), NameStatusArgs(o), RangeArgs(o), FileArgs(o);
    assert Neutral("--");
    assert AllNeutral(b) && AllNeutral(f);
    assert TailArgs(o) == b + (n + l) + f;
    NeutralAround(b, n + l, f);
    if o.fileLineRange.Some? {
      RangeArgIsRange(o.fileLineRange.value);
      assert l[0] in n + l;
    }
    assert HasRangeArg(TailArgs(o)) <==> o.fileLineRange.Some?;
  }

  /** The default fields are all in the table, and their placeholders are `%h %H %s %an %ai`, tab-led. */
  lemma DefaultPlaceholders()
    ensures AllKnown(DefaultFields, TsFieldMap, NameStatusFields)
    ensures Tokens(DefaultFields, TsFieldMap)
      == Delimiter + "%h" + Delimiter + "%H" + Delimiter + "%s" + Delimiter + "%an" + Delimiter + "%ai"
  {
    DefaultFieldEntries();
    JsExtendsLegacy("abbrevHash");
    JsExtendsLegacy("hash");
    JsExtendsLegacy("subject");
    JsExtendsLegacy("authorName");
    JsExtendsLegacy("authorDate");
    FiveTokens("abbrevHash", "hash", "subject", "authorName", "authorDate", TsFieldMap);
  }

  lemma TenText()
    ensures NumberText(Some(10)) == "10"
  {
    assert NatToString(10) == NatToString(1) + [DigitChar(0)];
  }

  /** The arguments before the branch under the defaults. */
  lemma DefaultHead(repo: string, fields: seq<string>, t: string)
    ensures HeadArgs(Defaults.(repo := Some(repo), fields := Some(fields)), t) == ["log", "-l0", "-n 10", "--pretty=@begin@" + t + "@end@"]
  {
    var o := Defaults.(repo := Some(repo), fields := Some(fields));
    TenText();
    assert "-n " + NumberText(o.number) == "-n 10";
    assert FilterArgs(o, 0) == [] by { FilterOrder(o); }
    assert FlagArgs(o) == [];
    var pretty := "--pretty=@begin@" + t + "@end@";
    assert HeadArgs(o, t) == ["log", "-l0"] + [] + ["-n 10"] + [] + [pretty];
  }

  /** Name-status switched on, and no branch, line range or file: the tail is the switch alone. */
  lemma NameStatusTail(o: Options)
    requires IsOn(o.nameStatus) && o.fileLineRange.None? && o.branch.None? && o.file.None?
    ensures TailArgs(o) == ["--name-status"]
  {
    assert BranchArgs(o) == [] && RangeArgs(o) == [] && FileArgs(o) == [];
    assert NameStatusArgs(o) == ["--name-status"];
  }

  /**
   * With no options but the repository and the field list, the defaults give ten commits
   * and name-status, and nothing else besides the format; an absent list means the defaults.
   */
  lemma DefaultArguments(repo: string, fields: seq<string>)
    requires AllKnown(fields, TsFieldMap, NameStatusFields)
    ensures CommandArguments(Merge(Defaults, NoOptions.(repo := Some(repo), fields := Some(fields))))
      == Ok(["log", "-l0", "-n 10", "--pretty=@begin@" + Tokens(fields, TsFieldMap) + "@end@", "--name-status"])
    ensures Merge(Defaults, NoOptions.(repo := Some(repo))).fields == Some(DefaultFields)
  {
    MergeRepoFields(Defaults, repo, fields);
    DefaultOptionsArguments(repo, fields);
  }

  /** The argument vector for the defaults with the repository and the field list filled in. */
  lemma DefaultOptionsArguments(repo: string, fields: seq<string>)
    requires AllKnown(fields, TsFieldMap, NameStatusFields)
    ensures CommandArguments(Defaults.(repo := Some(repo), fields := Some(fields)))
      == Ok(["log", "-l0", "-n 10", "--pretty=@begin@" + Tokens(fields, TsFieldMap) + "@end@", "--name-status"])
  {
    var o := Defaults.(repo := Some(repo), fields := Some(fields));
    var t := Tokens(fields, TsFieldMap);
    assert FieldFormat(FieldsOf(o), TsFieldMap, NameStatusFields) == Ok(t);
    DefaultHead(repo, fields, t);
    NameStatusTail(o);
    HeadAndTail(o, t, ["log", "-l0", "-n 10", "--pretty=@begin@" + t + "@end@"], ["--name-status"]);
    FourAndOne("log", "-l0", "-n 10", "--pretty=@begin@" + t + "@end@", "--name-status");
  }

  lemma FourAndOne<T>(a: T, b: T, c: T, d: T, e: T)
    ensures [a, b, c, d] + [e] == [a, b, c, d, e]
  {
  }

  /** The argument vector from its two parts. */
  lemma HeadAndTail(o: Options, t: string, head: seq<string>, tail: seq<string>)
    requires FieldFormat(FieldsOf(o), TsFieldMap, NameStatusFields) == Ok(t)
    requires HeadArgs(o, t) == head && TailArgs(o) == tail
    ensures CommandArguments(o) == Ok(head + tail)
  {
  }

  // ---------------------------------------------------------------------------
  // The parser

  /** The expansion of one split name-status line: status and last path, then `D` and each middle path of a rename. */
  method ExpandLine(item: seq<string>) returns (tempArr: seq<string>)
    requires |item| >= 1
    ensures tempArr == ExpandItem(item)
  {
    var status := item[0];
    tempArr := [status, item[|item| - 1]];
    var i := 1;
    var len := |item| - 1;
    while i < len
      invariant 1 <= i <= |item|
      invariant len >= 1 ==> i <= len
      invariant tempArr == [status, item[|item| - 1]] + (if IsRename(status) then Deletions(item[1..i]) else [])
    {
      if IsRename(status) {
        MiddleStep(item, i);
        AppendAssoc([status, item[|item| - 1]], Deletions(item[1..i]), ["D", item[i]]);
        tempArr := tempArr + ["D", item[i]];
      }
      i := i + 1;
    }
    if len >= 1 {
      assert item[1..i] == Middle(item);
    } else {
      assert Middle(item) == [];
    }
  }

  /** One more middle path adds one deletion. */
  lemma MiddleStep(item: seq<string>, i: nat)
    requires 1 <= i < |item|
    ensures Deletions(item[1..i + 1]) == Deletions(item[1..i]) + ["D", item[i]]
  {
    assert item[1..i + 1][..i - 1] == item[1..i];
  }

  /** `parts[1].trimLeft().split("\n")` and the pop of one trailing empty line. */
  method BlockLines(block: string) returns (parseNameStatus: seq<string>)
    ensures parseNameStatus == NameStatusLines(block)
  {
    parseNameStatus := Split(TrimLeft(block), "\n");
    if parseNameStatus[|parseNameStatus| - 1] == "" {
      parseNameStatus := parseNameStatus[..|parseNameStatus| - 1];
    }
  }

  /** The `forEach` over the split lines, pushing each line's expansion. */
  method ExpandAll(items: seq<seq<string>>) returns (values: seq<string>)
    requires NonEmptyItems(items)
    ensures values == ExpandItems(items)
  {
    values := [];
    var k := 0;
    while k < |items|
      invariant 0 <= k <= |items|
      invariant values == ExpandItems(items[..k])
    {
      var tempArr := ExpandLine(items[k]);
      assert items[..k + 1][..k] == items[..k];
      values := values + tempArr;
      k := k + 1;
    }
    assert items[..k] == items;
  }

  /** The name-status block turned into its flat value list. */
  method BlockValues(block: string) returns (values: seq<string>)
    ensures values == NameStatusValues(block)
  {
    var parseNameStatus := BlockLines(block);
    var nameAndStatusDelimited := SplitItems(parseNameStatus);
    values := ExpandAll(nameAndStatusDelimited);
  }

  /** The values of one raw commit, in the order they are assigned: what the parser's `commit` array holds after the shift. */
  method CommitValues(rawCommit: string) returns (commit: seq<string>)
    ensures commit == FlatValues(rawCommit)
  {
    var parts := Split(rawCommit, EndMarker);
    commit := Split(parts[0], Delimiter);
    if |parts| > 1 && parts[1] != "" {
      var tail := BlockValues(parts[1]);
      commit := commit + tail;
    }
    commit := commit[1..];
  }

  /** The assignment loop: named positions set their field, later ones go to `status` / `files` while those are arrays. */
  method AssignValues(commit: seq<string>, fields: seq<string>, nameStatus: bool) returns (parsed: Commit)
    requires Named(fields)
    ensures parsed == Assigned(commit, fields, nameStatus, |commit|)
  {
    parsed := map[];
    if nameStatus {
      parsed := parsed["status" := List([])];
      parsed := parsed["files" := List([])];
    }
    assert parsed == InitialRecord(nameStatus);
    var index := 0;
    while index < |commit|
      invariant 0 <= index <= |commit|
      invariant parsed == Assigned(commit, fields, nameStatus, index)
    {
      var commitField := commit[index];
      if index < |fields| {
        parsed := parsed[fields[index] := Str(commitField)];
      } else if nameStatus {
        var key := Slot(index - |fields|);
        if key in parsed && parsed[key].List? {
          parsed := parsed[key := List(parsed[key].items + [commitField])];
        }
      }
      index := index + 1;
    }
  }

  /** `commits.map(...)` over the raw commits. */
  function ParseAll(commits: seq<string>, fields: seq<string>, nameStatus: bool): (r: seq<Commit>)
    ensures |r| == |commits|
  {
    seq(|commits|, k requires 0 <= k < |commits| => ParseCommit(commits[k], fields, nameStatus))
  }

  /** One more raw commit adds its record at the end. */
  lemma ParseAllSnoc(init: seq<string>, last: string, fields: seq<string>, nameStatus: bool)
    ensures ParseAll(init + [last], fields, nameStatus) == ParseAll(init, fields, nameStatus) + [ParseCommit(last, fields, nameStatus)]
  {
    var commits := init + [last];
    assert forall k :: 0 <= k < |init| ==> commits[k] == init[k];
  }

  /** `parseCommits`. */
  method ParseCommits(commits: seq<string>, fields: seq<string>, nameStatus: bool) returns (parsed: seq<Commit>)
    requires Named(fields)
    ensures parsed == ParseAll(commits, fields, nameStatus)
  {
    parsed := [];
    var k := 0;
    while k < |commits|
      invariant 0 <= k <= |commits|
      invariant |parsed| == k
      invariant forall j :: 0 <= j < k ==> parsed[j] == ParseCommit(commits[j], fields, nameStatus)
    {
      var values := CommitValues(commits[k]);
      var record := AssignValues(values, fields, nameStatus);
      parsed := parsed + [record];
      k := k + 1;
    }
  }

  /** `stdout.split("@begin@")` and the shift of a leading empty chunk. */
  method CommitChunks(stdout: string) returns (commits: seq<string>)
    ensures commits == SplitChunks(stdout)
    ensures stdout == "" ==> commits == []
  {
    commits := Split(stdout, BeginMarker);
    if commits[0] == "" {
      commits := commits[1..];
    }
    if stdout == "" {
      assert !Contains("", BeginMarker) by {
        assert forall k :: !IsAt("", BeginMarker, k);
      }
      SplitClean("", BeginMarker);
    }
  }

  // ---------------------------------------------------------------------------
  // The front

  /**
   * `gitlog` in its synchronous form: the repository checks, the defaulting, the argument
   * vector, and the parse of what `run` (standing for `execFileSync("git", args)`) prints.
   */
  method Gitlog(userOptions: Options, repoExists: string -> bool, run: seq<string> -> string) returns (r: Result<seq<Commit>>)
    ensures !IsSet(userOptions.repo) ==> r == Err("Repo required!")
    ensures IsSet(userOptions.repo) && !repoExists(userOptions.repo.value) ==> r == Err("Repo location does not exist")
    ensures IsSet(userOptions.repo) && repoExists(userOptions.repo.value) ==>
      var o := Merge(Defaults, userOptions);
      match CommandArguments(o)
      case Err(e) => r == Err(e)
      case Ok(args) => r == Ok(ParseAll(SplitChunks(run(args)), FieldsOf(o), IsOn(o.nameStatus)))
  {
    if !IsSet(userOptions.repo) {
      return Err("Repo required!");
    }
    if !repoExists(userOptions.repo.value) {
      return Err("Repo location does not exist");
    }
    var options := Merge(Defaults, userOptions);
    var commandArguments := CreateCommandArguments(options);
    if commandArguments.Err? {
      return Err(commandArguments.error);
    }
    var stdout := run(commandArguments.value);
    var commits := CommitChunks(stdout);
    TablesLackEmptyName();
    KnownFieldsNamed(FieldsOf(options), TsFieldMap);
    var parsed := ParseCommits(commits, FieldsOf(options), IsOn(options.nameStatus));
    r := Ok(parsed);
  }
}
