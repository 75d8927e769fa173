/**
 * The JavaScript variant (src/index.js): one shell command string instead of an argument
 * vector, and a parser that throws where the TypeScript one skips a value.
 */
module JsGitlog {
  import opened Wrappers
  import opened Text
  import opened Protocol
  import opened DecodeFacts
  import opened FormatFacts
  import TsGitlog

  const DefaultFields: seq<string> := ["abbrevHash", "hash", "subject", "authorName"]

  /** `defaultOptions`; the `execOptions` entry is not modelled. */
  const Defaults: Options := NoOptions.(
    number := Some(10), fields := Some(DefaultFields), nameStatus := Some(true),
    includeMergeCommitFiles := Some(false), findCopiesHarder := Some(false), all := Some(false))

  // ---------------------------------------------------------------------------
  // The command string

  /** ` --key="value"` for one set filter, the value inserted as it is. */
  function FilterText(key: string, v: Option<string>): string {
    if IsSet(v) then " --" + key + "=\"" + v.value + "\"" else ""
  }

  /** What the countdown loop of `addOptional` has appended once its index is down to `i`. */
  function FilterTexts(o: Options, i: nat): (r: string)
    requires i <= |CmdOptional|
    ensures r == "" || (|r| >= 3 && r[..3] == " --")
    decreases |CmdOptional| - i
  {
    if i == |CmdOptional| then "" else FilterTexts(o, i + 1) + FilterText(CmdOptional[i], FilterValue(o, CmdOptional[i]))
  }

  /** `addOptional`. */
  method AddOptional(command: string, o: Options) returns (r: string)
    ensures r == command + FilterTexts(o, 0)
  {
    r := command;
    var i := |CmdOptional|;
    while i > 0
      invariant 0 <= i <= |CmdOptional|
      invariant r == command + FilterTexts(o, i)
    {
      i := i - 1;
      ghost var before := r;
      var key := CmdOptional[i];
      var value := FilterValue(o, key);
      if IsSet(value) {
        var arg := " --" + key + "=\"" + value.value + "\"";
        r := r + arg;
      }
      assert r == before + FilterText(key, value);
      AppendAssoc(command, FilterTexts(o, i + 1), FilterText(key, value));
    }
  }

  function FlagText(o: Options): string {
    (if IsOn(o.findCopiesHarder) then "--find-copies-harder " else "")
    + (if IsOn(o.all) then "--all " else "")
    + (if IsOn(o.includeMergeCommitFiles) then "-m " else "")
  }

  /** Everything up to the closing quote of the format, whose placeholder part is `t`. */
  function HeadText(o: Options, t: string): string {
    "git log " + FlagText(o) + "-n " + NumberText(o.number) + FilterTexts(o, 0)
    + " --pretty=\"@begin@" + t + "@end@\""
  }

  function BranchText(o: Options): string {
    if IsSet(o.branch) then " " + o.branch.value else ""
  }

  function NameStatusText(o: Options): string {
    if IsOn(o.nameStatus) then " --name-status" else ""
  }

  function FileText(o: Options): string {
    if IsSet(o.file) then " -- " + o.file.value else ""
  }

  /** The branch, the name-status switch and the file filter. */
  function TailText(o: Options): string {
    BranchText(o) + NameStatusText(o) + FileText(o)
  }

  /** The whole command, or the error raised for the first unknown field. */
  function CommandText(o: Options): (r: Result<string>)
    ensures r.Ok? <==> AllKnown(TsGitlog.FieldsOf(o), JsFieldMap, NameStatusFields)
    ensures r.Ok? && IsSet(o.file) ==> EndsWith(r.value, " -- " + o.file.value)
  {
    match FieldFormat(TsGitlog.FieldsOf(o), JsFieldMap, NameStatusFields)
    case Err(e) => Err(e)
    case Ok(t) =>
      CommandEnds(o, t);
      Ok(HeadText(o, t) + TailText(o))
  }

  /** The command ends with the file filter. */
  lemma CommandEnds(o: Options, t: string)
    ensures EndsWith(HeadText(o, t) + TailText(o), FileText(o))
  {
    var head, tail := HeadText(o, t), TailText(o);
    ConcatEnds(head, tail);
    ConcatEnds(BranchText(o) + NameStatusText(o), FileText(o));
    EndsWithTrans(head + tail, tail, FileText(o));
  }

  method FlagCommand(o: Options) returns (command: string)
    ensures command == "git log " + FlagText(o)
  {
    command := "git log ";
    if IsOn(o.findCopiesHarder) {
      command := command + "--find-copies-harder ";
    }
    if IsOn(o.all) {
      command := command + "--all ";
    }
    if IsOn(o.includeMergeCommitFiles) {
      command := command + "-m ";
    }
  }

  method AppendTail(command0: string, o: Options) returns (command: string)
    ensures command == command0 + TailText(o)
  {
    command := command0;
    if IsSet(o.branch) {
      command := command + " " + o.branch.value;
    }
    assert command == command0 + BranchText(o);
    if IsOn(o.nameStatus) {
      command := command + " --name-status";
    }
    assert command == command0 + BranchText(o) + NameStatusText(o);
    if IsSet(o.file) {
      command := command + " -- " + o.file.value;
    }
    assert command == command0 + BranchText(o) + NameStatusText(o) + FileText(o);
    AppendAssoc(command0, BranchText(o), NameStatusText(o));
    AppendAssoc(command0, BranchText(o) + NameStatusText(o), FileText(o));
  }

  /** The command-building part of `gitlog`, from the flags to the file filter. */
  method BuildCommand(o: Options) returns (r: Result<string>)
    ensures r == CommandText(o)
  {
    var command := FlagCommand(o);
    command := command + "-n " + NumberText(o.number);
    command := AddOptional(command, o);
    command := command + " --pretty=\"@begin@";
    var placeholders := FieldLoop(TsGitlog.FieldsOf(o), JsFieldMap, NameStatusFields);
    if placeholders.Err? {
      return Err(placeholders.error);
    }
    command := command + placeholders.value;
    command := command + "@end@\"";
    assert command == HeadText(o, placeholders.value);
    command := AppendTail(command, o);
    r := Ok(command);
  }

  // ---------------------------------------------------------------------------
  // What the command string promises

  /** The filters appear in the reverse of their list order, each only when set. */
  lemma FilterOrder(o: Options)
    ensures FilterTexts(o, 0)
      == FilterText("committer", o.committer) + FilterText("before", o.before) + FilterText("until", o.until)
      + FilterText("after", o.after) + FilterText("since", o.since) + FilterText("author", o.author)
  {
    assert FilterTexts(o, 5) == FilterText("committer", o.committer);
    assert FilterTexts(o, 4) == FilterTexts(o, 5) + FilterText("before", o.before);
    assert FilterTexts(o, 3) == FilterTexts(o, 4) + FilterText("until", o.until);
    assert FilterTexts(o, 2) == FilterTexts(o, 3) + FilterText("after", o.after);
    assert FilterTexts(o, 1) == FilterTexts(o, 2) + FilterText("since", o.since);
  }

  /** An unknown field is reported, naming the first one; any other list gives a command. */
  lemma UnknownFieldFails(o: Options)
    ensures CommandText(o).Err? <==> !AllKnown(TsGitlog.FieldsOf(o), JsFieldMap, NameStatusFields)
    ensures CommandText(o).Err? ==>
      CommandText(o).error == "Unknown field: " + TsGitlog.FieldsOf(o)[FirstUnknown(TsGitlog.FieldsOf(o), JsFieldMap, NameStatusFields)]
  {
  }

  /**
   * The two newer variants accept the same field lists except that only the TypeScript one
   * knows `tag`, and for an accepted list they write the same placeholders.
   */
  lemma SameFormatAsTs(o: Options)
    ensures CommandText(o).Ok? <==> TsGitlog.CommandArguments(o).Ok? && "tag" !in TsGitlog.FieldsOf(o)
    ensures CommandText(o).Ok? ==>
      CommandText(o).value == HeadText(o, Tokens(TsGitlog.FieldsOf(o), TsFieldMap)) + TailText(o)
  {
    JsTsFieldFormat(TsGitlog.FieldsOf(o));
  }

  /** The tail is the name-status switch exactly when name-status is on and no branch or file is given. */
  lemma TailOnlyNameStatus(o: Options)
    requires !IsSet(o.branch) && !IsSet(o.file)
    ensures TailText(o) == (if IsOn(o.nameStatus) then " --name-status" else "")
  {
  }

  /** No filter options, no filter text. */
  lemma NoFilterTexts(o: Options)
    requires o.author.None? && o.since.None? && o.after.None?
    requires o.until.None? && o.before.None? && o.committer.None?
    ensures FilterTexts(o, 0) == ""
  {
    FilterOrder(o);
    assert FilterText("committer", o.committer) == "" && FilterText("before", o.before) == "" && FilterText("until", o.until) == "";
    assert FilterText("after", o.after) == "" && FilterText("since", o.since) == "" && FilterText("author", o.author) == "";
  }

  /** The default fields are all in the table, and their placeholders are `%h %H %s %an`, tab-led. */
  lemma DefaultPlaceholders()
    ensures AllKnown(DefaultFields, JsFieldMap, NameStatusFields)
    ensures Tokens(DefaultFields, JsFieldMap) == Delimiter + "%h" + Delimiter + "%H" + Delimiter + "%s" + Delimiter + "%an"
  {
    DefaultFieldEntries();
    JsExtendsLegacy("abbrevHash");
    JsExtendsLegacy("hash");
    JsExtendsLegacy("subject");
    JsExtendsLegacy("authorName");
    FourTokens("abbrevHash", "hash", "subject", "authorName", JsFieldMap);
  }

  /** Options that ask for nothing but a count of ten and name-status. */
  predicate Plain(o: Options) {
    && NumberText(o.number) == "10" && IsOn(o.nameStatus)
    && !IsOn(o.findCopiesHarder) && !IsOn(o.all) && !IsOn(o.includeMergeCommitFiles)
    && o.author.None? && o.since.None? && o.after.None?
    && o.until.None? && o.before.None? && o.committer.None?
    && o.branch.None? && o.file.None?
  }

  /** The command for plain options whose placeholder part is `t`. */
  lemma PlainCommand(o: Options, t: string)
    requires Plain(o)
    requires FieldFormat(TsGitlog.FieldsOf(o), JsFieldMap, NameStatusFields) == Ok(t)
    ensures CommandText(o) == Ok("git log " + "-n " + "10" + " --pretty=\"@begin@" + t + "@end@\"" + " --name-status")
  {
    NoFilterTexts(o);
    assert FlagText(o) == "";
    var pretty := " --pretty=\"@begin@" + t + "@end@\"";
    assert HeadText(o, t) == "git log " + "" + "-n " + "10" + "" + pretty;
    assert "git log " + "" == "git log ";
    assert "git log " + "-n " + "10" + "" == "git log " + "-n " + "10";
    assert BranchText(o) == "" && FileText(o) == "";
    assert TailText(o) == " --name-status";
  }

  /** With no options but the repository and the field list, ten commits and name-status. */
  lemma DefaultCommand(repo: string, fields: seq<string>)
    requires AllKnown(fields, JsFieldMap, NameStatusFields)
    ensures CommandText(Merge(Defaults, NoOptions.(repo := Some(repo), fields := Some(fields))))
      == Ok("git log " + "-n " + "10" + " --pretty=\"@begin@" + Tokens(fields, JsFieldMap) + "@end@\"" + " --name-status")
    ensures Merge(Defaults, NoOptions.(repo := Some(repo))).fields == Some(DefaultFields)
  {
    MergeRepoFields(Defaults, repo, fields);
    var o := Defaults.(repo := Some(repo), fields := Some(fields));
    TsGitlog.TenText();
    PlainCommand(o, Tokens(fields, JsFieldMap));
  }

  // ---------------------------------------------------------------------------
  // The parser

  /** The assignment loop of src/index.js, which throws when it pushes onto a value that is not an array. */
  method AssignValues(commit: seq<string>, fields: seq<string>, nameStatus: bool) returns (r: Result<Commit>)
    requires Named(fields)
    ensures r == JsAssigned(commit, fields, nameStatus, |commit|)
  {
    var parsed: Commit := map[];
    if nameStatus {
      parsed := parsed["status" := List([])];
      parsed := parsed["files" := List([])];
    }
    assert parsed == InitialRecord(nameStatus);
    var index := 0;
    while index < |commit|
      invariant 0 <= index <= |commit|
      invariant JsAssigned(commit, fields, nameStatus, index) == Ok(parsed)
    {
      var commitField := commit[index];
      if index < |fields| {
        parsed := parsed[fields[index] := Str(commitField)];
      } else if nameStatus {
        var key := Slot(index - |fields|);
        if !(key in parsed && parsed[key].List?) {
          assert JsAssigned(commit, fields, nameStatus, index + 1) == Err(PushError);
          JsAssignedAgrees(commit, fields, nameStatus, index + 1);
          JsAssignedAgrees(commit, fields, nameStatus, |commit|);
          return Err(PushError);
        }
        parsed := parsed[key := List(parsed[key].items + [commitField])];
      }
      index := index + 1;
    }
    r := Ok(parsed);
  }

  /** `commits.map(...)`, which stops at the first commit that throws. */
  function ParseAll(commits: seq<string>, fields: seq<string>, nameStatus: bool): (r: Result<seq<Commit>>)
    ensures r.Ok? ==> |r.value| == |commits|
    ensures r.Err? ==> r.error == PushError
  {
    if commits == [] then Ok([])
    else
      match ParseAll(commits[..|commits| - 1], fields, nameStatus)
      case Err(e) => Err(e)
      case Ok(ps) =>
        match JsParseCommit(commits[|commits| - 1], fields, nameStatus)
        case Err(e) => Err(e)
        case Ok(p) => Ok(ps + [p])
  }

  /** `parseCommits` of src/index.js. */
  method ParseCommits(commits: seq<string>, fields: seq<string>, nameStatus: bool) returns (r: Result<seq<Commit>>)
    requires Named(fields)
    ensures r == ParseAll(commits, fields, nameStatus)
  {
    var parsed: seq<Commit> := [];
    var k := 0;
    while k < |commits|
      invariant 0 <= k <= |commits|
      invariant ParseAll(commits[..k], fields, nameStatus) == Ok(parsed)
    {
      assert commits[..k + 1][..k] == commits[..k];
      var values := TsGitlog.CommitValues(commits[k]);
      var record := AssignValues(values, fields, nameStatus);
      if record.Err? {
        StaysFailed(commits, fields, nameStatus, k + 1);
        return Err(record.error);
      }
      parsed := parsed + [record.value];
      k := k + 1;
    }
    assert commits[..k] == commits;
    r := Ok(parsed);
  }

  /** Once a prefix of the commits throws, the whole list throws the same error. */
  lemma {:induction false} StaysFailed(commits: seq<string>, fields: seq<string>, nameStatus: bool, k: nat)
    requires k <= |commits| && ParseAll(commits[..k], fields, nameStatus).Err?
    ensures ParseAll(commits, fields, nameStatus) == ParseAll(commits[..k], fields, nameStatus)
    decreases |commits| - k
  {
    if k < |commits| {
      assert commits[..k + 1][..k] == commits[..k];
      StaysFailed(commits, fields, nameStatus, k + 1);
    } else {
      assert commits[..k] == commits;
    }
  }

  /** Whether the record of some commit would need a push onto a replaced list. */
  predicate SomeCrash(commits: seq<string>, fields: seq<string>, nameStatus: bool) {
    exists k :: 0 <= k < |commits| && JsCrashes(fields, nameStatus, |FlatValues(commits[k])|)
  }

  lemma SomeCrashSnoc(init: seq<string>, last: string, fields: seq<string>, nameStatus: bool)
    ensures SomeCrash(init + [last], fields, nameStatus)
      <==> SomeCrash(init, fields, nameStatus) || JsCrashes(fields, nameStatus, |FlatValues(last)|)
  {
    var commits := init + [last];
    if SomeCrash(commits, fields, nameStatus) {
      var k :| 0 <= k < |commits| && JsCrashes(fields, nameStatus, |FlatValues(commits[k])|);
      if k < |init| {
        assert init[k] == commits[k];
      }
    }
    if SomeCrash(init, fields, nameStatus) {
      var k :| 0 <= k < |init| && JsCrashes(fields, nameStatus, |FlatValues(init[k])|);
      assert commits[k] == init[k];
    }
    if JsCrashes(fields, nameStatus, |FlatValues(last)|) {
      assert commits[|init|] == last;
    }
  }

  /**
   * The JavaScript parse throws exactly when some commit would push onto a replaced list,
   * and otherwise yields the records of the TypeScript parse.
   */
  lemma {:induction false} ParseAgreesWithTs(commits: seq<string>, fields: seq<string>, nameStatus: bool)
    ensures ParseAll(commits, fields, nameStatus)
      == if SomeCrash(commits, fields, nameStatus) then Err(PushError) else Ok(TsGitlog.ParseAll(commits, fields, nameStatus))
  {
    if commits == [] {
      assert TsGitlog.ParseAll(commits, fields, nameStatus) == [];
    } else {
      var init := commits[..|commits| - 1];
      var last := commits[|commits| - 1];
      assert commits == init + [last];
      ParseAgreesWithTs(init, fields, nameStatus);
      var values := FlatValues(last);
      JsAssignedAgrees(values, fields, nameStatus, |values|);
      SomeCrashSnoc(init, last, fields, nameStatus);
      TsGitlog.ParseAllSnoc(init, last, fields, nameStatus);
    }
  }

  // ---------------------------------------------------------------------------
  // The front

  /**
   * `gitlog` of src/index.js in its synchronous form: the repository checks, the defaulting,
   * the command, and the parse of what `run` (standing for `execSync(command)`) prints.
   */
  method Gitlog(userOptions: Options, repoExists: string -> bool, run: string -> string) returns (r: Result<seq<Commit>>)
    ensures !IsSet(userOptions.repo) ==> r == Err("Repo required!")
    ensures IsSet(userOptions.repo) && !repoExists(userOptions.repo.value) ==> r == Err("Repo location does not exist")
    ensures IsSet(userOptions.repo) && repoExists(userOptions.repo.value) ==>
      var o := Merge(Defaults, userOptions);
      match CommandText(o)
      case Err(e) => r == Err(e)
      case Ok(command) => r == ParseAll(SplitChunks(run(command)), TsGitlog.FieldsOf(o), IsOn(o.nameStatus))
  {
    if !IsSet(userOptions.repo) {
      return Err("Repo required!");
    }
    if !repoExists(userOptions.repo.value) {
      return Err("Repo location does not exist");
    }
    var options := Merge(Defaults, userOptions);
    var command := BuildCommand(options);
    if command.Err? {
      return Err(command.error);
    }
    var stdout := run(command.value);
    var commits := TsGitlog.CommitChunks(stdout);
    TablesLackEmptyName();
    KnownFieldsNamed(TsGitlog.FieldsOf(options), JsFieldMap);
    r := ParseCommits(commits, TsGitlog.FieldsOf(options), IsOn(options.nameStatus));
  }
}
