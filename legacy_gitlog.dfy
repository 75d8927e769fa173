/**
 * The oldest variant (index.js): a shell command without record sentinels, one commit per
 * output line, and flat records whose values are all strings.
 */
module LegacyGitlog {
  import opened Wrappers
  import opened Text
  import opened Protocol
  import opened DecodeFacts
  import opened FormatFacts
  import TsGitlog
  import JsGitlog

  /** `defaultOptions`: ten commits and the same four fields as src/index.js. */
  const Defaults: Options := NoOptions.(number := Some(10), fields := Some(JsGitlog.DefaultFields))

  /** A parsed commit: field name to value. */
  type Record = map<string, string>

  /** `String(undefined)`, the key a value gets when it has no field name. */
  const Undefined: string := "undefined"

  // ---------------------------------------------------------------------------
  // The command string

  /** ` --key="value"` for one of the three filters, when it is set; `opening` is ` --key="`. */
  function FilterText(opening: string, v: Option<string>): string {
    if IsSet(v) then opening + v.value + "\"" else ""
  }

  function FilterTexts(o: Options): string {
    FilterText(" --author=\"", o.author) + FilterText(" --since=\"", o.since) + FilterText(" --until=\"", o.until)
  }

  function BranchText(o: Options): string {
    if IsSet(o.branch) then " " + o.branch.value else ""
  }

  /** The whole command, or the error for the first field not in the table (the two name-status names included). */
  function CommandText(o: Options): (r: Result<string>)
    ensures r.Ok? <==> AllKnown(TsGitlog.FieldsOf(o), LegacyFieldMap, {})
    ensures r.Ok? ==> |r.value| >= 3 && r.value[..3] == "cd "
    ensures r.Ok? && IsSet(o.branch) ==> EndsWith(r.value, " " + o.branch.value)
  {
    match FieldFormat(TsGitlog.FieldsOf(o), LegacyFieldMap, {})
    case Err(e) => Err(e)
    case Ok(t) =>
      Ok("cd " + o.repo.GetOr("") + " && git log -n " + NumberText(o.number) + FilterTexts(o)
        + " --pretty=\"" + t + "\"" + BranchText(o))
  }

  /** One filter test of `gitlog`: append ` --key="value"` when the option is set. */
  method AddFilter(command: string, opening: string, v: Option<string>) returns (r: string)
    ensures r == command + FilterText(opening, v)
  {
    r := command;
    if IsSet(v) {
      r := r + (opening + v.value + "\"");
    }
  }

  /** The three filter tests of `gitlog`, in their order. */
  method AddFilters(start: string, o: Options) returns (command: string)
    ensures command == start + FilterTexts(o)
  {
    command := AddFilter(start, " --author=\"", o.author);
    command := AddFilter(command, " --since=\"", o.since);
    command := AddFilter(command, " --until=\"", o.until);
    AppendAssoc(start, FilterText(" --author=\"", o.author), FilterText(" --since=\"", o.since));
    AppendAssoc(start, FilterText(" --author=\"", o.author) + FilterText(" --since=\"", o.since), FilterText(" --until=\"", o.until));
  }

  /** The command-building part of `gitlog`. */
  method BuildCommand(o: Options) returns (r: Result<string>)
    ensures r == CommandText(o)
  {
    var start := "cd " + o.repo.GetOr("") + " && git log -n " + NumberText(o.number);
    var command := AddFilters(start, o);
    command := command + " --pretty=\"";
    var placeholders := FieldLoop(TsGitlog.FieldsOf(o), LegacyFieldMap, {});
    if placeholders.Err? {
      return Err(placeholders.error);
    }
    command := command + placeholders.value;
    command := command + "\"";
    assert command == start + FilterTexts(o) + " --pretty=\"" + placeholders.value + "\"";
    if IsSet(o.branch) {
      var arg := " " + o.branch.value;
      command := command + arg;
    }
    assert command == start + FilterTexts(o) + " --pretty=\"" + placeholders.value + "\"" + BranchText(o);
    r := Ok(command);
  }

  // ---------------------------------------------------------------------------
  // What the command string promises

  /** Any field outside the fifteen-entry table is rejected, `status` and `files` included. */
  lemma UnknownFieldFails(o: Options)
    ensures CommandText(o).Err? <==> exists i :: 0 <= i < |TsGitlog.FieldsOf(o)| && TsGitlog.FieldsOf(o)[i] !in LegacyFieldMap
    ensures CommandText(o).Err? ==>
      CommandText(o).error == "Unknown field: " + TsGitlog.FieldsOf(o)[FirstUnknown(TsGitlog.FieldsOf(o), LegacyFieldMap, {})]
    ensures "status" in TsGitlog.FieldsOf(o) || "files" in TsGitlog.FieldsOf(o) ==> CommandText(o).Err?
  {
    assert "status" !in LegacyFieldMap && "files" !in LegacyFieldMap;
  }

  /** Every list the oldest variant accepts gets the same placeholders from the newest one. */
  lemma SameFormatAsTs(o: Options)
    requires CommandText(o).Ok?
    ensures TsGitlog.CommandArguments(o).Ok?
    ensures FieldFormat(TsGitlog.FieldsOf(o), LegacyFieldMap, {}) == FieldFormat(TsGitlog.FieldsOf(o), TsFieldMap, NameStatusFields)
  {
    var fs := TsGitlog.FieldsOf(o);
    forall i | 0 <= i < |fs| ensures Known(fs[i], TsFieldMap, NameStatusFields) {
      JsExtendsLegacy(fs[i]);
    }
    LegacyTsTokensAgree(fs);
  }

  /** With no options but the repository and the field list: ten commits, and nothing but the format after them. */
  lemma DefaultCommand(repo: string, fields: seq<string>)
    requires forall i :: 0 <= i < |fields| ==> fields[i] in LegacyFieldMap
    ensures CommandText(Merge(Defaults, NoOptions.(repo := Some(repo), fields := Some(fields))))
      == Ok("cd " + repo + " && git log -n " + "10" + " --pretty=\"" + Tokens(fields, LegacyFieldMap) + "\"")
    ensures Merge(Defaults, NoOptions.(repo := Some(repo))).fields == Some(JsGitlog.DefaultFields)
  {
    MergeRepoFields(Defaults, repo, fields);
    var o := Defaults.(repo := Some(repo), fields := Some(fields));
    assert AllKnown(fields, LegacyFieldMap, {});
    TsGitlog.TenText();
    PlainCommand(o, repo, Tokens(fields, LegacyFieldMap));
  }

  /** The command for options that set no filter and no branch. */
  lemma PlainCommand(o: Options, repo: string, t: string)
    requires o.repo == Some(repo) && NumberText(o.number) == "10"
    requires FieldFormat(TsGitlog.FieldsOf(o), LegacyFieldMap, {}) == Ok(t)
    requires o.author.None? && o.since.None? && o.until.None? && o.branch.None?
    ensures CommandText(o) == Ok("cd " + repo + " && git log -n " + "10" + " --pretty=\"" + t + "\"")
  {
    var head := "cd " + repo + " && git log -n " + "10";
    assert FilterTexts(o) == "";
    assert BranchText(o) == "";
    assert CommandText(o) == Ok(head + "" + " --pretty=\"" + t + "\"" + "");
    assert head + "" == head;
    assert head + " --pretty=\"" + t + "\"" + "" == head + " --pretty=\"" + t + "\"";
  }

  // ---------------------------------------------------------------------------
  // The parser

  /** The key of the value at `index`: its field, or `undefined` past the end of the list. */
  function KeyAt(fields: seq<string>, index: nat): string {
    if index < |fields| then fields[index] else Undefined
  }

  /** The record after the first `n` values of a line have been assigned. */
  function LineAssigned(values: seq<string>, fields: seq<string>, n: nat): (r: Record)
    requires n <= |values|
    ensures forall i :: 0 <= i < n ==> KeyAt(fields, i) in r
  {
    if n == 0 then map[] else LineAssigned(values, fields, n - 1)[KeyAt(fields, n - 1) := values[n - 1]]
  }

  /** The values of one output line, the one before the first tab dropped. */
  function LineValues(line: string): seq<string> {
    Split(line, Delimiter)[1..]
  }

  /** The record index.js builds from one output line. */
  function ParseLine(line: string, fields: seq<string>): (r: Record)
    ensures forall i :: 0 <= i < |LineValues(line)| ==> KeyAt(fields, i) in r
  {
    var values := LineValues(line);
    LineAssigned(values, fields, |values|)
  }

  /** `stdout.split('\n')` and the unconditional pop of the last element. */
  function OutputLines(stdout: string): (r: seq<string>)
    ensures |r| == |Split(stdout, "\n")| - 1
    ensures forall i :: 0 <= i < |r| ==> !Contains(r[i], "\n")
    ensures r != [] ==> Join(r, "\n") + "\n" <= stdout
  {
    var lines := Split(stdout, "\n");
    var r := lines[..|lines| - 1];
    if r == [] then r
    else
      assert lines == r + [lines[|lines| - 1]];
      JoinSnoc(r, "\n", lines[|lines| - 1]);
      r
  }

  function ParseAll(lines: seq<string>, fields: seq<string>): (r: seq<Record>)
    ensures |r| == |lines|
  {
    seq(|lines|, k requires 0 <= k < |lines| => ParseLine(lines[k], fields))
  }

  /** The `forEach` assigning each value to its field. */
  method AssignLine(commit: seq<string>, fields: seq<string>) returns (parsed: Record)
    ensures parsed == LineAssigned(commit, fields, |commit|)
  {
    parsed := map[];
    var index := 0;
    while index < |commit|
      invariant 0 <= index <= |commit|
      invariant parsed == LineAssigned(commit, fields, index)
    {
      parsed := parsed[KeyAt(fields, index) := commit[index]];
      index := index + 1;
    }
  }

  /** `parseCommits` of index.js. */
  method ParseCommits(commits: seq<string>, fields: seq<string>) returns (parsed: seq<Record>)
    ensures parsed == ParseAll(commits, fields)
  {
    parsed := [];
    var k := 0;
    while k < |commits|
      invariant 0 <= k <= |commits|
      invariant parsed == ParseAll(commits[..k], fields)
    {
      var commit := Split(commits[k], Delimiter);
      commit := commit[1..];
      var record := AssignLine(commit, fields);
      parsed := parsed + [record];
      k := k + 1;
    }
    assert commits[..k] == commits;
  }

  // ---------------------------------------------------------------------------
  // What the parser promises

  /** What `LineShape` promises about the record after `n` values. */
  predicate LineShaped(r: Record, values: seq<string>, fields: seq<string>, n: nat)
    requires n <= |values|
  {
    var m := Min(n, |fields|);
    && r.Keys == FieldKeys(fields, m) + (if n > |fields| then {Undefined} else {})
    && (forall i :: 0 <= i < m && LastAt(fields, i, m) && (n > |fields| ==> fields[i] != Undefined)
          ==> fields[i] in r && r[fields[i]] == values[i])
    && (n > |fields| ==> Undefined in r && r[Undefined] == values[n - 1])
  }

  /** A value at a named position adds its field, which now holds it. */
  lemma NamedStep(r0: Record, values: seq<string>, fields: seq<string>, n: nat)
    requires 0 < n <= |fields| && n <= |values|
    requires LineShaped(r0, values, fields, n - 1)
    ensures LineShaped(r0[fields[n - 1] := values[n - 1]], values, fields, n)
  {
    var r := r0[fields[n - 1] := values[n - 1]];
    assert Min(n - 1, |fields|) == n - 1 && Min(n, |fields|) == n;
    assert FieldKeys(fields, n) == FieldKeys(fields, n - 1) + {fields[n - 1]};
    forall i | 0 <= i < n && LastAt(fields, i, n) ensures fields[i] in r && r[fields[i]] == values[i] {
      if i < n - 1 {
        assert fields[n - 1] != fields[i];
        assert LastAt(fields, i, n - 1);
      }
    }
  }

  /** A value past the names goes to `undefined` and leaves every other key alone. */
  lemma ExtraStep(r0: Record, values: seq<string>, fields: seq<string>, n: nat)
    requires |fields| < n <= |values|
    requires LineShaped(r0, values, fields, n - 1)
    ensures LineShaped(r0[Undefined := values[n - 1]], values, fields, n)
  {
    assert Min(n - 1, |fields|) == |fields| && Min(n, |fields|) == |fields|;
  }

  /** One assignment keeps the record shaped. */
  lemma LineStep(values: seq<string>, fields: seq<string>, n: nat)
    requires 0 < n <= |values|
    requires LineShaped(LineAssigned(values, fields, n - 1), values, fields, n - 1)
    ensures LineShaped(LineAssigned(values, fields, n), values, fields, n)
  {
    if n <= |fields| {
      NamedStep(LineAssigned(values, fields, n - 1), values, fields, n);
    } else {
      ExtraStep(LineAssigned(values, fields, n - 1), values, fields, n);
    }
  }

  /** Before any value the record is empty. */
  lemma LineInitial(values: seq<string>, fields: seq<string>)
    ensures LineShaped(LineAssigned(values, fields, 0), values, fields, 0)
  {
    assert FieldKeys(fields, 0) == {};
  }

  /**
   * After `n` values the record holds the named fields assigned so far, each at its last
   * position, plus `undefined` holding the last value once the values outrun the names.
   */
  lemma {:induction false} LineShape(values: seq<string>, fields: seq<string>, n: nat)
    requires n <= |values|
    ensures LineShaped(LineAssigned(values, fields, n), values, fields, n)
  {
    if n == 0 {
      LineInitial(values, fields);
    } else {
      LineShape(values, fields, n - 1);
      LineStep(values, fields, n);
    }
  }

  /** A line made of a tab before each value splits back into those values. */
  lemma LineValuesOfRendered(values: seq<string>)
    requires forall i :: 0 <= i < |values| ==> '\t' !in values[i]
    ensures LineValues(Join([""] + values, Delimiter)) == values
  {
    var parts := [""] + values;
    forall i | 0 <= i < |parts| ensures '\t' !in parts[i] {
      if i > 0 {
        assert parts[i] == values[i - 1];
      }
    }
    SplitJoinChar(parts, '\t');
  }

  /**
   * The record round trip: a line of one tab-free value per field decodes to exactly those
   * field names, each holding the value at its last position in the list.
   */
  lemma ParseRenderedLine(values: seq<string>, fields: seq<string>)
    requires |values| == |fields|
    requires forall i :: 0 <= i < |values| ==> '\t' !in values[i]
    ensures var r := ParseLine(Join([""] + values, Delimiter), fields);
      r.Keys == (set f | f in fields)
      && forall i :: 0 <= i < |fields| && LastAt(fields, i, |fields|) ==> fields[i] in r && r[fields[i]] == values[i]
  {
    LineValuesOfRendered(values);
    LineShape(values, fields, |values|);
    assert Min(|values|, |fields|) == |fields|;
    AllFieldKeys(fields);
  }

  /** Values past the field list land under the key `undefined`, the last one winning. */
  lemma ExtraValues(values: seq<string>, fields: seq<string>)
    requires |values| > |fields|
    requires forall i :: 0 <= i < |values| ==> '\t' !in values[i]
    ensures var r := ParseLine(Join([""] + values, Delimiter), fields);
      Undefined in r && r[Undefined] == values[|values| - 1]
  {
    LineValuesOfRendered(values);
    LineShape(values, fields, |values|);
  }

  /** Appending a newline-free line keeps every line newline-free. */
  lemma NewlineFreeSnoc(lines: seq<string>, last: string)
    requires forall i :: 0 <= i < |lines| ==> '\n' !in lines[i]
    requires '\n' !in last
    ensures forall i :: 0 <= i < |lines + [last]| ==> '\n' !in (lines + [last])[i]
  {
    forall i | 0 <= i < |lines + [last]| ensures '\n' !in (lines + [last])[i] {
      if i < |lines| {
        assert (lines + [last])[i] == lines[i];
      }
    }
  }

  /** Output whose every line ends in a newline gives back exactly its lines. */
  lemma OutputLinesOfRendered(lines: seq<string>)
    requires forall i :: 0 <= i < |lines| ==> '\n' !in lines[i]
    ensures OutputLines(Join(lines + [""], "\n")) == lines
  {
    var parts := lines + [""];
    NewlineFreeSnoc(lines, "");
    SplitJoinChar(parts, '\n');
    assert parts[..|parts| - 1] == lines;
  }

  /** Without its final newline the last line is the one popped, and so it is lost. */
  lemma MissingNewlineDropsLastLine(lines: seq<string>)
    requires |lines| >= 1
    requires forall i :: 0 <= i < |lines| ==> '\n' !in lines[i]
    ensures OutputLines(Join(lines, "\n")) == lines[..|lines| - 1]
  {
    SplitJoinChar(lines, '\n');
  }

  /** Empty output gives no commits. */
  lemma EmptyOutput(fields: seq<string>)
    ensures OutputLines("") == [] && ParseAll(OutputLines(""), fields) == []
  {
    SplitJoinChar([""], '\n');
  }

  // ---------------------------------------------------------------------------
  // The front

  /**
   * `gitlog` of index.js: the two up-front checks, in order, then the defaulting and the
   * command, whose output `run` (standing for `exec`) yields; the callback receives the
   * records, here the result.
   */
  method Gitlog(userOptions: Options, hasCallback: bool, run: string -> string) returns (r: Result<seq<Record>>)
    ensures !IsSet(userOptions.repo) ==> r == Err("Repo required!")
    ensures IsSet(userOptions.repo) && !hasCallback ==> r == Err("Callback required!")
    ensures IsSet(userOptions.repo) && hasCallback ==>
      var o := Merge(Defaults, userOptions);
      match CommandText(o)
      case Err(e) => r == Err(e)
      case Ok(command) => r == Ok(ParseAll(OutputLines(run(command)), TsGitlog.FieldsOf(o)))
  {
    if !IsSet(userOptions.repo) {
      return Err("Repo required!");
    }
    if !hasCallback {
      return Err("Callback required!");
    }
    var options := Merge(Defaults, userOptions);
    var command := BuildCommand(options);
    if command.Err? {
      return Err(command.error);
    }
    var stdout := run(command.value);
    var commits := Split(stdout, "\n");
    commits := commits[..|commits| - 1];
    var parsed := ParseCommits(commits, TsGitlog.FieldsOf(options));
    r := Ok(parsed);
  }
}
