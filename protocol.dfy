/**
 * The wire protocol shared by every variant of the library: the options record and its
 * defaulting, the field-name tables, and the reference definitions of how one captured
 * `git log` output is cut into commits and decoded into records.
 */
module Protocol {
  import opened Wrappers
  import opened Text

  /** The field separator of the custom format, and the two record sentinels. */
  const Delimiter: string := "\t"
  const BeginMarker: string := "@begin@"
  const EndMarker: string := "@end@"

  // ---------------------------------------------------------------------------
  // Options

  /** The end of a line range: an absolute line number or an offset text such as "+5". */
  datatype LineEnd = EndLine(line: int) | EndText(text: string)

  datatype LineRange = LineRange(file: string, startLine: int, endLine: LineEnd)

  /** The caller's options record; `None` is a property the caller did not give. */
  datatype Options = Options(
    repo: Option<string>,
    findCopiesHarder: Option<bool>,
    all: Option<bool>,
    includeMergeCommitFiles: Option<bool>,
    number: Option<int>,
    fields: Option<seq<string>>,
    nameStatus: Option<bool>,
    branch: Option<string>,
    fileLineRange: Option<LineRange>,
    file: Option<string>,
    author: Option<string>,
    committer: Option<string>,
    since: Option<string>,
    after: Option<string>,
    until: Option<string>,
    before: Option<string>)

  const NoOptions: Options :=
    Options(None, None, None, None, None, None, None, None, None, None, None, None, None, None, None, None)

  /** `{ ...defaults, ...user }`: every property the caller gave wins over the default. */
  function Merge(defaults: Options, user: Options): (o: Options)
    ensures o.repo == (if user.repo.Some? then user.repo else defaults.repo)
    ensures o.number == (if user.number.Some? then user.number else defaults.number)
    ensures o.fields == (if user.fields.Some? then user.fields else defaults.fields)
    ensures o.nameStatus == (if user.nameStatus.Some? then user.nameStatus else defaults.nameStatus)
    ensures o.findCopiesHarder == (if user.findCopiesHarder.Some? then user.findCopiesHarder else defaults.findCopiesHarder)
    ensures o.all == (if user.all.Some? then user.all else defaults.all)
    ensures o.includeMergeCommitFiles == (if user.includeMergeCommitFiles.Some? then user.includeMergeCommitFiles else defaults.includeMergeCommitFiles)
    ensures o.branch == (if user.branch.Some? then user.branch else defaults.branch)
    ensures o.fileLineRange == (if user.fileLineRange.Some? then user.fileLineRange else defaults.fileLineRange)
    ensures o.file == (if user.file.Some? then user.file else defaults.file)
    ensures o.author == (if user.author.Some? then user.author else defaults.author)
    ensures o.committer == (if user.committer.Some? then user.committer else defaults.committer)
    ensures o.since == (if user.since.Some? then user.since else defaults.since)
    ensures o.after == (if user.after.Some? then user.after else defaults.after)
    ensures o.until == (if user.until.Some? then user.until else defaults.until)
    ensures o.before == (if user.before.Some? then user.before else defaults.before)
  {
    Options(
      Or(user.repo, defaults.repo),
      Or(user.findCopiesHarder, defaults.findCopiesHarder),
      Or(user.all, defaults.all),
      Or(user.includeMergeCommitFiles, defaults.includeMergeCommitFiles),
      Or(user.number, defaults.number),
      Or(user.fields, defaults.fields),
      Or(user.nameStatus, defaults.nameStatus),
      Or(user.branch, defaults.branch),
      Or(user.fileLineRange, defaults.fileLineRange),
      Or(user.file, defaults.file),
      Or(user.author, defaults.author),
      Or(user.committer, defaults.committer),
      Or(user.since, defaults.since),
      Or(user.after, defaults.after),
      Or(user.until, defaults.until),
      Or(user.before, defaults.before))
  }

  function Or<T>(given: Option<T>, default: Option<T>): Option<T> {
    if given.Some? then given else default
  }

  /** A caller who gives only the repository and perhaps the field list gets the defaults for everything else. */
  lemma MergeRepoFields(defaults: Options, repo: string, fields: seq<string>)
    ensures Merge(defaults, NoOptions.(repo := Some(repo), fields := Some(fields)))
      == defaults.(repo := Some(repo), fields := Some(fields))
    ensures Merge(defaults, NoOptions.(repo := Some(repo))) == defaults.(repo := Some(repo))
  {
  }

  /** JavaScript truthiness of an optional string: given and not empty. */
  predicate IsSet(s: Option<string>) {
    s.Some? && s.value != ""
  }

  /** JavaScript truthiness of an optional flag. */
  predicate IsOn(b: Option<bool>) {
    b == Some(true)
  }

  /** `${options.number}`: the decimal text, or "undefined" when there is no number. */
  function NumberText(n: Option<int>): string {
    if n.Some? then IntToString(n.value) else "undefined"
  }

  /** `options[key]` for the six filter properties. */
  function FilterValue(o: Options, key: string): Option<string> {
    match key
    case "author" => o.author
    case "since" => o.since
    case "after" => o.after
    case "until" => o.until
    case "before" => o.before
    case "committer" => o.committer
    case _ => None
  }

  /** The filter keys in the order the option loop lists them (both builders walk it backwards). */
  const CmdOptional: seq<string> := ["author", "since", "after", "until", "before", "committer"]

  // ---------------------------------------------------------------------------
  // Field tables

  /** The fifteen fields of the oldest variant. */
  const LegacyFieldMap: map<string, string> := map[
    "hash" := "%H", "abbrevHash" := "%h", "treeHash" := "%T", "abbrevTreeHash" := "%t",
    "parentHashes" := "%P", "abbrevParentHashes" := "%P",
    "authorName" := "%an", "authorEmail" := "%ae", "authorDate" := "%ai", "authorDateRel" := "%ar",
    "committerName" := "%cn", "committerEmail" := "%ce", "committerDate" := "%cd",
    "committerDateRel" := "%cr", "subject" := "%s"]

  /** The JavaScript variant adds the two message bodies. */
  const JsFieldMap: map<string, string> := LegacyFieldMap + map["body" := "%b", "rawBody" := "%B"]

  /** The TypeScript variant adds the ref names. */
  const TsFieldMap: map<string, string> := JsFieldMap + map["tag" := "%D"]

  /** Names that are not placeholders but receive the decoded name-status block. */
  const NameStatusFields: set<string> := {"status", "files"}

  predicate Known(f: string, fmap: map<string, string>, reserved: set<string>) {
    f in fmap || f in reserved
  }

  predicate AllKnown(fields: seq<string>, fmap: map<string, string>, reserved: set<string>) {
    forall i :: 0 <= i < |fields| ==> Known(fields[i], fmap, reserved)
  }

  /** `fieldMap[field]`, which is `undefined` for the reserved names. */
  function Token(f: string, fmap: map<string, string>): string {
    if f in fmap then fmap[f] else "undefined"
  }

  /** The placeholder part of the format: a tab and the token, for each field in order. */
  function Tokens(fields: seq<string>, fmap: map<string, string>): string {
    if fields == [] then ""
    else Tokens(fields[..|fields| - 1], fmap) + Delimiter + Token(fields[|fields| - 1], fmap)
  }

  /** The position of the first field that is neither in the table nor reserved. */
  function FirstUnknown(fields: seq<string>, fmap: map<string, string>, reserved: set<string>): (k: nat)
    requires !AllKnown(fields, fmap, reserved)
    ensures k < |fields| && !Known(fields[k], fmap, reserved)
    ensures forall j :: 0 <= j < k ==> Known(fields[j], fmap, reserved)
  {
    if !Known(fields[0], fmap, reserved) then 0
    else
      assert !AllKnown(fields[1..], fmap, reserved) by {
        var i :| 0 <= i < |fields| && !Known(fields[i], fmap, reserved);
        assert fields[1..][i - 1] == fields[i];
      }
      1 + FirstUnknown(fields[1..], fmap, reserved)
  }

  /** The placeholder part of the format, or the error the field loop throws at the first unknown field. */
  function FieldFormat(fields: seq<string>, fmap: map<string, string>, reserved: set<string>): (r: Result<string>)
    ensures r.Ok? <==> AllKnown(fields, fmap, reserved)
  {
    if AllKnown(fields, fmap, reserved) then Ok(Tokens(fields, fmap))
    else Err("Unknown field: " + fields[FirstUnknown(fields, fmap, reserved)])
  }

  // ---------------------------------------------------------------------------
  // Commit records

  /** A record property: a field value, or one of the two name-status lists. */
  datatype Value = Str(text: string) | List(items: seq<string>)

  type Commit = map<string, Value>

  /**
   * The parser is handed only field names the builder accepted, and all of those are
   * non-empty, so JavaScript's `fields[index]` is truthy exactly when `index < |fields|`.
   */
  predicate Named(fields: seq<string>) {
    forall i :: 0 <= i < |fields| ==> fields[i] != ""
  }

  /** The list a name-status value goes to, by its offset past the named fields. */
  function Slot(offset: nat): (key: string)
    ensures key == "status" <==> offset % 2 == 0
    ensures key == "files" <==> offset % 2 == 1
  {
    if offset % 2 == 0 then "status" else "files"
  }

  /** The record a commit starts from: the two empty lists when name-status was requested. */
  function InitialRecord(nameStatus: bool): Commit {
    if nameStatus then map["status" := List([]), "files" := List([])] else map[]
  }

  /** One step of the assignment loop of src/index.ts: value `v` at position `index`. */
  function AssignStep(parsed: Commit, fields: seq<string>, nameStatus: bool, index: nat, v: string): Commit {
    if index < |fields| then parsed[fields[index] := Str(v)]
    else if nameStatus then
      var key := Slot(index - |fields|);
      if key in parsed && parsed[key].List? then parsed[key := List(parsed[key].items + [v])] else parsed
    else parsed
  }

  /** The record after the first `n` values have been assigned. */
  function Assigned(values: seq<string>, fields: seq<string>, nameStatus: bool, n: nat): (r: Commit)
    requires n <= |values|
    ensures nameStatus ==> NameStatusFields <= r.Keys
    ensures forall i :: 0 <= i < |fields| && i < n ==> fields[i] in r
  {
    if n == 0 then InitialRecord(nameStatus)
    else AssignStep(Assigned(values, fields, nameStatus, n - 1), fields, nameStatus, n - 1, values[n - 1])
  }

  /** What `push` on a value that is not an array throws. */
  const PushError: string := "TypeError: parsed[notOptFields[pos]].push is not a function"

  /** One step of the assignment loop of src/index.js, where pushing onto a non-array throws. */
  function JsAssignStep(parsed: Commit, fields: seq<string>, nameStatus: bool, index: nat, v: string): (r: Result<Commit>)
    ensures r.Ok? ==> r.value == AssignStep(parsed, fields, nameStatus, index, v)
    ensures r.Err? ==> r.error == PushError && index >= |fields| && nameStatus
  {
    if index < |fields| then Ok(parsed[fields[index] := Str(v)])
    else if nameStatus then
      var key := Slot(index - |fields|);
      if key in parsed && parsed[key].List? then Ok(parsed[key := List(parsed[key].items + [v])])
      else Err(PushError)
    else Ok(parsed)
  }

  /** The record after the first `n` values, or the error of the first push onto a non-array. */
  function JsAssigned(values: seq<string>, fields: seq<string>, nameStatus: bool, n: nat): (r: Result<Commit>)
    requires n <= |values|
    ensures r.Ok? ==> r.value == Assigned(values, fields, nameStatus, n)
    ensures r.Err? ==> r.error == PushError
  {
    if n == 0 then Ok(InitialRecord(nameStatus))
    else
      match JsAssigned(values, fields, nameStatus, n - 1)
      case Err(e) => Err(e)
      case Ok(parsed) => JsAssignStep(parsed, fields, nameStatus, n - 1, values[n - 1])
  }

  // ---------------------------------------------------------------------------
  // Name-status block

  /** `status.slice(0, 1) === "R"`. */
  predicate IsRename(status: string) {
    StartsWithChar(status, 'R')
  }

  /** The elements strictly between the status and the last path of a split line. */
  function Middle(item: seq<string>): seq<string> {
    if |item| >= 2 then item[1..|item| - 1] else []
  }

  /** A synthetic `D` status before each path. */
  function Deletions(paths: seq<string>): (r: seq<string>)
    ensures |r| == 2 * |paths|
    ensures forall i :: 0 <= i < |paths| ==> r[2 * i] == "D" && r[2 * i + 1] == paths[i]
  {
    if paths == [] then [] else Deletions(paths[..|paths| - 1]) + ["D", paths[|paths| - 1]]
  }

  /** The values one split name-status line contributes: status and last path, then a deletion per middle path of a rename. */
  function ExpandItem(item: seq<string>): (r: seq<string>)
    requires |item| >= 1
    ensures |r| >= 2 && r[0] == item[0] && r[1] == item[|item| - 1]
    ensures |r| == if IsRename(item[0]) && |item| >= 2 then 2 * |item| - 2 else 2
  {
    [item[0], item[|item| - 1]] + (if IsRename(item[0]) then Deletions(Middle(item)) else [])
  }

  predicate NonEmptyItems(items: seq<seq<string>>) {
    forall i :: 0 <= i < |items| ==> |items[i]| >= 1
  }

  /** `reduce((a, b) => a.concat(expand(b)), [])` over the split lines. */
  function ExpandItems(items: seq<seq<string>>): seq<string>
    requires NonEmptyItems(items)
  {
    if items == [] then [] else ExpandItems(items[..|items| - 1]) + ExpandItem(items[|items| - 1])
  }

  /** The lines of a name-status block: leading white space trimmed, split on newlines, one trailing empty line dropped. */
  function NameStatusLines(block: string): (r: seq<string>)
    ensures forall i :: 0 <= i < |r| ==> !Contains(r[i], "\n")
    ensures Join(r, "\n") == TrimLeft(block) || Join(r, "\n") + "\n" == TrimLeft(block)
  {
    var lines := Split(TrimLeft(block), "\n");
    if lines[|lines| - 1] == "" then
      DropEmptyLast(lines, "\n");
      lines[..|lines| - 1]
    else lines
  }

  function SplitItems(lines: seq<string>): (items: seq<seq<string>>)
    ensures |items| == |lines| && NonEmptyItems(items)
  {
    seq(|lines|, i requires 0 <= i < |lines| => Split(lines[i], Delimiter))
  }

  function NameStatusValues(block: string): seq<string> {
    ExpandItems(SplitItems(NameStatusLines(block)))
  }

  // ---------------------------------------------------------------------------
  // Commits

  /** `stdout.split("@begin@")` with a leading empty chunk discarded. */
  function SplitChunks(stdout: string): (r: seq<string>)
    ensures forall i :: 0 <= i < |r| ==> !Contains(r[i], BeginMarker)
    ensures Join(r, BeginMarker) == stdout || BeginMarker + Join(r, BeginMarker) == stdout
  {
    var chunks := Split(stdout, BeginMarker);
    if chunks[0] == "" then
      assert |chunks| >= 2 ==> Join(chunks, BeginMarker) == "" + BeginMarker + Join(chunks[1..], BeginMarker);
      chunks[1..]
    else chunks
  }

  /**
   * The flat value list of one raw commit: the tab-separated values before `@end@`, then
   * the expanded name-status block when the text after `@end@` is not empty, with the
   * value before the first tab shifted off.
   */
  function FlatValues(rawCommit: string): (r: seq<string>)
    ensures var head := Split(Split(rawCommit, EndMarker)[0], Delimiter);
      |r| >= |head| - 1 && r[..|head| - 1] == head[1..]
  {
    var parts := Split(rawCommit, EndMarker);
    var head := Split(parts[0], Delimiter);
    var tail := if |parts| > 1 && parts[1] != "" then NameStatusValues(parts[1]) else [];
    ShiftedPrefix(head, tail);
    (head + tail)[1..]
  }

  /** After the first element is shifted off, the rest of the first part still comes first. */
  lemma ShiftedPrefix<T>(head: seq<T>, tail: seq<T>)
    requires |head| >= 1
    ensures |(head + tail)[1..]| >= |head| - 1 && (head + tail)[1..][..|head| - 1] == head[1..]
  {
  }

  /** The record src/index.ts builds from one raw commit. */
  function ParseCommit(rawCommit: string, fields: seq<string>, nameStatus: bool): (r: Commit)
    ensures nameStatus ==> NameStatusFields <= r.Keys
    ensures forall i :: 0 <= i < |fields| && i < |FlatValues(rawCommit)| ==> fields[i] in r
  {
    var values := FlatValues(rawCommit);
    Assigned(values, fields, nameStatus, |values|)
  }

  /** The record src/index.js builds from one raw commit, or the error it throws. */
  function JsParseCommit(rawCommit: string, fields: seq<string>, nameStatus: bool): (r: Result<Commit>)
    ensures r.Ok? ==> r.value == ParseCommit(rawCommit, fields, nameStatus)
    ensures r.Err? ==> r.error == PushError
  {
    var values := FlatValues(rawCommit);
    JsAssigned(values, fields, nameStatus, |values|)
  }

  // ---------------------------------------------------------------------------
  // Reference definitions of the decoded lists

  /** Every other element, starting with the first. */
  function Evens(s: seq<string>): (r: seq<string>)
    ensures |r| == (|s| + 1) / 2
  {
    seq((|s| + 1) / 2, i requires 0 <= i < (|s| + 1) / 2 => s[2 * i])
  }

  /** Every other element, starting with the second. */
  function Odds(s: seq<string>): (r: seq<string>)
    ensures |r| == |s| / 2
  {
    seq(|s| / 2, i requires 0 <= i < |s| / 2 => s[2 * i + 1])
  }

  /** The statuses one name-status line stands for: its own, then a `D` per middle path of a rename. */
  function LineStatuses(item: seq<string>): seq<string>
    requires |item| >= 1
  {
    [item[0]] + (if IsRename(item[0]) then seq(|Middle(item)|, _ => "D") else [])
  }

  /** The paths one name-status line stands for: the last one, then the middle ones of a rename. */
  function LineFiles(item: seq<string>): seq<string>
    requires |item| >= 1
  {
    [item[|item| - 1]] + (if IsRename(item[0]) then Middle(item) else [])
  }

  function Statuses(items: seq<seq<string>>): seq<string>
    requires NonEmptyItems(items)
  {
    if items == [] then [] else Statuses(items[..|items| - 1]) + LineStatuses(items[|items| - 1])
  }

  function Files(items: seq<seq<string>>): seq<string>
    requires NonEmptyItems(items)
  {
    if items == [] then [] else Files(items[..|items| - 1]) + LineFiles(items[|items| - 1])
  }
}
