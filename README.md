# gitlog — a Dafny model

`gitlog` asks `git log` for commits in a custom format and turns the captured output
into records. The repository ships three variants of the same idea:

- `src/index.ts`, the TypeScript library. It builds an argument vector. Every commit is
  wrapped in the sentinels `@begin@` … `@end@`. Values are separated by a tab, and the
  optional `--name-status` block is decoded into `status` and `files` lists.
- `src/index.js`, the older JavaScript library. It does the same through one shell
  command string. Its parser throws where the TypeScript one skips a value.
- `index.js`, the oldest variant. It has a `cd <repo> && git log …` command, one commit
  per output line and flat string records.

The model keeps the form of the code:

- The builders' and parsers' loops are Dafny methods with `while` loops.
- Each method is proved equal to a reference function.
- The properties the library promises are proved about those functions as lemmas.

Those properties include:

- which error comes first;
- the order of the filter arguments;
- the default command;
- that `--name-status` and `-L` exclude each other;
- how positional values map to field names;
- how rename lines expand;
- where the TypeScript and JavaScript parsers agree and where the JavaScript one throws;
- a round trip from a rendered `git log` output back to the record values.

Modules:

- `Wrappers` holds `Option` and `Result`.
- `Text` models JavaScript `split`, `join`, `trimLeft` and integer-to-text conversion. `Split` cuts at the leftmost occurrence of the separator: the first piece ends where `FindFrom` first finds it.
- `Protocol` holds the options record, its defaulting, the field tables and the reference decoder.
- `FormatFacts` and `DecodeFacts` hold the lemmas about the format and the decoder.
- `TsGitlog`, `JsGitlog` and `LegacyGitlog` model one source file each.
- `RoundTrip` renders a log and proves that it decodes back.

JavaScript semantics written out:

- An optional string option is truthy when it is given and non-empty (`IsSet`).
- A flag is on only when it is `true` (`IsOn`).
- `{ ...defaults, ...user }` and `_.extend(defaults, user)` are `Merge`: each property the caller gave wins.
- `${options.number}` is the decimal text of the number, or `undefined` when it is absent.
- `"\t" + fieldMap["status"]` is the text `\tundefined`, because `status` and `files` are not in the table.
- Both builders walk the filter keys from the last to the first. So `--committer` comes first and `--author` last.
- `abbrevParentHashes` is mapped to `%P`, the same as `parentHashes`, in all three tables, as in the source.

## Model

| member | source | states |
|---|---|---|
| Protocol.Merge | src/index.ts:350-353 | For every one of the sixteen options, the caller's value wins when given, and otherwise the default is used. This is the spread of the defaults and then the user options. |
| Protocol.MergeRepoFields | src/index.ts:125-132 | A caller giving only the repository, and perhaps the fields, gets exactly the defaults for every other option. |
| Protocol.FirstUnknown | src/index.ts:270-273 | The index of the first field that is neither in the table nor a name-status name; every earlier field is known. |
| Protocol.FieldFormat | src/index.ts:269-277 | Building the placeholder list succeeds exactly when every field is in the table or is `status`/`files`. |
| Protocol.Deletions | src/index.ts:190-196 | The pairs pushed for the intermediate paths: twice as many values as paths, `D` at each even position and the matching path after it. |
| Protocol.ExpandItem | src/index.ts:185-199 | One split line becomes its status, then its last path, then a `D` pair per intermediate path exactly when the status starts with `R` (`IsRename`); otherwise just the two values. |
| Protocol.NameStatusLines | src/index.ts:171-176 | The lines of the left-trimmed block contain no newline, and joining them on newlines gives the trimmed block back, perhaps without its one final newline. |
| Protocol.FlatValues | src/index.ts:167-205 | A chunk's values begin with the tab-split values before `@end@`, without the first empty one. |
| Protocol.SplitChunks | src/index.ts:363-367 | No chunk contains `@begin@`, and joining the chunks on `@begin@` gives the output back, perhaps without a leading `@begin@`. |
| Protocol.Slot | src/index.ts:220 | A value past the field names goes to `status` exactly at an even offset and to `files` exactly at an odd one. |
| Protocol.Assigned | src/index.ts:207-236 | After `n` values the record holds `status` and `files` when name-status is on, and a key for every field name at a position already visited. |
| Protocol.ParseCommit | src/index.ts:159-240 | The record of a chunk holds `status` and `files` when name-status is on, and every field name that received a value. |
| Protocol.JsAssignStep | src/index.js:103-118 | One assignment of the throwing parser gives the skipping one's step; it throws only the `push` TypeError (`PushError`), for a value past the names with name-status on. |
| Protocol.JsAssigned | src/index.js:103-118 | The throwing parser's assignment of `n` values gives the skipping one's record, or the `push` TypeError. |
| Protocol.JsParseCommit | src/index.js:51-122 | The throwing parser's record of a chunk is the skipping one's record, or the `push` TypeError. |
| Protocol.SplitItems | src/index.ts:179-181 | Splitting each name-status line on the tab gives one non-empty item per line. |
| Text.Split | src/index.ts:167-168 | `split` returns at least one piece, joining the pieces with the separator gives the input back, and no piece contains the separator. |
| Text.TrimLeft | src/index.ts:171 | `trimLeft` removes exactly the leading whitespace: the result is the input's suffix that starts at its first non-space character. |
| Text.NatToString | src/index.ts:261 | The decimal text of a count is a non-empty string of digits whose value is that count, with no leading zero unless it is `0` itself. |
| Text.DenotesUnique | src/index.ts:261 | That canonical text is unique: any digit string without a leading zero that denotes the count is the rendered text. |
| Text.IntToString | src/index.ts:261 | The text starts with `-` exactly when the integer is negative. For a non-negative integer it is the canonical digits of the integer. For a negative one, `-` is followed by the canonical digits of its magnitude. |
| Text.SplitJoin | src/index.ts:363 | Splitting a join of pieces, each free of the separator and none ending where a separator could begin, gives back the pieces. |
| Text.SplitLeftmost | src/index.ts:167-168 | `split` cuts at the leftmost occurrence: with no occurrence the input is the only piece; otherwise the first piece is the text before the first occurrence, followed by the pieces of the rest. |
| Text.FindFrom | src/index.ts:167 | The search behind `split` and `indexOf`: a found position is at or after the start, the pattern occurs there, and it occurs at no earlier position from the start; not found means it occurs nowhere from the start. |
| Text.JoinSnoc | src/index.ts:167-168 | `join`, the inverse used to state `split`: joining one more piece appends the separator and that piece. |
| Text.SplitJoinChar | src/index.ts:168 | For a one-character separator, splitting the join of separator-free pieces gives back the pieces. |
| Text.TrimLeftLead | src/index.ts:171 | `trimLeft` of leading whitespace followed by text that starts with a non-space is that text. |
| FormatFacts.TokensAsJoin | src/index.ts:275 | The placeholder text is a tab before each field's placeholder, i.e. a join of `""` and the placeholders on the tab. |
| FormatFacts.TokensSnoc | src/index.ts:270-276 | Each further field appends a tab and its placeholder. |
| FormatFacts.DefaultFieldEntries | index.js:7-22 | The TypeScript variant's five default fields (src/index.ts:52-58) map to `%h`, `%H`, `%s`, `%an` and `%ai` in the oldest table. |
| FormatFacts.TsTokensTabFree | src/index.ts:12-32 | No placeholder of the TypeScript table (nor the `undefined` of a name-status name) contains the tab delimiter. |
| FormatFacts.JsTokensTabFree | src/index.js:7-27 | No placeholder of the JavaScript table contains the tab delimiter. |
| FormatFacts.TsFormatSlots | src/index.ts:266-280 | Splitting the placeholder text on the tab gives an empty first slot and then one slot per field, in order. |
| FormatFacts.JsFormatSlots | src/index.js:168-180 | The same slot layout for the JavaScript table. |
| FormatFacts.TokensAgree | src/index.ts:275 | Two tables that agree on the requested fields give the same placeholder text. |
| FormatFacts.TsExtendsJs | src/index.ts:12-32 | The TypeScript table is the JavaScript one plus `tag` only. |
| FormatFacts.JsExtendsLegacy | src/index.js:7-27 | The JavaScript table extends the oldest one without changing any entry. |
| FormatFacts.JsTsTokensAgree | src/index.js:171-177 | On fields the JavaScript builder accepts, both builders emit the same placeholders. |
| FormatFacts.JsTsFieldFormat | src/index.js:171-177 | The JavaScript builder accepts a field list exactly when the TypeScript one does and `tag` is not requested, and then emits the same placeholders. |
| FormatFacts.LegacyTsTokensAgree | index.js:58-61 | On fields the oldest builder accepts, it emits the same placeholders as the TypeScript one. |
| FormatFacts.KnownFieldsNamed | src/index.ts:217 | Every accepted field name is non-empty, so the parser's `fields[index]` test is true at every named position. |
| FormatFacts.TablesLackEmptyName | src/index.ts:12-32 | None of the three tables has the empty name. |
| FormatFacts.FirstUnknownAt | src/index.ts:270-273 | The first unknown field is the one the message names. |
| FormatFacts.FieldLoop | src/index.ts:270-276 | The `forEach` over the fields throws for the first field that is not known, or else yields the placeholder text. |
| TsGitlog.FilterArgs | src/index.ts:149-153 | At most one argument per remaining filter, each starting with `--`. |
| TsGitlog.RangeArg | src/index.ts:293-297 | The line-range argument starts with `-L ` and ends with `:` and the file. |
| TsGitlog.HeadArgs | src/index.ts:247-281 | The vector up to the format: `log`, `-l0`, the flags, then `-n` and the count right after the flags, and the format as the last element. |
| TsGitlog.TailArgs | src/index.ts:283-302 | After the format: the branch first when it is set, and `--` and the file last when the file is set. |
| TsGitlog.CommandArguments | src/index.ts:243-307 | The vector builds exactly when every field is known; it then starts with `log`, `-l0` and holds the format for the requested fields. |
| TsGitlog.AddOptionalArguments | src/index.ts:135-156 | The command with one `--key=value` element appended for each set filter, in the order the countdown loop visits them. |
| TsGitlog.FlagCommand | src/index.ts:247-259 | `log`, `-l0`, then `--find-copies-harder`, `--all` and `-m` for the flags that are on. |
| TsGitlog.AppendTail | src/index.ts:283-302 | Appends the branch, then `--name-status` unless a line range is given, then `-L start,end:file`, then `--` and the file. |
| TsGitlog.CreateCommandArguments | src/index.ts:243-307 | The whole argument vector, or the error for the first unknown field. |
| TsGitlog.FilterOrder | src/index.ts:149-153 | The filter arguments come in the order committer, before, until, after, since, author. |
| TsGitlog.FilterArgsMembership | src/index.ts:149-153 | An element is among the filter arguments exactly when it is `--key=value` for a filter whose value is set. |
| TsGitlog.UnknownFieldFails | src/index.ts:270-273 | Building fails exactly when some field is unknown, with `Unknown field: ` and the first unknown field. |
| TsGitlog.RangeArgIsRange | src/index.ts:293-297 | The line-range argument starts with `-L ` and is not `--name-status`. |
| TsGitlog.HeadArgsNeutral | src/index.ts:247-281 | No argument before the branch is `--name-status` or a line range. |
| TsGitlog.NameStatusOrLineRange | src/index.ts:289-297 | When the branch and file values are not themselves `--name-status` or `-L …`: `--name-status` is present exactly when name-status is on and no line range is given; a line range is present exactly when one is given; never both. |
| TsGitlog.TailFacts | src/index.ts:283-302 | The same two if-and-only-ifs for the arguments after the format. |
| TsGitlog.DefaultPlaceholders | src/index.ts:52-58 | The five default fields are known and expand to `\t%h\t%H\t%s\t%an\t%ai`. |
| TsGitlog.TenText | src/index.ts:126 | The default count renders as `10`. |
| TsGitlog.DefaultHead | src/index.ts:247-281 | With the defaults, the head of the vector is `log`, `-l0`, `-n 10` and the format. |
| TsGitlog.DefaultArguments | src/index.ts:125-132 | With only a repository and known fields, the vector is `log -l0 "-n 10" --pretty=@begin@…@end@ --name-status`; without fields the five default fields are used. |
| TsGitlog.ExpandLine | src/index.ts:185-199 | One name-status item becomes its status and last path, then `D` and each intermediate path when the status starts with `R`. |
| TsGitlog.BlockLines | src/index.ts:171-176 | The block, left-trimmed and split on newlines, with one final empty line dropped. |
| TsGitlog.ExpandAll | src/index.ts:185-199 | The concatenated expansions of all items. |
| TsGitlog.BlockValues | src/index.ts:171-199 | The flat status/path values of a name-status block. |
| TsGitlog.CommitValues | src/index.ts:167-205 | The tab-split values before `@end@`, then the block's values when the block is truthy, without the leading empty value. |
| TsGitlog.AssignValues | src/index.ts:207-236 | The record after assigning every value: a field name takes its value; past the names the values alternate into `status` and `files` when those are still arrays; otherwise they are dropped. |
| TsGitlog.ParseAllSnoc | src/index.ts:166 | Parsing one more chunk appends that chunk's record. |
| TsGitlog.ParseCommits | src/index.ts:159-240 | One record per chunk, each the reference decoding of that chunk. |
| TsGitlog.CommitChunks | src/index.ts:363-367 | The output split on `@begin@`, with an empty first piece dropped; empty output gives no chunk. |
| TsGitlog.Gitlog | src/index.ts:341-371 | A missing repository and then a nonexistent one are rejected first; otherwise an unknown field is an error and no command is run; otherwise the parsed chunks of the output. |
| JsGitlog.FilterTexts | src/index.js:41-45 | The appended filter text is empty or starts with ` --`. |
| JsGitlog.CommandText | src/index.js:148-194 | The command builds exactly when every field is known; when the file is set the command ends with ` -- ` and the file. |
| JsGitlog.ParseAll | src/index.js:51-122 | Parsing all chunks gives one record per chunk, or the `push` TypeError. |
| JsGitlog.AddOptional | src/index.js:30-48 | The command with ` --key="value"` appended for each set filter, committer first. |
| JsGitlog.FlagCommand | src/index.js:149-161 | `git log ` followed by the flag words for the flags that are on. |
| JsGitlog.AppendTail | src/index.js:182-194 | Appends ` branch`, ` --name-status` when on, and ` -- file`. |
| JsGitlog.BuildCommand | src/index.js:148-194 | The whole command string, or the error for the first unknown field. |
| JsGitlog.FilterOrder | src/index.js:41-45 | The filter texts come in the order committer, before, until, after, since, author. |
| JsGitlog.UnknownFieldFails | src/index.js:171-174 | Building fails exactly when some field is unknown, naming the first one. |
| JsGitlog.SameFormatAsTs | src/index.js:168-180 | The JavaScript command builds exactly when the TypeScript vector does and `tag` is not requested, and carries the same placeholders. |
| JsGitlog.TailOnlyNameStatus | src/index.js:187-190 | Without branch and file the tail is ` --name-status` exactly when name-status is on. |
| JsGitlog.NoFilterTexts | src/index.js:41-45 | With no filter given, nothing is appended. |
| JsGitlog.DefaultPlaceholders | src/index.js:136 | The four default fields are known and expand to `\t%h\t%H\t%s\t%an`. |
| JsGitlog.PlainCommand | src/index.js:148-194 | With count 10, name-status on, no flag, filter, branch or file, the command is `git log -n 10 --pretty="@begin@…@end@" --name-status`. |
| JsGitlog.DefaultCommand | src/index.js:134-145 | With only a repository and known fields, that is the command; without fields the four default fields are used. |
| JsGitlog.AssignValues | src/index.js:94-118 | The record after assigning every value, or the `push` TypeError when a name-status value reaches a list that a field replaced. |
| JsGitlog.ParseCommits | src/index.js:51-122 | The records of all chunks, or the first chunk's TypeError. |
| JsGitlog.StaysFailed | src/index.js:52 | Once a chunk throws, the whole parse is that error. |
| JsGitlog.SomeCrashSnoc | src/index.js:116 | Some chunk of a longer list throws exactly when an earlier one does or the new one does. |
| JsGitlog.ParseAgreesWithTs | src/index.js:103-118 | The JavaScript parser gives the TypeScript parser's records unless some chunk pushes onto a replaced list, and then it throws. |
| JsGitlog.Gitlog | src/index.js:125-212 | Repository checks first; then an unknown field is an error with no command run; otherwise the parsed chunks of the command's output. |
| LegacyGitlog.CommandText | index.js:40-69 | The command builds exactly when every field is in the table. It then starts with `cd `, and ends with a space and the branch when the branch is set. |
| LegacyGitlog.LineAssigned | index.js:90-94 | After `n` values the record has a key for the field name (or `undefined`) at every position visited. |
| LegacyGitlog.ParseLine | index.js:83-98 | The record of a line has a key for the name at the position of every value of the line. |
| LegacyGitlog.OutputLines | index.js:72-75 | The output split on newlines with the last piece popped: one line fewer than the pieces, no line holds a newline, and the lines joined on newlines, with a final newline, begin the output. |
| LegacyGitlog.AddFilter | index.js:42-52 | Appends ` --key="value"` when that filter is set. |
| LegacyGitlog.AddFilters | index.js:42-52 | Appends the author, since and until filters, in that order. |
| LegacyGitlog.BuildCommand | index.js:40-69 | The whole `cd … && git log -n …` command, or the error for the first field not in the table. |
| LegacyGitlog.UnknownFieldFails | index.js:58-61 | Building fails exactly when some field is not in the table, naming the first one; asking for `status` or `files` always fails. |
| LegacyGitlog.SameFormatAsTs | index.js:58-61 | A field list the oldest builder accepts is accepted by the TypeScript one with the same placeholders. |
| LegacyGitlog.PlainCommand | index.js:40-64 | With count 10 and no filter or branch, the command is `cd repo && git log -n 10 --pretty="…"`. |
| LegacyGitlog.DefaultCommand | index.js:28-37 | With only a repository and known fields, that is the command; without fields the four default fields are used. |
| LegacyGitlog.AssignLine | index.js:90-96 | The record after assigning each value to the field at its position; values past the names go to `undefined`. |
| LegacyGitlog.ParseCommits | index.js:83-98 | One record per output line, each the reference decoding. |
| LegacyGitlog.LineShape | index.js:92-94 | After `n` values, the keys are the names assigned so far (plus `undefined` once values outrun names), each holding the value at its last position. |
| LegacyGitlog.ParseRenderedLine | index.js:83-98 | A line of one tab-free value per field decodes to exactly those names, each with its value. |
| LegacyGitlog.ExtraValues | index.js:92-94 | Values past the field list land under `undefined`, the last one winning. |
| LegacyGitlog.OutputLinesOfRendered | index.js:72-75 | Output whose every line ends in a newline gives back exactly its lines. |
| LegacyGitlog.MissingNewlineDropsLastLine | index.js:72-75 | Without a final newline, the popped element is the last line, which is lost. |
| LegacyGitlog.EmptyOutput | index.js:72-77 | Empty output gives no commits. |
| LegacyGitlog.Gitlog | index.js:24-81 | A missing repository, then a missing callback, are rejected; then an unknown field; otherwise the parsed output lines. |
| DecodeFacts.AllFieldKeys | src/index.ts:216-218 | The names at all positions of the field list are exactly its members. |
| DecodeFacts.LastOccurrence | src/index.ts:216-218 | A name in the list has a last position, the one whose value survives. |
| DecodeFacts.EvensOddsSnoc | src/index.ts:220 | One more value goes to `status` at an even offset and to `files` at an odd one. |
| DecodeFacts.EvensOddsAppend | src/index.ts:198 | After an even number of values, appending a line's values extends both lists separately. |
| DecodeFacts.DeletionsAlternate | src/index.ts:190-196 | The synthesised pairs give one `D` status and one path per intermediate path. |
| DecodeFacts.ExpandItemAlternates | src/index.ts:185-199 | One line's values alternate: its statuses at even offsets, its paths at odd ones. |
| DecodeFacts.ExpandItemsAlternate | src/index.ts:185-199 | Across all lines, even offsets are the statuses and odd offsets the paths, equally many of each. |
| DecodeFacts.AssignedShape | src/index.ts:207-236 | After `n` values the record holds the initial lists and the names assigned so far, each at its last position, and the values past the names alternate into `status` and `files` unless a field replaced that list. |
| DecodeFacts.SlotIsList | src/index.ts:230-234 | At a value past the names, the slot's key is still a list exactly when no field took that name. |
| DecodeFacts.JsAssignedAgrees | src/index.js:103-118 | The throwing assignment gives the skipping one's record, or throws exactly when a value reaches a replaced list. |
| DecodeFacts.BlockItems | src/index.ts:179-181 | Every split name-status line is a non-empty item. |
| DecodeFacts.FlatValuesLayout | src/index.ts:167-205 | A chunk's values are its fixed values followed by the expanded name-status items. |
| DecodeFacts.ParseCommitZip | src/index.ts:159-240 | With one value per field and no field called `status`/`files`, the record has exactly the field names (plus the two lists), each with its value, and the lists hold the statuses and paths. |
| RoundTrip.FixedSplits | src/index.ts:168 | The tab-joined values, split on the tab, give back `""` and the values. |
| RoundTrip.FixedEndsCleanly | src/index.ts:167 | Plain values contain no sentinel and do not end with one minus its last character. |
| RoundTrip.LineSplits | src/index.ts:179-181 | A rendered name-status line splits back into its status and paths. |
| RoundTrip.TrimBlock | src/index.ts:171 | `trimLeft` removes exactly the blank lines before the name-status lines. |
| RoundTrip.BlockLinesDecode | src/index.ts:171-176 | A rendered block decodes to exactly its lines. |
| RoundTrip.LinesSplit | src/index.ts:179-181 | The rendered lines split into exactly the items. |
| RoundTrip.BlockDecodes | src/index.ts:170-181 | A non-empty rendered block decodes to its items; an empty one has no changes. |
| RoundTrip.BlockClean | src/index.ts:167 | A rendered block contains neither sentinel. |
| RoundTrip.EntrySplitsAtEnd | src/index.ts:167 | A rendered commit splits on `@end@` into its values part and its block. |
| RoundTrip.EntryLayout | src/index.ts:167-205 | A rendered commit's fixed values are its values and its block items are its changes. |
| RoundTrip.ParseRenderedEntry | src/index.ts:159-240 | Decoding a rendered commit gives back every field value and the statuses and paths of its changes. |
| RoundTrip.EntryHasNoBegin | src/index.ts:363 | A rendered commit contains no `@begin@` and does not end with its prefix. |
| RoundTrip.SplitRenderedLog | src/index.ts:363-367 | Cutting a rendered log on `@begin@` gives back the rendered commits. |
| RoundTrip.ParseRenderedLog | src/index.ts:363-370 | A rendered log of well-formed commits parses into one record per commit, each decoding back to that commit's values and changes. |
| RoundTrip.RenameLine | src/index.ts:190-196 | `R100 old new` gives statuses `R100`, `D` and files `new`, `old`; `M a` gives just `M`, `a`. |
| RoundTrip.TrailingBlankLine | src/index.ts:173-176 | A block with one extra trailing newline keeps an empty line, which adds an empty status and an empty path. |
| RoundTrip.TrailingBlankLines | src/index.ts:173-176 | Only one final empty line is dropped. |
| RoundTrip.LeftoverBlock | src/index.ts:185-187 | A block `end@` decodes to the status `end@` with the path `end@`. |
| RoundTrip.EndSuffixValues | src/index.ts:167-168 | A last value ending in `@end` makes the split match `@end@` early. |
| RoundTrip.EndSuffixTruncates | src/index.ts:167-236 | A last value ending in `@end` is decoded without that suffix, and `end@` appears as a spurious status/file pair. |

## Left out

- Running `git` is left out: `execFileSync`, `execFile`, `execSync` and `exec`, their callbacks and `stderr`. Each `Gitlog` method takes the process as a function parameter from the arguments, or the command, to the captured output. The asynchronous path returns what the synchronous one returns.
- `existsSync` is a predicate parameter `repoExists`.
- The oldest variant's callback is a boolean `hasCallback`.
- The `debug` logger is left out: it has no effect on results.
- `execOptions` and the `lodash.assign` merge into it are left out: they only reach the process call.
- The shell, and what `git` does with the arguments, are left out. A filter value with a quote changes the JavaScript command's meaning; the model builds the text only.
- `trimLeft` treats space, tab, newline, carriage return, vertical tab and form feed as whitespace. The other Unicode spaces are left out.
- Object prototype keys are left out. A field named `constructor` or `toString` passes the JavaScript table lookup `!fieldMap[field]` in the source; the model looks names up in the table's own entries only.
- An option given explicitly as `undefined` is not modelled. It overrides the default in a spread; the model's `None` means "not given".
- `${options.number}` is modelled for integers only. Floating-point counts and exponent notation are left out.
- Array aliasing is left out. `addOptionalArguments` pushes onto the array it was given, and the caller then uses the returned one; the model returns a new sequence.
- TsGitlog.AssignValues: requires non-empty field names (`Named`). `parseCommits` is module-private and is called only with fields the builder has accepted, and no table has the empty name (`FormatFacts.TablesLackEmptyName`, `FormatFacts.KnownFieldsNamed`). The empty name's negative-offset slot is not modelled.
- TsGitlog.ParseCommits: requires `Named` for the same reason.
- JsGitlog.AssignValues: requires `Named` for the same reason.
- JsGitlog.ParseCommits: requires `Named` for the same reason.
- TsGitlog.ExpandLine: requires a non-empty item; `split` never returns an empty array.

Behaviour of the code worth knowing, which the model reproduces:

- A rename line `R100 old new` does record `old` as a deleted path. The loop runs once for the one intermediate path (`RoundTrip.RenameLine`).
- A block that ends in two newlines keeps one empty line, which decodes to an empty status and an empty path (`RoundTrip.TrailingBlankLine`).
- The format is not self-delimiting when a last value ends in `@end` or `@begin`. The round-trip lemmas exclude those values, and `RoundTrip.EndSuffixTruncates` shows the value that breaks it.
