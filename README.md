# security-mcp-check, modelled in Dafny

A model of the deterministic part of the `security-mcp-check` scanning
pipeline, with proofs of what it promises:

- **rule registry** (`load_rules`, agent/rules.py): the rules directory's
  listing folded into a map from lower-cased extension to `LanguageRule`,
  optionally filtered by a whitelist, the entry listed last winning
  (module `Rules`, imperative: nested loops that assign into the map);
- **file indexer** (`build_file_index`, main.py): the recursive walk,
  pruning of ignored directories at any depth, ignored file names, and the
  split by pathlib's lower-cased suffix (module `Indexer`, imperative);
- **dispatch loop** and the control flow of `main` (main.py): rule lookup
  by suffix, the agent as an oracle `analyse`, the accumulated findings,
  the repository name, the report path, and the early exits (modules
  `Dispatch` and `Scan`);
- **change cache** (`filter_files_by_cache`, config.py): changed and
  unchanged candidates and the fresh digest table, with the digest an
  uninterpreted function of the content (module `Cache`, imperative);
- **report** (`generate_markdown_report`, config.py): a method that
  grows the text with `+=` exactly as the source does. It is proved equal
  to `Render(LayoutOf(...))`, and the properties of the layout are lemmas
  (module `Report`);
- **GitHub helpers** (tools/github_utils.py): `parse_github_url` as the
  two regular expressions written out segment by segment,
  `build_raw_url`, and `coerce_paths` with the JSON parser as an oracle
  (module `GitHubUtils`, pure).

Supporting modules, which model Python builtins rather than functions of
the repository:

- `Strings`: Python's `lower`, `strip`, `lstrip`/`rstrip` of one
  character, `split`, `join`, `rfind` and `removesuffix`;
- `Sorting`: Python's ordering of `str` and `sorted`;
- `Findings`: the `Finding` record;
- `Seqs` and `Wrappers`: generic sequence facts and `Option`.

Each loop of the source is a `method` with a `for` loop. Its invariant
ties the state after `i` steps to a specification function applied to the
first `i` inputs (`Listed`, `LoadAll`, `Collect`, `Changed`/`Kept`/`Fresh`,
`TablesText`). The properties the source promises are lemmas about those
functions.

The program's own text announces more than its code does. The model
follows the code:

- `filter_files_by_cache` (config.py:70-107) documents a split into
  changed and unchanged files, and the report has a "Skipped Files
  (Unchanged)" section (config.py:140-142). But `main` never calls
  `filter_files_by_cache`: every indexed file is dispatched, and no
  skipped list reaches the report.
- The report's "Unanalyzed Files" section (config.py:144-146) explains
  such files as outside the whitelist or in the blacklist. A file whose
  suffix has no rule (main.py:137-140) is passed over and is not recorded
  there.
- The comment at main.py:174 announces the final report. But
  `generate_markdown_report` takes four parameters and main.py:175 passes
  three, so no report is produced. `Scan.RunScan` ends in
  `ReportCallRejected`, which records the arguments of that call.
- A decoding error is not always isolated to its file (see Findings).
  `Scan.RunScan` runs the dispatch loop as written, and ends in
  `HandlerRaised` when that happens.
- `filter_files_by_cache` takes `repo_identifier` but never reads it.

## Model

| member | source | states |
|---|---|---|
| Rules.RuleOf | agent/rules.py:32-38 | language defaults to the directory name, extensions to none, and the prompt is the stripped text, with no whitespace at either end |
| Rules.LoadRules | agent/rules.py:13-50 | not a directory: the empty map; otherwise the fold `LoadAll` of the listing in order, built by the same nested loops |
| Rules.AddExtensionsAt | agent/rules.py:41-48 | after one rule's extensions, a key is present iff it was before or it is an admitted lower-cased extension of the rule; such keys map to that rule, others keep their value |
| Rules.LoadAllAppend | agent/rules.py:19-48 | one more listing entry overwrites exactly the admitted keys it declares, all with its one rule, and leaves every other key as it was |
| Rules.LoadAllKeys | agent/rules.py:41-48 | a key is in the registry iff the whitelist admits it and some rule directory declares an extension that lower-cases to it |
| Rules.KeysLowerCase | agent/rules.py:43-48 | every key is already lower-case |
| Rules.KeysWhitelisted | agent/rules.py:44-48 | with a whitelist, every key is whitelisted |
| Rules.EveryDeclaredExtensionLoaded | agent/rules.py:41-43 | without a whitelist, every extension of every rule directory appears lower-cased as a key |
| Rules.NoRuleSourceNoKeys | agent/rules.py:19-27 | entries that are not directories, or lack `config.yaml` or `prompt.md`, add no key |
| Rules.LastDeclarationWins | agent/rules.py:19-48 | when several directories declare a key, it maps to the rule of the last one listed |
| Indexer.Suffix | main.py:79 | pathlib's suffix: empty, or a dot-started tail of the name with no other dot, taken from the last dot unless that dot is first or last |
| Indexer.BuildFileIndex | main.py:67-83 | the two lists are the walk-order listings of the entries placed in and out of the index |
| Indexer.ListedAppend | main.py:71-82 | the walk's order is kept: an earlier stretch of the walk is listed before a later one |
| Indexer.ListedMember | main.py:71-82 | a path is listed iff some walked entry with that path is placed in that list |
| Indexer.ListedAreFiles | main.py:75-77 | every listed path is that of a regular file whose name is not ignored; directories never appear |
| Indexer.PlacedPathClean | main.py:73-82 | read back from its POSIX string, a placed path has no ignored component, an unignored last name, and a whitelisted key exactly when indexed |
| Indexer.ListedPathClean | main.py:73-82 | the same for every listed path |
| Indexer.IndexDisjoint | main.py:79-82 | no path is both indexed and non-indexed |
| Indexer.PrunedNeverListed | main.py:73-74 | an entry with an ignored directory at any depth, including its own name, is in neither list |
| Indexer.SuffixOfLower | main.py:79 | lower-casing commutes with taking the suffix |
| Indexer.ExtKeyCaseInsensitive | main.py:79 | names equal up to case have the same key, so `FILE.JS` and `file.js` classify alike |
| Indexer.PlacementCaseInsensitive | main.py:75-82 | two surviving files whose names differ only in case land in the same list |
| Dispatch.RuleFor | main.py:136-140 | a rule is found iff the lower-cased suffix is a key, and it is that key's rule |
| Dispatch.FileExt | main.py:136 | `Path(file_path).suffix.lower()`: empty, or a dot followed by at least one character, and already lower-case |
| Dispatch.DispatchFiles | main.py:133-172 | with every failure isolated per file: the findings are `Collect` of the index and the agent runs on `Analysed` of it |
| Dispatch.CollectAppend | main.py:135-165 | findings of later files follow those of earlier ones, whatever happened to the earlier ones |
| Dispatch.FailedFileIsolated | main.py:158-172 | with failures isolated, a failing or rule-less file leaves the findings of all other files as they were |
| Dispatch.AnalysedMember | main.py:135-140 | the agent runs on a file iff it is indexed and its lower-cased suffix has a rule |
| Dispatch.NoRuleNoFindings | main.py:136-140 | a file without a rule contributes no findings |
| Dispatch.DispatchFilesAsWritten | main.py:133-172 | the loop as written, including the escape from the decoding-error handler, computes `RunAsWritten` |
| Dispatch.CrashAbsorbs | main.py:169-170 | once the handler has raised, later files change nothing |
| Dispatch.CrashAt | main.py:158-170 | a decoding error before any run has returned ends the loop right after that file |
| Dispatch.StepAgrees | main.py:158-172 | a step that does not raise adds exactly what the isolated loop adds |
| Dispatch.AsWrittenAgreesUnlessCrashed | main.py:158-172 | when the as-written loop does not raise, it agrees with the isolated loop |
| Dispatch.StepCases | main.py:136-172 | one step of the loop as written: no rule leaves the state alone; a returned run adds its findings and binds `result`; a decoding error raises exactly when no run has returned yet; any other error only records the file |
| Dispatch.DecodeErrorFirstLosesLaterFiles | main.py:158-170 | a decoding error on the first analysed file loses the next file's findings as written, and the isolated loop keeps them |
| Dispatch.DecodeErrorExample | main.py:158-170 | concretely, `a.py` fails to decode and `b.py` returns one finding: as written none is kept |
| Dispatch.PyExt | main.py:136 | `x.py` has the key `.py` |
| Scan.RepoName | main.py:31 | the repository name contains no `/` |
| Scan.WhitelistSet | main.py:90 | the lower-cased whitelist holds exactly the lower-cased entries, and is empty iff the whitelist is |
| Scan.RepoNameIgnoresTrailingSlash | main.py:31 | a trailing slash does not change the name |
| Scan.RepoNameIsLastSegment | main.py:31 | the name is the last `/`-segment without one trailing `.git` |
| Scan.ReportPath | main.py:122 | the report path is `reports/`, then the repository name, then `-security-report.md` |
| Scan.ReportPathShape | main.py:122 | the report path is `reports` and a file name built from the repository name |
| Scan.ReportPathInjective | main.py:122 | different repository names give different report paths |
| Scan.RunScan | main.py:90-175 | ends early iff the lower-cased whitelist is empty, or iff the filtered registry is empty; otherwise runs the dispatch loop as written: ends in `HandlerRaised` iff its decoding-error handler raises, with the files analysed so far; otherwise reaches the report call with the loop's findings, which equal the collected findings, the non-indexed files and the report path |
| Scan.AnalysedFilesQualify | main.py:96-140 | every analysed file has a whitelisted key that has a rule, and no ignored directory in its path |
| Cache.FilterFilesByCache | config.py:70-108 | the three results are `Changed`, `Kept` and `Fresh` of the candidates; the caller's table is a value and is not changed |
| Cache.Partition | config.py:95-106 | each existing candidate is in exactly one of the two lists, skipped iff the stored digest equals the current one; missing candidates are in neither |
| Cache.FreshTable | config.py:93-101 | the new table's keys are exactly the existing candidates, each mapped to its current digest |
| Cache.OrderKept | config.py:95-106 | both lists keep the candidates' order |
| Cache.AllCurrentAllSkipped | config.py:100-106 | a table holding every current digest skips every existing candidate and analyses none |
| Cache.RerunSkipsEverything | config.py:101-106 | re-running on unchanged contents with the returned table skips everything |
| Findings.SeverityName | deps/deps.py:24 | a severity is the string `CRITICAL` or `WARNING` |
| Sorting.SortStrings | config.py:124 | `sorted`: ascending and a permutation |
| Sorting.SortedDistinctAscending | config.py:124 | a sorted list without repeats is strictly ascending |
| Sorting.StrLeTotal | config.py:124 | Python's string order is total |
| Sorting.StrLeTransitive | config.py:124 | Python's string order is transitive |
| Report.Group | config.py:120-122 | a file's group holds only that file's findings |
| Report.GroupMember | config.py:120-122 | a finding is in its own file's group and in no other |
| Report.PathsSpec | config.py:120-124 | the `defaultdict`'s keys are exactly the reported paths, each once |
| Report.SeverityNameOrder | config.py:128 | under Python's string order every CRITICAL sorts before every WARNING |
| Report.SortBySeverity | config.py:128 | stable sort by severity string: a permutation, CRITICAL first, each severity in its reported order |
| Report.CriticalThenWarning | config.py:128 | CRITICAL rows followed by WARNING rows is a permutation in severity order |
| Report.OfSeveritySplit | config.py:128 | the two severities partition the findings |
| Report.LayoutSections | config.py:113-146 | exactly one of the three bodies, chosen by whether findings and skipped files are empty; each list section appears iff its list is non-empty, sorted |
| Report.TablesAscending | config.py:124 | file sections are in strictly ascending path order: each earlier path orders before each later one and not the reverse |
| Report.TablesHoldFindings | config.py:120-128 | every finding is in its file's table; each table is a permutation of its file's findings, CRITICAL first, each severity in order |
| Report.LineCell | config.py:129 | `N/A` exactly when there is no line hint, else the number |
| Report.RecommendationCell | config.py:130 | `-` when there is no recommendation, else the text |
| Report.SeverityCell | config.py:132-136 | CRITICAL is shown in a red font tag and WARNING in an orange one, each around its severity string |
| Report.SeverityCellOneLine | config.py:132-136 | a severity cell holds no line break |
| Report.RowText | config.py:138 | a table row starts with `|` and ends with a line break |
| Report.RowIsOneLine | config.py:138 | when the issue, explanation and recommendation hold no line break, a row is exactly one line |
| Report.IntToString | config.py:138 | `str` of a line number: digits after an optional minus sign, present exactly when the number is negative, and the decimal value read back is the number |
| Report.NatToString | config.py:138 | `str` of a natural number: non-empty digits, no leading zero except `0` itself, whose decimal value is the number |
| Report.IntToStringInjective | config.py:138 | different line numbers are printed differently |
| Report.RenderStartsWithHeader | config.py:113 | every report starts with the fixed header |
| Report.GroupByFile | config.py:120-122 | the `defaultdict` loop: keys in first-occurrence order, each mapped to its findings in order |
| Report.AppendRows | config.py:128-138 | the rows of a table, appended in order |
| Report.AppendTable | config.py:125-138 | one file's heading followed by its rows |
| Report.AppendTableList | config.py:124-138 | one section per sorted path, in order |
| Report.AppendTables | config.py:120-138 | the text grows by the tables of `FileTables` |
| Report.AppendBody | config.py:115-138 | the text grows by the body `BodyOf` chooses |
| Report.AppendList | config.py:140-146 | a list section only for a non-empty list, bullets sorted |
| Report.BulletList | config.py:142 | the bullet list of no files is empty, and of one file is that file's bullet |
| Report.BulletListLines | config.py:142-146 | when no file name holds a line break, the list is exactly one bullet line per file, in order |
| Report.GenerateMarkdownReport | config.py:111-146 | the text built is `Render(LayoutOf(...))` |
| Strings.Strip | agent/rules.py:32 | `strip()` leaves no whitespace at either end |
| Strings.StripIsSlice | agent/rules.py:32 | what `strip()` leaves is a slice with only whitespace around it |
| Strings.RStripChar | main.py:31 | `rstrip("/")` removes exactly the trailing run of `/` |
| Strings.LStripChar | tools/github_utils.py:25 | `lstrip('/')` removes exactly the leading run of `/` |
| Strings.RemoveSuffix | main.py:31 | `removesuffix` drops one trailing copy when there is one, else nothing |
| Strings.RFind | tools/github_utils.py:19 | the index of the last occurrence, or -1 |
| Strings.LowerSpec | agent/rules.py:43 | `str.lower` on ASCII letters: same length, no upper-case letter left, and a character changes exactly when it was an upper-case letter |
| Strings.Split | main.py:31 | `str.split` on one character: at least one piece, and no piece holds the separator |
| Strings.JoinShape | main.py:78 | `sep.join(parts)`: empty for no parts, starting with the first part, and the separator follows it when there are more |
| Strings.SplitJoin | main.py:78 | splitting a join on a separator no part contains gives the parts back |
| GitHubUtils.MatchPatternSound | tools/github_utils.py:6-7 | a match means the prefix, three non-empty slash-free segments around `kind`, and a path up to the first newline |
| GitHubUtils.MatchPattern | tools/github_utils.py:6-7 | a matched URL starts with `https://github.com/`; the captured owner, repository and branch are non-empty segments without `/`, and its path holds no line break |
| GitHubUtils.MatchPatternComplete | tools/github_utils.py:6-7 | every URL of that shape matches and captures exactly its parts |
| GitHubUtils.PatternsExclusive | tools/github_utils.py:15 | at most one of the two patterns matches, so trying `tree` first decides nothing |
| GitHubUtils.BasePath | tools/github_utils.py:19 | the captured path up to its last slash, or empty without one; always a prefix of the path |
| GitHubUtils.BasePathOf | tools/github_utils.py:19 | the base path of `dir/name` is `dir` |
| GitHubUtils.ParseGitHubUrl | tools/github_utils.py:13-20 | `ValueError` iff neither pattern matches |
| GitHubUtils.ParseWellFormed | tools/github_utils.py:13-20 | a well-formed tree or blob URL parses into its parts and the base of its path |
| GitHubUtils.ParsedSegments | tools/github_utils.py:15-18 | whatever parses has non-empty slash-free owner, repo and branch |
| GitHubUtils.TreeUrlDropsItsDirectory | tools/github_utils.py:19 | as written, `.../tree/<branch>/dir/name` gives base path `dir`, not the directory named |
| GitHubUtils.ParseGitHubUrlCorrected | tools/github_utils.py:13-20 | corrected: fails exactly where the original fails |
| GitHubUtils.CorrectedTreeKeepsDirectory | tools/github_utils.py:19 | corrected, a tree URL keeps its whole path |
| GitHubUtils.CorrectedBlobGivesDirectory | tools/github_utils.py:19 | corrected, a blob URL still gives its file's directory |
| GitHubUtils.RawUrlIgnoresLeadingSlashes | tools/github_utils.py:23-25 | leading slashes of the path make no difference |
| GitHubUtils.RawUrlPieces | tools/github_utils.py:23-25 | after the raw host, the pieces are owner, repo, branch and the pieces of the path without leading slashes |
| GitHubUtils.BuildRawUrl | tools/github_utils.py:23-25 | the URL starts with the raw host, ends with the path stripped of its leading slashes, and that path does not start with `/` |
| GitHubUtils.Clean | tools/github_utils.py:41-42 | no element is empty and each is stripped |
| GitHubUtils.InsertCommas | tools/github_utils.py:41 | `replace('', ',')` has length `2n+1` and starts with a comma |
| GitHubUtils.InsertCommasShape | tools/github_utils.py:41 | commas at the even positions, the characters at the odd ones |
| GitHubUtils.KeptChars | tools/github_utils.py:41-42 | single characters of the text that are neither comma nor whitespace |
| GitHubUtils.FallbackKeepsSingleChars | tools/github_utils.py:41-42 | as written, the fallback yields exactly the single non-comma, non-space characters |
| GitHubUtils.OnePathShattered | tools/github_utils.py:41-42 | as written, one path of two or more characters does not come back as itself |
| GitHubUtils.CoercePaths | tools/github_utils.py:31-42 | a list comes back unchanged, a JSON list is returned as parsed, other text goes through the fallback |
| GitHubUtils.FallbackCorrected | tools/github_utils.py:41-42 | corrected: every element non-empty, stripped, without comma or newline |
| GitHubUtils.CoercePathsCorrected | tools/github_utils.py:31-42 | `coerce_paths` with the corrected fallback |
| GitHubUtils.FallbackRoundTrip | tools/github_utils.py:41-42 | corrected, a list of clean paths written with commas or newlines between them comes back as that list |

## Left out

- I/O is left out: reading YAML and JSON, the disk, git, `print`
  logging, creating directories and writing the report. The rules
  directory's listing, the walk, the disk contents and the agent are
  inputs instead.
- YAML values are assumed to have the types the code expects. Entries of
  the JSON list in `coerce_paths` are taken to be strings.
- `Strings.Lower` lower-cases ASCII letters only. Python's `str.lower`
  also folds non-ASCII letters.
- `Strings.IsSpace` lists the code points Python's `str.isspace` accepts.
  There is no Unicode database behind it.
- Paths are sequences of components. pathlib's normalisation (`.`, `..`,
  repeated slashes, Windows separators) is not modelled.
- The order of `rglob` and `iterdir` is whatever order the input
  sequences have.
- `_calculate_hash` (config.py:61-67) is an uninterpreted function of the
  file's content. Collision resistance is not modelled.
- The agent run, `Deps` and `security_agent` are the oracle `analyse`.
  `Deps(...)` at main.py:144-151 passes `active_rule`, a field that
  deps/deps.py does not declare. That raises `TypeError` outside the
  `try`. This is not modelled: the model assumes the call succeeds.
- The whitelist warnings at main.py:102-104 are left out: they only print.
- Repository acquisition (main.py:107-117, `get_repo`'s git commands) is
  left out. `RunScan` starts from an obtained repository root.
- `str(output)` of a value that is neither a list nor a string is left
  out. `ModelOutput` is a list or text.
- The network helpers `list_files_from_github_api` and
  `download_raw_file` are left out.
- The `RuntimeError` filter around `asyncio.run` (main.py:180-187) is left
  out.
- Dispatch.StepAsWritten: an agent run that returns binds `result`, and
  the model counts that only when the run's findings are taken
  (`Returned`). A run that returns and then raises in the lines after it
  (main.py:159-167) is modelled as a plain error without that binding.
  So a later decoding error that the source would log is modelled as
  raising in that case.
- Scan.RunScan: ends in `ReportCallRejected` rather than writing a
  report, because the source calls the report generator with three
  arguments where four are required. The text it would have written is
  `Report.GenerateMarkdownReport`'s.

## Findings

| source | as written | input that shows it | evidently intended | confidence | as-written member | corrected member |
|---|---|---|---|---|---|---|
| main.py:169-170 | the decoding-error handler prints `result.output`, but `result` is bound only once some agent run has returned; before that, the handler raises and the exception leaves the loop | index `a.py`, `b.py` with a `.py` rule; `a.py` raises a decoding error, `b.py` returns one finding: no finding survives | a decoding error is logged and the loop goes on to the next file | high, not executed | Dispatch.DecodeErrorExample | Dispatch.FailedFileIsolated |
| tools/github_utils.py:41 | `str(output).replace('', ',')` puts a comma between every two characters, so splitting on commas yields single characters | text `src/a.js` gives `["s","r","c","/","a",".","j","s"]` | split the text into the paths it lists, separated by commas or newlines | high, not executed | GitHubUtils.OnePathShattered | GitHubUtils.FallbackRoundTrip |
| tools/github_utils.py:19 | the last `/`-segment of the captured path is dropped for `tree` URLs too, although a tree URL names a directory | `https://github.com/o/r/tree/main/src/app` gives base path `src` | a tree URL's base path is its whole path; a blob URL's is its file's directory | medium (the function has no caller in the repository), not executed | GitHubUtils.TreeUrlDropsItsDirectory | GitHubUtils.CorrectedTreeKeepsDirectory |
