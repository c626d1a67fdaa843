# nanosearch core in Dafny

nanosearch (`ns`) is a local code-search tool. It indexes a repository with
tantivy, extracts symbol names with tree-sitter, keeps the index up to date
from `git diff --name-status` (or file mtimes), prints matching files with
their context lines, installs git hooks that re-index in the background, and
keeps usage statistics. This project models the pure decision and
transformation steps around those engines and proves properties of them:

- `Language` (`src/indexer/language.rs`): file extension to language id.
- `Symbols` (`src/indexer/symbols.rs`): per-language pre-order walkers over an
  abstract syntax tree, the language dispatch and first-occurrence
  deduplication.
- `Writer` (`src/indexer/writer.rs`): the schema-version gate, the UTC
  timestamp renderer (civil-from-days), the `.gitignore` check and the symbol
  fields of an index document.
- `Incremental` (`src/indexer/incremental.rs`): `--name-status` parsing,
  change-set merge and filter, mtime classification, the index writes of an
  incremental run and the ISO 8601 parser (days-from-civil).
- `Context` (`src/searcher/context.rs`): query tokenisation and context-line
  extraction with the ±window, ordering and the per-file cap.
- `Format` (`src/searcher/format.rs`): the summary line, the text rendering
  of one result, the `matched_symbols` filter and the `truncated_lines` rule
  of the JSON form.
- `Hooks` (`src/cmd/hooks.rs`): the shebang classifier and hook install and
  removal as transforms of an optional file content.
- `Stats` (`src/stats.rs`): recovery from the search log, the max-merge with
  the stats file, the latest-timestamp choice and the per-search update.
- `Common` and `Text` are shared helpers: `Option`/`Result`, filters and
  subsequences; Rust's `str::lines`, `trim`, `split`, `splitn`,
  `split_whitespace` and `join`; and decimal rendering, zero padding and
  `u64` parsing.

File reads, git subprocesses, clocks and the tree-sitter parse become inputs:
file contents are `Option<string>` (none when the file is missing), the clock
is a seconds count or a timestamp string, syntax trees are a `Node` datatype,
and outside predicates such as "the file is indexable" or "the log line
deserialises to this entry" are function parameters.

## Model

| member | source | states |
|---|---|---|
| Language.Extension | src/indexer/language.rs:6 | The extension is the text after the last `.`; it holds no `.`, and a name without a `.` has no extension |
| Language.DetectLanguage | src/indexer/language.rs:5-13 | A language is returned exactly when there is an extension and it is one of the twelve known ones, and it is always one of rust, python, go, javascript or typescript; a missing extension gives none |
| Language.DetectLanguageTable | src/indexer/language.rs:7-11 | Each of the twelve known extensions maps to its language: rs→rust, py/pyi→python, go→go, js/jsx/mjs/cjs→javascript, ts/tsx/mts/cts→typescript |
| Language.UpperCaseExtensionUnknown | src/indexer/language.rs:12 | Matching is case-sensitive: an extension containing an upper-case letter gives no language |
| Language.NoExtensionNames | src/indexer/language.rs:32-44 | `Makefile`, `LICENSE` and `.gitignore` have no extension and so no language |
| Language.ExtensionOfStemDotExt | src/indexer/language.rs:21-30 | For a non-empty stem and a dot-free extension, `stem.ext` has extension `ext` |
| Symbols.FieldNameText | src/indexer/symbols.rs:345-354 | The result is the trimmed text of the named field's child; it is none exactly when there is no such child, its text is unreadable, or it is blank |
| Symbols.IdentifierFromType | src/indexer/symbols.rs:358-385 | In the fallback case a returned name is non-empty and holds no `<` |
| Symbols.IdentifierFromTypeFallback | src/indexer/symbols.rs:373-384 | In the fallback case the result is the trimmed text before the first `<`, or the whole trimmed text when there is no `<`; none when that text is blank or the node has no readable text |
| Symbols.TopLevelVariableContexts | src/indexer/symbols.rs:388-397 | A declarator is top level exactly when its parent is a `variable_declaration` or `lexical_declaration` and its grandparent the `program` or an `export_statement` (four contexts); the root never is |
| Symbols.VisitRust | src/indexer/symbols.rs:44-60 | At most one name per node, only at named items and `impl` blocks; a named item records a name exactly when its `name` field trims to something non-blank, and that trimmed text is the name; an `impl` block records a name exactly when it has a `type` child whose identifier can be read, and that identifier is the name |
| Symbols.VisitJsTs | src/indexer/symbols.rs:92-113 | At most one name per node; a name is recorded exactly when the node's `name` field trims to something non-blank and the node is a function, class or method, a TypeScript declaration with the extras on, or a top-level variable declarator |
| Symbols.VisitElixir | src/indexer/symbols.rs:224-242 | At most one name per node, only at a `call` whose `target` is an identifier naming a module or function definition keyword; a module keyword (`defmodule`, `defprotocol`, `defimpl`) records the call's first alias and a function keyword records the defined function's name |
| Symbols.ElixirFirstAlias | src/indexer/symbols.rs:258-275 | A name is recorded exactly when the call's first `arguments` child has an `alias` among its named children whose text is readable, and the name is the text of the first such alias |
| Symbols.ElixirFnName | src/indexer/symbols.rs:297-340 | Only the first named argument of the first `arguments` child counts: a bare identifier records its own text, a call records its `target` identifier, a `when` guard records the `target` of its left call, and any other argument records nothing |
| Symbols.Visit | src/indexer/symbols.rs:156-205 | At most one name per node; the Python walker records a name exactly at function and class definitions whose `name` field trims to something non-blank, the Go walker likewise at function and method declarations and type and const specs, and the name is that trimmed field text |
| Symbols.Walk | src/indexer/symbols.rs:43-66 | A walk starts with the names recorded at the node itself, and a leaf records only those |
| Symbols.WalkAtMostOnePerNode | src/indexer/symbols.rs:43-66 | A walk records no more names than the tree has nodes |
| Symbols.WalkIsPreOrder | src/indexer/symbols.rs:43-66 | Every walker outputs the names of the tree's nodes in pre-order: a node's own names before its descendants', children left to right |
| Symbols.JavaScriptNameSources | src/indexer/symbols.rs:91-121 | Every name the JavaScript walker outputs is the `name` field of a function, class or method node, or of a top-level `variable_declarator`, somewhere in the tree |
| Symbols.JsVisitKinds | src/indexer/symbols.rs:98-104 | Without the TypeScript extras, interface, type-alias and enum declarations record nothing |
| Symbols.NestedVariableNotRecorded | src/indexer/symbols.rs:105-111 | A `variable_declarator` that is not directly under a top-level declaration records nothing |
| Symbols.Dedup | src/indexer/symbols.rs:18-23 | The deduplicated list has no repeats, is a subsequence of the input, keeps every element and equals the first-occurrence reference definition |
| Symbols.ExtractSymbols | src/indexer/symbols.rs:7-23 | An unsupported language or a failed parse gives nothing; otherwise the result is the first occurrences of the walker's output, a duplicate-free subsequence with the same elements |
| Symbols.DetectedLanguagesSupported | src/indexer/symbols.rs:8-15 | Every language that detection returns has a walker, and the Elixir walker is never reached from detection |
| Writer.CheckSchema | src/indexer/writer.rs:138-143 | Opening fails exactly when the stored schema version differs from the current one, and then reports both versions; otherwise the metadata passes through unchanged |
| Writer.SchemaGate | src/indexer/writer.rs:28 | With the current version 2 the gate passes; any other version `v` gives a mismatch error with found `v` and expected 2 |
| Writer.SplitSeconds | src/indexer/writer.rs:200-204 | The time of day is in range (h < 24, m < 60, s < 60) and days·86400 + h·3600 + m·60 + s gives back the seconds |
| Writer.CivilFromDays | src/indexer/writer.rs:208-217 | Month is 1-12 and day is 1-31 for every day count |
| Writer.EpochDates | src/indexer/writer.rs:208-217 | Day 0 is 1970-01-01 |
| Writer.ZeroPadWidth | src/indexer/writer.rs:219 | A number below 10^w is rendered as exactly w digits |
| Writer.UtcTimestamp | src/indexer/writer.rs:193-220 | The timestamp contains `T` and ends in `Z`; for years below 10000 it has the shape `YYYY-MM-DDTHH:MM:SSZ` |
| Writer.RenderShape | src/indexer/writer.rs:219 | With every field within its width the rendered string is 4-2-2 digits, `T`, then 2:2:2 digits and `Z` |
| Writer.GitignoreWarningCases | src/indexer/writer.rs:222-239 | Outside a git repository nothing is warned; in one, a missing or empty `.gitignore` warns |
| Writer.NsEntryForms | src/indexer/writer.rs:232 | The accepted entries are exactly `.ns` with an optional leading and an optional trailing `/` |
| Writer.EntryLineSilencesWarning | src/indexer/writer.rs:230-233 | A line that trims to an accepted entry silences the warning wherever it stands in the file and however it is indented |
| Writer.AppendEntrySilencesWarning | src/indexer/writer.rs:230-233 | Appending any accepted `.ns` entry as its own line to a `.gitignore` silences the warning |
| Writer.NsEntryPlain | src/indexer/writer.rs:232 | The accepted entries are single lines that trimming leaves unchanged |
| Writer.SymbolFieldsOf | src/indexer/writer.rs:86-89 | The two fields have the same length and differ only where `symbols` has a space and `symbols_raw` a `\|`; no names give two empty fields |
| Writer.SymbolFieldsRoundTrip | src/indexer/writer.rs:86-89 | Splitting `symbols_raw` on `\|` and `symbols` on whitespace gives back the symbol names |
| Incremental.ClassifyLine | src/indexer/incremental.rs:315-343 | A line without a tab records nothing; a line records at most one added path and at most one modified-or-deleted path |
| Incremental.ParseLinesAppend | src/indexer/incremental.rs:314-343 | Parsing is line by line: the parse of two line lists concatenated is the concatenation of the two parses, list by list |
| Incremental.ParseNameStatus | src/indexer/incremental.rs:309-347 | Each output line adds at most one path and modifies or deletes at most one, so no list outgrows the line count |
| Incremental.ParseNameStatusAppend | src/indexer/incremental.rs:309-347 | Parsing output split after a newline is the list-wise concatenation of parsing the two parts |
| Incremental.ParseNameStatusLine | src/indexer/incremental.rs:314-318 | One output line is parsed on its own, with a trailing carriage return removed |
| Incremental.ClassifyTwoFields | src/indexer/incremental.rs:328-342 | `A` adds the path, `D` and a rename without a new name delete it, and any other status marks it modified |
| Incremental.ClassifyRename | src/indexer/incremental.rs:332-338 | A rename deletes the old path and adds the new one |
| Incremental.BlankLineSkipped | src/indexer/incremental.rs:315-318 | A blank line records nothing |
| Incremental.AddedExample | src/indexer/incremental.rs:546-552 | `A\tsrc/new_file.rs` adds exactly that path |
| Incremental.ModifiedExample | src/indexer/incremental.rs:555-561 | `M\tsrc/existing.rs` modifies exactly that path |
| Incremental.DeletedExample | src/indexer/incremental.rs:564-570 | `D\tsrc/old_file.rs` deletes exactly that path |
| Incremental.RenameExample | src/indexer/incremental.rs:573-579 | `R100\tsrc/old.rs\tsrc/new.rs` deletes the old and adds the new path |
| Incremental.RenameLine | src/indexer/incremental.rs:332-338 | A rename line, parsed as output, deletes the old and adds the new path |
| Incremental.MergeChanges | src/indexer/incremental.rs:350-374 | Each base list is a prefix of the result; a path of `other` is appended exactly when it is in none of the three base lists; appended paths keep `other`'s order |
| Incremental.MergeNothing | src/indexer/incremental.rs:350-374 | Merging an empty change set changes nothing |
| Incremental.MergeIntoNothing | src/indexer/incremental.rs:350-374 | Merging into an empty change set gives the other set unchanged, repeated paths included |
| Incremental.MergeSelf | src/indexer/incremental.rs:350-374 | Merging a change set into itself changes nothing |
| Incremental.FilterChanges | src/indexer/incremental.rs:378-422 | Added and modified paths survive exactly when not under `.ns`/`.git` and indexable; deleted paths exactly when not under `.ns`/`.git`; each list is a subsequence of its input |
| Incremental.FilteredHasNoSkippedPaths | src/indexer/incremental.rs:379-386 | No filtered path is `.ns` or `.git` or lies under `.ns/`, `.ns\`, `.git/` or `.git\` |
| Incremental.ShouldSkipIff | src/indexer/incremental.rs:379-386 | A path is skipped exactly when it is `.ns` or `.git` or lies beneath one of them behind a `/` or `\` |
| Incremental.FilterChangesIdempotent | src/indexer/incremental.rs:419-421 | Filtering twice gives the same as filtering once |
| Incremental.SkippedExamples | src/indexer/incremental.rs:379-386 | `.ns/index/meta`, `.git\HEAD` and `.git` are skipped |
| Incremental.KeptExamples | src/indexer/incremental.rs:379-386 | `.nsrc`, `src/.ns/x` and `.github/workflows/ci.yml` are not skipped |
| Incremental.DetectMtime | src/indexer/incremental.rs:444-470 | Added is exactly the current paths not indexed, deleted exactly the indexed paths no longer current, modified exactly the paths in both that are newer than the index time; lists keep their input order |
| Incremental.MtimeListsDisjoint | src/indexer/incremental.rs:450-470 | No path is both added and deleted, or both added and modified |
| Incremental.MtimeWithoutTimestamp | src/indexer/incremental.rs:453 | Without a readable index time nothing is reported modified |
| Incremental.RunIncremental | src/indexer/incremental.rs:52-60 | No writes and all-zero stats exactly when the change set is empty; otherwise the stats count the three lists |
| Incremental.RunIncrementalWrites | src/indexer/incremental.rs:73-91 | Deleted and modified paths are removed from the index, and added and modified paths that build a document are added; no other write happens |
| Incremental.ParseIso8601 | src/indexer/incremental.rs:511-521 | A time is returned exactly when the string has one `T`, and the date and time parts each have exactly three numeric fields |
| Incremental.ParseIso8601Rejects | src/indexer/incremental.rs:597-601 | A string without `T`, `"not-a-date"` and `""` are rejected |
| Incremental.CivilRoundTrip | src/indexer/incremental.rs:528-534 | Days-from-civil inverts the civil-from-days breakdown for every day count |
| Incremental.TimestampRoundTrip | src/indexer/incremental.rs:509-539 | Parsing the rendered UTC timestamp of any seconds count up to `i64::MAX`, the range a system time holds, gives back those seconds |
| Context.LowerAll | src/searcher/context.rs:126 | Lowering keeps the token count and each token's length and leaves no ASCII capital letter in any token |
| Context.Tokenize | src/searcher/context.rs:122-128 | Every token is non-empty, lower-case and alphanumeric |
| Context.TokenizeOfJoin | src/searcher/context.rs:122-128 | Tokenising tokens joined by spaces gives back those tokens |
| Context.TokenizeExample | src/searcher/context.rs:195-196 | `foo::bar_baz` tokenises to `foo`, `bar`, `baz` |
| Context.Capped | src/searcher/context.rs:93-112 | The kept lines are a prefix of all lines, of length min(total, cap) when capped, and kept plus truncated equals the total |
| Context.ExtractContext | src/searcher/context.rs:32-118 | A missing file gives the empty result; kept plus truncated lines equal the candidate lines; a cap n > 0 keeps at most n lines, and lines are truncated only under a cap that is then filled |
| Context.EmptyCases | src/searcher/context.rs:44-79 | A missing file, a file without lines, a query without tokens or a query that matches nothing gives an empty result with no truncation |
| Context.LinesInOrder | src/searcher/context.rs:104-112 | Returned line numbers are strictly increasing |
| Context.MatchesIncluded | src/searcher/context.rs:66-75 | Without a cap, every line that contains a query token is returned with its 1-based number |
| Context.WindowComplete | src/searcher/context.rs:81-89 | Without a cap, every line within the window of a matching line, clipped to the file, is returned with its 1-based number |
| Context.IncludedNearMatch | src/searcher/context.rs:81-89 | Every returned line is within the window of a line that contains a query token |
| Context.ResultLine | src/searcher/context.rs:81-112 | Every returned line is a line of the file with its 1-based number, near a matching line |
| Context.WindowZeroOnlyMatches | src/searcher/context.rs:159-175 | With window 0 every returned line contains a query token, ignoring case |
| Context.CapIsPrefix | src/searcher/context.rs:214-233 | With a cap n > 0 the lines are the first min(total, n) uncapped lines, and the truncation count is the rest |
| Context.ZeroCapUnlimited | src/searcher/context.rs:93-96 | A cap of 0 behaves exactly like no cap, with truncation count 0 |
| Format.SummaryReadsBack | src/searcher/format.rs:64-71 | The summary has seven words; the two counts read back, and the singular word appears exactly when its count is 1 |
| Format.FormatSummary | src/searcher/format.rs:64-71 | The summary starts with the result count and a space and ends with `ms)` |
| Format.Header | src/searcher/format.rs:11-20 | The header is ` [`, the rank, `] `, the path, `  (score: ` and the score, then `, lang: ` and the language, or `unknown` when there is none, closed by `)` |
| Format.FormatSingleText | src/searcher/format.rs:55 | The output always ends in a blank line |
| Format.TextReadsBack | src/searcher/format.rs:7-58 | The output's lines are exactly the header, annotation, context, separator and truncation lines, then the blank line |
| Format.ContextBlockEntries | src/searcher/format.rs:32-44 | The rendered context equals the reference list in which each line is preceded by `...` exactly when its number exceeds the previous line's by more than 1; the first line has no separator |
| Format.ContiguousNoGap | src/searcher/format.rs:231-246 | Consecutive line numbers produce no `...` separator and exactly one output line per context line |
| Format.TruncationIffCut | src/searcher/format.rs:47-52 | A truncation line appears exactly when the truncation count is positive, and then it is the last line |
| Format.AnnotationIffMatched | src/searcher/format.rs:23-29 | The `matched:` annotation appears exactly when there are matched fields, and then it is the second line |
| Format.MatchedFieldsReadBack | src/searcher/format.rs:24 | Splitting the `+`-joined matched fields gives back the fields |
| Format.LineNumberReadsBack | src/searcher/format.rs:39-42 | The field before the first `:` of a context line, trimmed, parses back to its line number |
| Format.MatchedSymbols | src/searcher/format.rs:77-92 | The matched symbols are the subsequence of the symbols that contain some query token, ignoring case |
| Format.MatchedIgnoringCase | src/searcher/format.rs:293-308 | For a single-token query, a symbol is matched exactly when its lower-case form contains the token |
| Format.JsonAgreesWithText | src/searcher/format.rs:120-122 | The JSON has `truncated_lines` exactly when the text has a truncation line, and the text line shows that count |
| Format.FormatJson | src/searcher/format.rs:76-123 | `truncated_lines` is present exactly when lines were cut, carries that count, and is never 0 |
| Hooks.IsShellScript | src/cmd/hooks.rs:159-195 | Only a text that starts with `#!` is a shell script |
| Hooks.ShebangWords | src/cmd/hooks.rs:167-194 | A `#!` line is a shell script exactly when its first word is one of the six shell paths, or `/usr/bin/env` followed by sh, bash or zsh; later flags do not matter |
| Hooks.Install | src/cmd/hooks.rs:108-153 | The file changes only on create, append, or a failure after writing; an existing hook line gives AlreadyPresent; a non-shell file gives NotShellScript; an append adds the appendix to a shell script without the hook line; the result is Created, with the `#!/bin/sh` hook, exactly when the hook was missing and neither the write nor the permission step failed; a failure names the failing step |
| Hooks.InstallPresent | src/cmd/hooks.rs:116-119 | A readable hook that already holds the hook line is reported AlreadyPresent and left unchanged |
| Hooks.InstallNotShell | src/cmd/hooks.rs:121-124 | A readable hook without the hook line that is not a shell script is reported NotShellScript and left unchanged |
| Hooks.AppendixLines | src/cmd/hooks.rs:127 | The appendix reads as three lines: an empty one, the marker and the hook line |
| Hooks.CreatedIsAppended | src/cmd/hooks.rs:141 | A created hook is `#!/bin/sh` followed by the same appendix lines |
| Hooks.CreatedIsShellScript | src/cmd/hooks.rs:140-141 | A created hook is itself a shell script |
| Hooks.AppendedOnce | src/cmd/hooks.rs:127-128 | After an append the hook line occurs exactly once |
| Hooks.InstallOnce | src/cmd/hooks.rs:108-153 | After a create or an append the hook line occurs exactly once |
| Hooks.InstallIdempotent | src/cmd/hooks.rs:116-124 | Installing twice leaves the file as the first install did, and the second install reports AlreadyPresent (or NotShellScript again) |
| Hooks.NotShellScriptUntouched | src/cmd/hooks.rs:122-124 | A file that is not a shell script is never changed |
| Hooks.Remove | src/cmd/hooks.rs:251-298 | NotPresent exactly when the file is missing or holds neither marker nor hook line; failures leave the file; Deleted removes it; Cleaned leaves a newline-terminated file |
| Hooks.TidyShape | src/cmd/hooks.rs:289-290 | Trimming drops exactly the trailing blank lines and trims the end of the last kept line |
| Hooks.CleanedLines | src/cmd/hooks.rs:267-291 | A cleaned file is the kept lines without trailing blanks, joined by newlines and ended by one; none of its lines is the marker or the hook line |
| Hooks.CleanedFile | src/cmd/hooks.rs:287-291 | A cleaned file is the kept lines joined, end-trimmed, plus one newline |
| Hooks.DeletedIff | src/cmd/hooks.rs:275-285 | The file is deleted exactly when it holds our lines and every other line is blank or a `#!` line |
| Hooks.RemoveCreated | src/cmd/hooks.rs:275-285 | Removing from a hook that install created deletes the file |
| Hooks.RemoveUndoesInstall | src/cmd/hooks.rs:287-291 | For a shell hook ending in one newline after a non-blank line, install appends and remove gives back the original content |
| Stats.RecoverFromSearchLog | src/stats.rs:48-90 | The loop over the log's lines computes the closed-form recovery of its parsed entries, and nothing for a missing log |
| Stats.RecoveredNoneIff | src/stats.rs:89 | Recovery yields nothing exactly when no entry counts |
| Stats.OnlyCountedMatter | src/stats.rs:65-73 | Entries that do not count do not affect the recovered stats |
| Stats.OnlySuccessCounted | src/stats.rs:511-546 | Of success, no_results and error entries only the success entry is counted |
| Stats.LegacyEntriesCount | src/stats.rs:433-473 | Entries without an outcome are counted, with four characters per token |
| Stats.CharsAreFourTimesTokens | src/stats.rs:76-82 | Recovered characters are four times the recovered tokens, capped at `u64::MAX` |
| Stats.LastTsIsLast | src/stats.rs:84-86 | The last timestamp is that of the last entry that has one, and exists exactly when some entry has one |
| Stats.LatestTimestamp | src/stats.rs:103-116 | The latest timestamp is one of the two inputs, and none exactly when both are none |
| Stats.LatestIsMax | src/stats.rs:103-116 | The latest timestamp is not smaller than either input |
| Stats.LatestCommutes | src/stats.rs:103-116 | The latest of two timestamps does not depend on their order |
| Stats.Merge | src/stats.rs:92-101 | The field-wise maximum: each merged counter is at least both inputs' and equal to one of them, and the timestamp is one of the inputs' |
| Stats.MergeCommutesIdem | src/stats.rs:92-101 | Merging is commutative and merging stats with themselves changes nothing |
| Stats.ReadStats | src/stats.rs:29-39 | With neither source the defaults are used and a single present source is taken as is; with both, each counter is the larger of the two sources' and the timestamp is one of theirs |
| Stats.LogOutweighsResetFile | src/stats.rs:475-509 | A log with higher totals and a later timestamp wins over an older stats file, field by field |
| Stats.RecordSearch | src/stats.rs:138-141 | One search adds one to the count, adds the output's characters, adds their quarter rounded down as tokens (4·added ≤ chars < 4·added + 4), sets the timestamp to the clock reading, and keeps every counter within `u64` |
| Stats.RecordAllTotals | src/stats.rs:136-146 | Repeated searches add their count, their characters and a quarter (rounded down) of each as tokens, and keep the last clock reading |
| Stats.RecordTwice | src/stats.rs:250-268 | Searches of 400 then 200 characters from the defaults give 2 searches, 600 characters and 150 tokens |

## Left out

- Index I/O and tantivy: building, writing, reading and querying the index, `meta.json` serialisation and `get_indexed_paths` are outside the model; the paths and metadata they produce are inputs.
- tree-sitter parsing: the walkers run over a `Node` tree given as input; a failed parse is a missing tree.
- git subprocesses (`get_git_commit`, `parse_git_diff`, `detect_changes_git_uncommitted`), the file walker, file metadata, mtimes and the indexable-file test are inputs or function parameters; untracked-file detection is not modelled.
- Filesystem reads and writes, `make_executable`, `write_atomic`, the `stats.lock` locking and concurrency are outside the model; a failing write is modelled as an injected fault at a named step.
- serde JSON: a search-log line's deserialisation is a function parameter, and `FormatJson` keeps only the fields the text form shares (no scores or `ranking_factors`).
- Floating point: scores and BM25 values rendered with `{:.1}`, their rounding in JSON, and the k/M branches of `format_token_count` are not modelled.
- Unicode: `is_alphanumeric` and `to_lowercase` are limited to ASCII; whitespace is the full Unicode White_Space set.
- The elapsed time in `run_incremental`, the clock of `record_search` and `utc_timestamp_iso8601` are inputs.
- hooks `install`/`remove` drivers: the hooks directory lookup, the loop over the three hook names, stderr summaries and OS error texts are not modelled.
- The Elixir walker is modelled but no extension maps to it, so detection never reaches it.
- `src/searcher/mod.rs` is not part of this model; it disagrees with `format.rs` and `context.rs` (no truncation count, a four-argument `extract_context`, a missing `format_text`), and the model follows the latter two.
- The schema version follows the code (2 at src/indexer/writer.rs:28); tests/integration_index.rs:18 expects 1.
- The result clamp in `src/searcher/query.rs` is not part of this model.
- Context.ExtractContext: the `usize` overflow of `idx + context_window` is not modelled; integers are unbounded.
- Stats.RecordSearch: requires that no counter overflows, because the program's plain `+=` would panic or wrap there.
- Incremental.ParseIso8601: returns a signed day-based seconds count, so no `u64` overflow or underflow of src/indexer/incremental.rs:528-536 is modelled: the underflow for dates before 1970 or in year 0; the underflow of `(153 * m + 2) / 5 + day - 1` for day 0 of March (line 532, e.g. `1970-03-00T00:00:00Z`, where a debug build panics and the model gives the seconds of the day before 1 March); the overflow of `era * 146097` (e.g. year 10^18), `153 * m`, `days * 86400`, `hour * 3600`, `min * 60` and the final sum. Nor is the panic of `UNIX_EPOCH + duration` for totals above `i64::MAX` (line 538): the model returns the seconds there.
- Writer.UtcTimestamp: the fixed-width shape is stated only for years below 10000, where `{:04}` pads to four digits.
- Format.SummaryReadsBack: reads back the two counts and the two nouns; the elapsed milliseconds are rendered but not read back.
- Symbols.IdentifierFromType: only the fallback branch has a contract; the three named-kind branches return, untrimmed, the node's own text (`type_identifier`), its first child's text (`generic_type`) or its `name` field's text (`scoped_type_identifier`).
