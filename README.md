# APTHistoryLogger core, modelled in Dafny

APTHistoryLogger reads the APT history log (`/var/log/apt/history.log`). It
frames the log into event blocks, each running from a `Start-Date: ` line to an
`End-Date: ` line, and parses every block into a JSON record (`LogJSON`). It has
two modes:

- Continuous mode tails the log and remembers how far it got in a small state
  file, as `"<inode> <offset>"`.
- Search mode filters the records of a log by event ID, time window, command
  line, user, operation and package patterns.

Records too large for journald are split into chunks whose package lists are
bisected until each chunk fits.

This project models that core in Dafny, one module per source file:

| module | file | models |
|---|---|---|
| `GoText` | `go_text.dfy` | The subset of Go's `strings` and `strconv` the core uses: `Split`, `Fields`, `TrimSpace`, `Replace(…, 1)`, `TrimPrefix`/`TrimSuffix`, `ParseUint`/`ParseInt`/`Atoi` in base 10, and `%d` formatting. |
| `Types` | `types.dfy` | `LogJSON`, `PackageInfo` and `journalDMaxSize` (`src/main.go`). The five package lists are named by `ListField` instead of being found by reflection. |
| `Parsing` | `parsing.dfy` | `parseEvent`, `parsePackages` and `parseRequester`. |
| `Chunking` | `chunking.dfy` | `splitLargeArray` and `splitLog`. |
| `StateKeeping` | `state_keeping.dfy` | The decoding part of `getLastPosition` and the `"%d %d"` encoding of `savePosition`. |
| `SearchHelpers` | `search_helpers.dfy` | `findMatches` and `searchForMatchingPackages`. |
| `LogReading` | `log_reading.dfy` | The block framer that both readers run inline, as a `Framer` class with a `Feed` method. Also the two scan loops around it: continuous mode and search mode. |

## Representation choices

- **Imperative loops become methods, each proved equal to a specification
  function.** These are:
  - the field loop of `parseEvent`;
  - the entry loop of `parsePackages`;
  - the field loop of `splitLog`;
  - the package loop of `searchForMatchingPackages`;
  - the list loop of `findMatches`;
  - the two scan loops.

  The framer's two variables, `eventBlock` and `blockHasStarted`, are the
  fields of the class `Framer`.
- **Recursive or straight-line code becomes functions.** These are
  `splitLargeArray`, the decoding in `getLastPosition`, and the gates of
  `findMatches`.
- **Library calls the core cannot see are parameters.**
  - Timestamp parsing, elapsed-time arithmetic and the SHA-256 event UUID are
    the fields of `Parsing.Externals`.
  - Compiled regular expressions are predicates on strings
    (`SearchHelpers.Pattern`).
  - RFC 3339 parsing in `findMatches` is `parseTime`.
  - The length of `json.Marshal`'s output is `size: LogJSON -> nat`.
  - The state file's content and the `os.Stat` result of the log are the
    arguments `file` and `stat`.
  - In continuous mode, the offset `Seek` reports after each scanned line is
    the sequence `cursor`.
- **Integers are unbounded.** The state file's inode is a `U64` and its offset
  an `I64`, with the ranges that `strconv.ParseUint(…, 10, 64)` and
  `strconv.ParseInt(…, 10, 64)` accept.
- **Where the behaviour described for this program and its code disagree, the
  model follows the code, except where noted:**
  - With an empty or malformed state file, `getLastPosition` returns inode 0
    and offset 0, not the current inode.
  - The size clamp in `getLastPosition` never takes effect (see Findings).
  - `splitLog` does not first test the whole record against the bound. It
    splits each list whose record, with the other lists cleared, is over the
    bound.
  - A one-package list that is still too large is not emitted as is:
    `splitLargeArray` never returns for it. Only `Chunking.SlicesAsWritten`
    and `Chunking.SplitLargeArrayAsWritten` follow the code here.
    `Chunking.SplitLargeArray` and `Chunking.SplitLog` are built on the
    corrected `Chunking.Slices`, which emits such a package as its own chunk
    (see Findings).
  - `findMatches` overwrites its package flag with each list's verdict, so
    the outcome depends on Go's map order. Only
    `SearchHelpers.PackageFilterAsWritten` follows the code here.
    `SearchHelpers.FindMatches`, `SearchHelpers.FilterPackages` and, through
    them, `LogReading.ScanSearch` use the corrected any-list
    `SearchHelpers.PackageFilter` (see Findings).
  - In continuous mode the position is updated after each emitted block. Its
    value is the reader's cursor, not the end of the block.

The framing code appears twice in `src/log_reading.go`: in the continuous
reader (lines 139-196) and in the search reader (lines 249-294). The two
copies do the same thing to the buffer and the flag, so one `Step` models
both. The table below cites the continuous reader's lines for the framer's
properties.

## Model

| member | source | states |
|---|---|---|
| Types.Set | src/chunking.go:44-45 | Setting list `f` changes list `f` to the given value and leaves every other list and every non-list field as it was. |
| Types.StripEq | src/main.go:35-55 | Two records with the same non-list fields and the same five lists are equal. |
| GoText.FieldsOfJoin | src/state_keeping.go:47 | Splitting words joined by single spaces with `strings.Fields` gives back the words. |
| GoText.ParseUintDecimal | src/state_keeping.go:61 | `ParseUint` reads back the decimal text of any value up to 2^64-1. |
| GoText.ParseIntFormat | src/state_keeping.go:62 | `ParseInt` reads back the `%d` text of any 64-bit signed value. |
| Parsing.ParseRequester | src/parsing.go:138-159 | The requester is the first space-separated token: the longest prefix without a space. The UID is 0 and there is no error unless there are exactly two tokens. With two tokens, the UID is what `Atoi` makes of the second token with "(" and ")" trimmed, and there is an error exactly when that conversion fails. An error is always a bad UID. A parsed UID is within 64-bit range. |
| Parsing.BadUIDToken | src/parsing.go:145-157 | A name and a second token that is not a number once trimmed give that name and a bad-UID error. |
| Parsing.NonNumericUID | src/parsing.go:145-157 | `"root (abc)"` gives the name "root", UID 0 and the error for "abc". |
| Parsing.RequesterWithUID | src/parsing.go:138-159 | `"name (uid)"` yields the name and the UID, without error. |
| Parsing.RequesterNameOnly | src/parsing.go:138-159 | A single token is the requester, with UID 0 and no error. |
| Parsing.PackageOfFields | src/parsing.go:178-196 | Fewer than two fields is the only failure. Otherwise the name is the first field and the architecture the second. |
| Parsing.ParsePackages | src/parsing.go:161-203 | The loop returns what the entry-by-entry specification `PackageList` returns. |
| Parsing.PackagesOfComplete | src/parsing.go:166-200 | Parsing succeeds exactly when every "), "-separated entry yields at least two fields. It then returns one package per entry. |
| Parsing.PackagesOfPrefix | src/parsing.go:166-200 | Package k is the parse of entry k, in input order. On failure the error is "too few fields", raised at the first entry with fewer than two fields. |
| Parsing.PackagesOfAll | src/parsing.go:166-200 | Entries that all parse give exactly their packages, without error. |
| Parsing.EntryRoundTrip | src/parsing.go:170-196 | An entry as APT writes it parses back to its package: `name:arch (version`, `name:arch (version, automatic` or `name:arch (old, new`, with or without the closing parenthesis. Only the first ':' is replaced, so an epoch colon stays in the version. |
| Parsing.LineEntries | src/parsing.go:163-176 | A package list as APT writes it splits into one entry per package, and entry k parses to package k. |
| Parsing.PackageLineRoundTrip | src/parsing.go:161-203 | Parsing a well-formed package line gives back exactly its packages, in order, without error. This covers the three passing vectors of src/parsing_test.go:17-41. |
| Parsing.AssignField | src/parsing.go:35-58 | The switch never touches the operation flags or the event ID. An unknown prefix leaves the record unchanged and is an error. |
| Parsing.SetField | src/parsing.go:35-58 | The switch on the field prefix computes what `AssignField` states. |
| Parsing.ParseEvent | src/parsing.go:14-98 | The field loop and what follows it compute what the specification `EventOf` states. |
| Parsing.MarkOperations | src/parsing.go:67-81 | The lists and timestamps are kept. Each flag ends up set exactly when it was already set or its list is non-empty. |
| Parsing.Finish | src/parsing.go:67-95 | The lists and flags are those of the flagged record. |
| Parsing.FinishSpec | src/parsing.go:67-95 | After the field loop the lists are kept and each non-empty list's flag is raised. The event ID is the UUID of the flagged record. The step fails exactly when the elapsed time cannot be computed, and then with elapsed time 0. Otherwise it records the elapsed time and the sum of the five list lengths. |
| Parsing.ApplyFieldsKeepsFlags | src/parsing.go:18-65 | The field loop never sets an operation flag. |
| Parsing.EventSummary | src/parsing.go:67-95 | After a successful parse, each operation flag is true exactly when its package list is non-empty, and the package total is the sum of the five list lengths. |
| Parsing.ApplyFieldsAccepted | src/parsing.go:18-65 | If the field loop succeeds, every line was empty or split on ": " into exactly two parts with a known prefix. |
| Parsing.EventLinesAccepted | src/parsing.go:14-65 | If the parse succeeds, every line of the event was empty or a `Prefix: value` line with a known prefix. |
| Parsing.EmptyEvent | src/parsing.go:14-98 | The empty block fails exactly when the elapsed time of two empty timestamps fails. |
| Chunking.ClearOthers | src/chunking.go:18-24 | The record with every other list cleared keeps list `f` and every non-list field. |
| Chunking.Slices | src/chunking.go:10-65 | No slices exactly when the list is empty or its record already fits. |
| Chunking.SlicesCover | src/chunking.go:37-63 | Concatenating the slices gives back the list exactly, in order. |
| Chunking.CoverStep | src/chunking.go:37-63 | For a list that is split in two, if each half's slices give back that half, the list's slices give back the list. |
| Chunking.SlicesShape | src/chunking.go:31-61 | Every slice is non-empty and fits the bound, unless it holds a single package. |
| Chunking.Records | src/chunking.go:38-45 | Chunk i is the base record with list `f` set to slice i. |
| Chunking.FlattenRecords | src/chunking.go:63 | The chunks' lists, concatenated, are the slices, concatenated. |
| Chunking.SplitLargeArray | src/chunking.go:10-34 | No chunks exactly when the list is empty or the record with the other lists cleared fits `journalDMaxSize`. |
| Chunking.SplitLargeArrayCovers | src/chunking.go:37-63 | The chunks' lists, concatenated, reproduce the original list with nothing lost, duplicated or reordered. |
| Chunking.SplitLargeArrayShape | src/chunking.go:18-61 | Every chunk has the input's non-list fields, empty other lists and a non-empty part of list `f`. It fits the bound unless that part is one package. |
| Chunking.SingleOversizedDiverges | src/chunking.go:37-51 | As written, a one-package list that does not fit never returns, whatever the recursion depth. |
| Chunking.OnePackageNeverSplits | src/chunking.go:10-65 | A record with one oversized Install package makes the as-written splitter diverge. |
| Chunking.AsWrittenAgrees | src/chunking.go:10-65 | When every single package fits, the as-written recursion returns, given depth at least the list length. It then returns exactly what `Slices` returns. |
| Chunking.SplitLargeArrayAsWrittenAgrees | src/chunking.go:10-65 | The same agreement, for whole records. |
| Chunking.SplitLog | src/chunking.go:69-91 | The loop computes the base record followed by the chunks of every split list, in field order. |
| Chunking.BaseFields | src/chunking.go:70-87 | The base record keeps the non-list fields. It empties exactly the lists that were split. |
| Chunking.ExtrasCover | src/chunking.go:75-87 | The extra chunks hold, per list, exactly that list if it was split, and nothing otherwise. |
| Chunking.FlattenExtras | src/chunking.go:75-87 | When the visited lists are distinct and only list `f`'s own chunks carry packages of `f`, the extras carry exactly those packages if `f` was visited, and none otherwise. |
| Chunking.ExtrasFrom | src/chunking.go:75-87 | Every extra chunk is a chunk of one of the visited lists. |
| Chunking.SplitLogCoverage | src/chunking.go:69-91 | Across all chunks, each list is reproduced exactly, in order. |
| Chunking.SplitLogShape | src/chunking.go:70-89 | The first chunk is the base record, with each split list emptied and the others unchanged. Every chunk keeps the non-list fields. |
| Chunking.SplitLogChunksFit | src/chunking.go:69-91 | Every chunk after the first is a chunk of some list. It fits the bound unless it holds one package. |
| Chunking.SplitLogUnsplit | src/chunking.go:69-91 | If no list needs splitting, the result is exactly `[log]`. |
| StateKeeping.ReadPrefix | src/state_keeping.go:32-33 | At most 128 bytes of the state file are read, from its start. A file of at most 128 bytes is read whole. |
| StateKeeping.ParseState | src/state_keeping.go:41-74 | The content is blank exactly when it is empty after trimming. It is invalid exactly when it is not blank and either is not two fields or has a first field that is not a 64-bit unsigned decimal or a second that is not a 64-bit signed decimal. A stored pair is the two fields' parsed values, within the 64-bit ranges. |
| StateKeeping.GetLastPosition | src/state_keeping.go:41-100 | The state file is truncated exactly when its content is invalid, and a truncated state loads as (0, 0). A non-zero result carries the current inode. The stat fails the call exactly when the content holds a valid pair and the stat is missing. Given a stat, any stored pair (i, p) loads as (i, p) when i is the current inode, and as (current inode, 0) otherwise. |
| StateKeeping.GetLastPositionClamped | src/state_keeping.go:41-100 | The same, except that a stored pair on the current inode loads with p capped at the file size. A returned offset never exceeds the file size. |
| StateKeeping.EncodeFits | src/state_keeping.go:120 | Every encoded state fits the 128-byte read. |
| StateKeeping.EncodeWords | src/state_keeping.go:120 | The encoded state is exactly two fields: the inode and the offset. |
| StateKeeping.ParseEncode | src/state_keeping.go:47-74 | Decoding an encoded state gives back the inode and the offset. |
| StateKeeping.RoundTrip | src/state_keeping.go:41-120 | Saving (i, p) and loading with current inode i gives (i, p), whatever the file size. |
| StateKeeping.RoundTripClamped | src/state_keeping.go:83-120 | With the clamp in force, the same round trip gives p capped at the file size. |
| StateKeeping.InodeChanged | src/state_keeping.go:94-100 | A state saved for another inode loads as (current inode, 0). |
| StateKeeping.ClampIsInert | src/state_keeping.go:83-96 | State `"12345 999999999"` with inode 12345 and a 100-byte log loads offset 999999999. |
| StateKeeping.BlankStateFile | src/state_keeping.go:41-45 | An all-whitespace state file loads as (0, 0) with nothing truncated. |
| StateKeeping.MalformedResets | src/state_keeping.go:47-59 | Non-blank content that is not two fields is truncated and loads as (0, 0). |
| StateKeeping.NotDecimalResets | src/state_keeping.go:61-74 | Two fields that are not a 64-bit unsigned and a 64-bit signed decimal are truncated and load as (0, 0). |
| StateKeeping.BadDataResets | src/state_keeping.go:47-59 | The content `"bad data here"` is truncated and loads as (0, 0). |
| StateKeeping.NonNumericInodeResets | src/state_keeping.go:61-74 | The content `"abc 42"` is truncated and loads as (0, 0). |
| StateKeeping.OneFieldIsInvalid | src/state_keeping.go:47-59 | A state with a single field is truncated and loads as (0, 0). |
| SearchHelpers.SearchForMatchingPackages | src/search_helpers.go:130-149 | The loop computes the specification `PackageSearch`. |
| SearchHelpers.PackageSearchKeeps | src/search_helpers.go:131-138 | The returned packages are exactly those whose name matches, in input order. |
| SearchHelpers.PackageSearchFound | src/search_helpers.go:131-146 | The flag is true exactly when some package matches by name or by version. |
| SearchHelpers.NameFilterMembers | src/search_helpers.go:131-138 | A package is kept exactly when it is in the input and its name matches. |
| SearchHelpers.SelectOperationsSpec | src/search_helpers.go:33-88 | With an operation pattern, a list and its flag are copied exactly when the flag is set and the pattern matches its name. Reinstall is never copied. Nothing selected means no match. The other fields are the copied ones. |
| SearchHelpers.NoOperationFilterCopies | src/search_helpers.go:89-91 | Without an operation pattern the record is copied whole. |
| SearchHelpers.PackageFilterFound | src/search_helpers.go:93-124 | The package filter matches exactly when some package of the four lists matches by name or version. |
| SearchHelpers.FindMatches | src/search_helpers.go:11-128 | The gates, the operation filter and the package loop compute the specification `FindMatchesOf`. |
| SearchHelpers.FilterPackages | src/search_helpers.go:93-124 | The loop over the four lists computes `PackageFilter`. |
| SearchHelpers.FoundUpToAll | src/search_helpers.go:101-121 | After all four lists, the loop's flag is the filter's verdict. |
| SearchHelpers.EventIDGate | src/search_helpers.go:12-14 | A non-empty search event ID other than the record's means no match. |
| SearchHelpers.TimeWindowGate | src/search_helpers.go:27-32 | A record starting before the window or ending after it does not match. |
| SearchHelpers.UserIDGate | src/search_helpers.go:50-54 | A non-zero search UID other than the record's means no match. |
| SearchHelpers.MatchedRecord | src/search_helpers.go:11-128 | A match passed every gate and carries the input's timestamps, command line, requester, UID, package total and elapsed time. With no operation or package pattern it is the input itself. |
| SearchHelpers.AsWrittenLists | src/search_helpers.go:102-120 | The lists the as-written loop produces do not depend on the map order: each visited list is filtered on its own. |
| SearchHelpers.MapOrderMatters | src/search_helpers.go:101-123 | As written, the match verdict depends on the order of visiting the lists. The corrected filter matches. |
| LogReading.Step | src/log_reading.go:139-195 | A block is handed over exactly on an End-Date line. The framer's invariant is preserved: nothing is buffered outside a block, and an open block starts with its Start-Date line. |
| LogReading.FrameCount | src/log_reading.go:139-196 | One block is handed over per End-Date line, and the invariant holds throughout. |
| LogReading.StartWipes | src/log_reading.go:142-153 | A Start-Date line discards the buffer and opens a block holding just itself. |
| LogReading.OutsideIgnored | src/log_reading.go:151-153 | Outside a block, a line that is not a marker is not buffered and changes nothing. |
| LogReading.InsideAppends | src/log_reading.go:151-153 | Inside a block, each line is appended verbatim followed by "\n". |
| LogReading.EndCloses | src/log_reading.go:156-194 | An End-Date line hands over the buffer with itself appended and leaves the framer idle. A stray End-Date line hands over "". |
| LogReading.FrameAppend | src/log_reading.go:134-216 | Scanning in two passes, keeping the state in between, is scanning all the lines at once. |
| LogReading.BodyBuffered | src/log_reading.go:151-153 | Inside a block, lines that are not markers are all buffered in order, and nothing is handed over. An unterminated block is withheld. |
| LogReading.OpenBlock | src/log_reading.go:142-153 | A Start-Date line followed by non-marker lines leaves exactly those lines in an open block. |
| LogReading.FrameBlock | src/log_reading.go:139-195 | From any state, a well-formed block is handed over as its lines, each followed by "\n", and the framer ends idle. |
| LogReading.FrameLog | src/log_reading.go:246-294 | A log made of well-formed blocks is handed over block by block, in file order. |
| LogReading.NoEndNoBlock | src/log_reading.go:156 | Lines without an End-Date line hand nothing over. |
| LogReading.RestartDiscardsPartial | src/log_reading.go:142-148 | An unfinished block before a well-formed block is discarded. The well-formed block alone is handed over. |
| LogReading.RestartDiscards | src/log_reading.go:142-148 | Feeding [Start, "a", Start, "b", End] hands over only "Start…\nb\nEnd…\n". |
| LogReading.Framer.constructor | src/log_reading.go:135-136 | A new framer is idle. |
| LogReading.Framer.Feed | src/log_reading.go:142-194 | One line updates the buffer and the flag as `Step` states, and preserves the invariant. |
| LogReading.PositionAtBlockEnd | src/log_reading.go:156-191 | The saved position moves only at an End-Date line: it is the cursor after the last one, or unchanged if there is none. |
| LogReading.PositionAtLastEnd | src/log_reading.go:156-191 | If line `j` is the last End-Date line, the saved position is the cursor after line `j`. |
| LogReading.ScanContinuous | src/log_reading.go:137-196 | One scan pass leaves the framer where framing leaves it. It emits one record per handed block, even when parsing fails, and sets the position by `LastEnd`. |
| LogReading.GatherOutcome | src/log_reading.go:272-289 | The search fails exactly when some block fails to parse or to be matched, and then with the first such error. When it succeeds, the records are those of the matched blocks, in file order. |
| LogReading.GatherAborts | src/log_reading.go:272-285 | After an error, later blocks change nothing. |
| LogReading.GatherSnoc | src/log_reading.go:272-289 | If the scan has not failed, one more block either fails it with that block's error, adds nothing, or appends its matched record. |
| LogReading.ScanSearch | src/log_reading.go:244-294 | The search loop computes `Gather` over the verdicts of the blocks the framer hands over. |
| LogReading.ScanStep | src/log_reading.go:249-291 | One more line moves the framer by one step. It adds one verdict exactly when that line hands over a block, and that verdict is the block's own. |
| LogReading.Finished | src/log_reading.go:272-285 | Returning at the first error gives the result of the whole scan. |

## Left out

- Process wiring: opening files, gzip, `bufio.Scanner`, `Seek`, output writes and `json.Marshal`'s bytes. `logReaderContinuous` (src/log_reading.go:19-133, 198-217) and `logReaderSearch` (220-245, 295-302) are modelled only through their scan loops. Scanner errors are not modelled.
- The offsets `Seek` reports are an opaque sequence. After `bufio` read-ahead they are not block boundaries, and the model claims nothing about them.
- Concurrency and the operating system: the signal goroutine, the `WaitGroup`, inotify, `changeWatcher` and `signalHandler` (src/log_reading_helpers.go). The shutdown-time `savePosition` is modelled only as `Encode`.
- File-system steps of `getLastPosition` and `savePosition`: stat of the state directory, open, read errors, `Truncate` and its failure, and write errors. The truncation is reported as the `truncated` flag of the result.
- Time: `parseTimestamp`, `calculateElaspedTime` and `time.Parse` are parameters. RFC 3339 is not modelled.
- `generateUUID` (SHA-256 over `%v` of the record) is the parameter `eventUUID`.
- Regular expressions: `regexp.Compile` and `parseSearchOptions` are left out. A compiled pattern is its match predicate.
- `sortLogsByTimestamp`, directory and glob expansion and report printing in src/search.go, flag parsing in src/main.go, and printing and exit in src/main_helpers.go are outside this core.
- The error texts built by `fmt.Errorf` are replaced by a `ParseError` datatype. The "length 0" error of `parseRequester` cannot occur, because `strings.Split` never returns an empty slice.
- Go's nil and empty slices are not told apart; both are `[]`.
- `json.Marshal` never fails on these types, so its error path in `splitLargeArray` is not modelled.
- `splitLargeArray`'s recursion is modelled twice. `SlicesAsWritten` is the code as written, bounded by a `depth` parameter, with `None` for "has not returned within `depth` calls". That bound stands for non-termination, which Dafny functions cannot express. `Slices` is the corrected, terminating version.
- StateKeeping.ReadPrefix: the state file is taken as characters, and the 128-byte read as 128 characters. Go reads 128 bytes and trims white space by decoded runes. The two agree on the ASCII text `savePosition` writes. They can differ on a hand-edited file with multi-byte white space, where the byte limit can cut a character in two.
- Chunking.SplitLargeArray: models the intended behaviour of the first Findings row. A single package that is too large on its own is emitted as its own chunk. The code never returns for it, as `Chunking.SplitLargeArrayAsWritten` shows.
- Chunking.SplitLog: is built on `Chunking.SplitLargeArray`, so it has the same departure from the code for a single oversized package.
- SearchHelpers.FindMatches: models the intended behaviour of the third Findings row. The package check matches when any list holds a matching package. The code keeps the verdict of the last non-empty list in Go's map order, as `SearchHelpers.PackageFilterAsWritten` shows.
- SearchHelpers.FilterPackages: computes the corrected any-list `SearchHelpers.PackageFilter`, not the order-dependent flag of the code.
- LogReading.ScanSearch: matches through `SearchHelpers.FindMatches`, so it has the same departure from the code.
- LogReading.ScanContinuous: the record is passed on as parsed. Splitting it with `splitLog` before output is not part of this loop in the code, and the model does not add it.

## Findings

| source | as written | input that shows it | evidently intended | confidence | as-written member | corrected member |
|---|---|---|---|---|---|---|
| src/chunking.go:37-51 | A one-package list whose record still exceeds the bound is bisected at mid = 0. The right half is the whole record, so the call repeats with the same arguments forever. | A record with one Install package whose JSON, with the other lists cleared, is over 15984 bytes. | The single package is emitted as its own, oversized, chunk. | not executed | Chunking.SingleOversizedDiverges | Chunking.Slices |
| src/state_keeping.go:83-96 | The clamp compares `position` with the file size before `position` is assigned, while it is still 0. The clamp never fires, and the stored offset is returned as it is. | State file `"12345 999999999"`, log inode 12345, log size 100 bytes: offset 999999999 is loaded. | The stored offset is clamped to the file size. | not executed | StateKeeping.ClampIsInert | StateKeeping.GetLastPositionClamped |
| src/search_helpers.go:101-123 | `packageMatchesSearch` is overwritten by every non-empty list. The verdict is therefore that of the last non-empty list in Go's unspecified map order. | Install [vim], Upgrade [curl], name pattern matching only "vim". The verdict is a match if Install is visited last, and no match if Upgrade is. | The record matches when any list holds a matching package. | not executed | SearchHelpers.MapOrderMatters | SearchHelpers.PackageFilter |
