# zpool-status-exporter in Dafny

zpool-status-exporter is a small HTTP server that runs `zpool status`, reads its
text into one record per pool, and answers each request with the records as
Prometheus-style text metrics. It can optionally check an `Authorization: Basic`
header against an allow-list of credentials. This project models the logic at
the centre of that program as pure Dafny functions and proves properties about
it. The model has no I/O.

| file | module | models |
|---|---|---|
| `wrappers.dfy` | `Wrappers` | `Option` and `Result` |
| `ruststr.dfy` | `RustStr` | the `str` methods the parsers use: `trim`, `split_once`, `split_whitespace`, `lines`, `starts_with`, `u32` parsing |
| `zfs.dfy` | `Zfs` | the current parser (`src/zfs.rs`): classifiers, device rows, scan content, header lines and the line loop |
| `macros.dfy` | `Macros` | the generic parts of `enum_all!` and `value_enum!` (`src/fmt/macros.rs`) |
| `fmt.dfy` | `Fmt` | the current formatter (`src/fmt.rs`): value tables, device paths, `Debug` quoting, pool and device sections, and the lookup lines |
| `auth.dfy` | `Auth` | the allow-list (`src/auth.rs`): sorted entries, binary search, header parsing and the `DebugUserString` trace |
| `legacy_zfs.dfy` | `LegacyZfs` | the first inline parser, `mod zfs` of `src/lib.rs` |
| `legacy_fmt.dfy` | `LegacyFmt` | the first inline value tables, `mod fmt` of `src/lib.rs` |

Each source dependency the code cannot compute itself becomes a parameter:

- Timestamps have an abstract type `T`. Parsing one is a parameter
  `parseTs: string -> Option<T>`.
- The age of a scan in hours is printed through a parameter `age: T -> string`.
- The lookup's duration is an `Option<nat>` of microseconds. It is `None` when
  the lookup was not timed.
- Base64 decoding is a parameter `decode: Bytes -> Option<Bytes>`.
- Credentials are bytes. UTF-8 validity follows table 3-7 of the Unicode
  Standard, and `is_char_boundary` follows the Rust definition.

The code has no never-scanned or canceled-scrub scan state. A pool with no
`scan:` line gets a scan age of 0, and a pool's own row in the device table gets
the empty device label `""`.

## Model

| member | source | states |
|---|---|---|
| `Zfs.NewPool` | src/zfs.rs:292-300 | a `pool:` line opens a record with that name, no devices, and every header metric missing |
| `Zfs.DeviceStatusOf` | src/zfs.rs:654-670 | a state other than Unrecognized is returned only for exactly that state's token, case included; no token is an error |
| `Zfs.DeviceStatusTokenRoundTrip` | src/zfs.rs:656-668 | each of the eight state tokens is read back as its own state |
| `Zfs.PoolStatusOf` | src/zfs.rs:709-723 | a recognised `status:` explanation starts with the phrase of that description; features-available accepts either of its two wordings |
| `Zfs.PoolStatusOfPhrase` | src/zfs.rs:709-723 | any text opening with a description's phrase is classified as that description, so the fixed test order never lets one phrase capture another |
| `Zfs.PoolStatusOfFeaturesAlternative` | src/zfs.rs:709-723 | the second wording of the features notice is also features-available, whatever follows it |
| `Zfs.ScanStatusOf` | src/zfs.rs:728-744 | a recognised scan message starts with the opening words of its status |
| `Zfs.ScanStatusOfPhrase` | src/zfs.rs:728-744 | a message opening with a status's words is classified as that status, whatever follows |
| `Zfs.ErrorStatusOf` | src/zfs.rs:746-761 | `errors:` is Ok exactly when it starts with the all-clear sentence, and DataErrors exactly when it is not Ok and its second word starts "data errors" |
| `Zfs.ErrorStatusOfCount` | src/zfs.rs:746-761 | "<count> data errors…" is DataErrors for any count without spaces |
| `Zfs.LeadingSpaces` | src/zfs.rs:533-543 | the depth count covers the whole leading run of spaces and stops at the first non-space |
| `Zfs.DeviceFromCells` | src/zfs.rs:547-586 | a row is accepted exactly when it has at least five cells and cells 2 to 4 parse as u32; an accepted row's fields are its cells in order; a rejected row names the first missing cell or the first bad counter, with the device name once the first cell exists |
| `Zfs.DeviceFromStr` | src/zfs.rs:516-586 | no tab is MissingLeadingWhitespace; text before the first tab is InvalidLeadingWhitespace; otherwise the depth is half the leading spaces and the cells follow; an accepted name never holds whitespace |
| `Zfs.DeviceRowRoundTrip` | src/zfs.rs:516-586 | a device laid out as `zpool status` prints it (tab, two spaces per level, cells, any trailing notes) parses back to the same device, for every depth and every u32 counter |
| `Zfs.FirstLine` | src/zfs.rs:434 | only the text before the first line feed is kept; text without a line feed is kept whole |
| `Zfs.SplitAtSeparator` | src/zfs.rs:442-446 | no split exactly when none of the separators occurs anywhere in the line |
| `Zfs.SplitAtSeparatorFirst` | src/zfs.rs:442-446 | a split is made at the first occurrence of the first separator in list order that occurs at all |
| `Zfs.ParseScanContent` | src/zfs.rs:429-461 | MissingTimestampSeparator exactly when neither " on " nor " since " occurs on the first line; a timestamp error names a text the timestamp parser rejects |
| `Zfs.ScanContentFirstLine` | src/zfs.rs:433-434 | lines after the first line of the scan content never change the result |
| `Zfs.ScanContentOn` | src/zfs.rs:426-461 | message, " on ", timestamp: the message is classified and the timestamp parsed, or the parse error is reported |
| `Zfs.ScanContentSince` | src/zfs.rs:426-461 | " since " is used only when " on " occurs nowhere on the first line |
| `Zfs.AddLineHeader` | src/zfs.rs:315-375 | an error carries the label and content; a success never overwrites a metric and keeps the name and devices; the device table is announced exactly for `config` |
| `Zfs.AddLineHeaderLabels` | src/zfs.rs:315-375 | an unknown label is an error; `action` and `see` change nothing; `config` is accepted exactly with empty content and then announces the device table |
| `Zfs.AddLineHeaderValues` | src/zfs.rs:315-375 | `state`, `status`, `scan` and `errors` fill in their metric when it is missing and are rejected when it is present |
| `Zfs.HeaderGivenTwice` | src/zfs.rs:321-333 | a metric's header given a second time is a duplicate-entry error |
| `Zfs.Gather` | src/zfs.rs:139-150 | a header line takes every following line that starts with a tab as a continuation, and stops at the first line that does not; the joined text is the header line and each continuation without its tab, joined by line feeds |
| `Zfs.PlainStep` | src/zfs.rs:173-183 | a header line without a colon is accepted exactly when it is blank or the no-pools marker; otherwise the device-mounts message or an unknown-header error |
| `Zfs.LabelStep` | src/zfs.rs:158-171 | a label other than `pool` goes through `add_line_header` on the last record: its error becomes the line's error; on success the last record alone is replaced and the section it announces (only `config`'s table) is entered |
| `Zfs.HeaderStep` | src/zfs.rs:151-183 | a `pool:` line appends a new record named by its trimmed content; another label before any pool is HeaderBeforePool with that label; otherwise the label is applied to the last record as `Zfs.LabelStep` states; a line without a colon is a plain header line; records are only extended and stay well formed |
| `Zfs.HeaderTurn` | src/zfs.rs:138-183 | a header turn consumes the header line and its continuations, and accepts or rejects the joined text exactly as `Zfs.HeaderStep` does |
| `Zfs.BlankTurn` | src/zfs.rs:185-201 | after `config:` the parser moves into the table exactly when a blank line is followed by the column labels, consuming both; a non-blank line is MissingBlankForDevices, a blank last line MissingDeviceTableLabels, and a blank line not followed by the labels InvalidDeviceTableLabels |
| `Zfs.DeviceTurn` | src/zfs.rs:202-224 | a blank or untabbed line ends the table; every other line, tabbed and not blank, appends exactly its parsed device to the last pool and stays in the table, or fails with that row's error |
| `Zfs.AppendDevice` | src/zfs.rs:302-306 | the device row goes to the end of the last record's devices; every other record is unchanged; a well-formed row keeps the records well formed |
| `Zfs.Turn` | src/zfs.rs:137-225 | every turn consumes at least one line and stays within the text, only extends the records and keeps them well formed, and leaves the header only once a record exists |
| `Zfs.Run` | src/zfs.rs:128-227 | the loop only extends the records it starts with and keeps them well formed, or yields an error naming a line at or after the start by its 1-based number and its text |
| `Zfs.HeaderStepNames` | src/zfs.rs:151-171 | an accepted header line adds a record exactly when it is a `pool:` line, named by its trimmed content, and leaves the parser where a walk over the labels expects |
| `Zfs.TurnPoolNames` | src/zfs.rs:137-225 | one accepted turn adds the names the walk finds on the lines it consumes and moves to the walk's next line and section |
| `Zfs.RunPoolNames` | src/zfs.rs:128-227 | a successful loop ends with the starting records' names followed by the trimmed content of every `pool:` line the walk meets, in order |
| `Zfs.ParseZfsMetrics` | src/zfs.rs:120-229 | the records are well formed and named, in order, by the `pool:` lines of the output; or the error names one line of the output by number and text |
| `Macros.Summarize` | src/fmt/macros.rs:64-80 | the summary is each variant's "Name = code" in table order, joined by ", " |
| `Macros.SummarizeAppend` | src/fmt/macros.rs:64-80 | the variants' texts are separated by exactly one ", ", with none at either end |
| `Macros.AscendingDistinct` | src/fmt/macros.rs:90-95 | in a table whose codes ascend, no two variants share a code |
| `Macros.ZeroOnlyDefault` | src/fmt/macros.rs:34-62 | in a value table only the default variant has code 0 |
| `Fmt.DeviceStatusValueTable` | src/fmt.rs:11-26 | `ALL` lists each device-state value once in declaration order, UnknownMissing first with code 0, codes strictly increasing |
| `Fmt.DeviceStatusValueInjective` | src/fmt.rs:11-26 | no two device-state values share a code |
| `Fmt.PoolStatusValueTable` | src/fmt.rs:28-37 | the same shape for the pool-description values |
| `Fmt.PoolStatusValueInjective` | src/fmt.rs:28-37 | no two pool-description values share a code |
| `Fmt.ScanStatusValueTable` | src/fmt.rs:39-50 | the same shape for the scan values |
| `Fmt.ScanStatusValueInjective` | src/fmt.rs:39-50 | no two scan values share a code |
| `Fmt.ErrorStatusValueTable` | src/fmt.rs:52-60 | the same shape for the error values |
| `Fmt.ErrorStatusValueInjective` | src/fmt.rs:52-60 | no two error values share a code |
| `Fmt.DeviceStatusValueFrom` | src/fmt/macros.rs:97-105 | a parsed state maps to the value of the same name, never to UnknownMissing |
| `Fmt.PoolStatusValueFrom` | src/fmt/macros.rs:97-105 | a parsed description maps to the value of the same name, never to Normal |
| `Fmt.ScanStatusValueFrom` | src/fmt/macros.rs:97-105 | a parsed scan status maps to the value of the same name, never to UnknownMissing |
| `Fmt.ScanStatusValueFromPair` | src/fmt/macros.rs:106-110 | a scan status paired with its time maps by the status alone |
| `Fmt.ScanStatusPairIgnoresTime` | src/fmt/macros.rs:106-110 | two scans with the same status but different times get the same value |
| `Fmt.ErrorStatusValueFrom` | src/fmt/macros.rs:97-105 | a parsed error status maps to the value of the same name, never to UnknownMissing |
| `Fmt.DeviceStatusFromOpt` | src/fmt/macros.rs:82-88 | the code is 0 exactly when the pool has no `state:` line, and otherwise is the state's code |
| `Fmt.PoolStatusFromOpt` | src/fmt/macros.rs:82-88 | the code is 0 exactly when the pool has no `status:` line |
| `Fmt.ScanStatusFromOpt` | src/fmt/macros.rs:82-88 | the code is 0 exactly when the pool has no `scan:` line |
| `Fmt.ErrorStatusFromOpt` | src/fmt/macros.rs:82-88 | the code is 0 exactly when the pool has no `errors:` line |
| `Fmt.UpdatePath` | src/fmt.rs:268-276 | the pool's own row clears the path; a row at depth d keeps the first d-1 names and appends its own |
| `Fmt.TreeLabel` | src/fmt.rs:278-290 | the label is quoted, and the empty path gives `""` |
| `Fmt.TreeLabelReadBack` | src/fmt.rs:278-290 | names without "/" are recovered from the label by splitting between the quotes |
| `Fmt.PathLength` | src/fmt.rs:231-244 | in a nested table the path after a row has one name per level of that row's depth |
| `Fmt.PathEntry` | src/fmt.rs:231-244 | level j+1 of a row's path is the name of the last row so far at depth j+1 |
| `Fmt.PathIsAncestors` | src/fmt.rs:231-244 | in a nested table the path after a row is the chain of that row's ancestors |
| `Fmt.DebugStr` | src/fmt.rs:189 | a pool name's `Debug` form is quoted |
| `Fmt.EscapeRoundTrip` | src/fmt.rs:189 | the escaped pool name can always be read back unchanged |
| `Fmt.EscapeOneLine` | src/fmt.rs:189 | an escaped pool name holds no line feed, so a label cannot break a sample line |
| `Fmt.LineKind` | src/fmt.rs:93-110 | every written line is non-empty, and it starts with "#" exactly when it is a comment |
| `Fmt.RenderLines` | src/fmt.rs:93-110 | splitting the output at line feeds gives back each written line |
| `Fmt.DeviceSamplesFromAt` | src/fmt.rs:231-255 | row k's sample carries the path built from the rows up to k |
| `Fmt.DeviceSamplesAt` | src/fmt.rs:231-255 | pool p's row k sits after the rows of the pools before it, and the path starts afresh for each pool |
| `Fmt.DeviceRowAt` | src/fmt.rs:231-255 | the sample at that position reports row k of pool p with that row's own path |
| `Fmt.DeviceSectionOrder` | src/fmt.rs:206-259 | the device output is four sections (state, read, write, checksum), each its comment then one sample per device |
| `Fmt.DeviceSamplesMetric` | src/fmt.rs:245-254 | every sample of a device section is of that section's metric |
| `Fmt.PoolCode` | src/fmt.rs:167-180 | a coded pool metric is 0 exactly when the pool's report lacked that header |
| `Fmt.PoolBlock` | src/fmt.rs:127-191 | a pool section is its comment followed by one sample per pool, in the pools' order |
| `Fmt.PoolSectionOrder` | src/fmt.rs:112-193 | the pool output is five sections in the order state, description, scan state, scan age, errors |
| `Fmt.PoolSampleReadBack` | src/fmt.rs:158-190 | a pool sample's label reads back as the pool's name, and a coded value parses back as the code |
| `Fmt.DeviceSampleReadBack` | src/fmt.rs:251-254 | a device sample's labels read back as the pool name and the device path, and its value as the reported number |
| `Fmt.LookupLines` | src/fmt.rs:103-107 | the lookup lines are present exactly when the lookup was timed |
| `Fmt.ReportLength` | src/fmt.rs:93-110 | the output has one line per section comment and per sample, or one comment line when no pool was reported, plus two lines when timed |
| `Fmt.ReportOpening` | src/fmt.rs:95-101 | the output opens with "# no pools reported" exactly when there are no pools, and otherwise with the pool-state comment |
| `Fmt.SectionsNoLookup` | src/fmt.rs:97-101 | no section line is a sample of the lookup metric |
| `Fmt.ReportLookup` | src/fmt.rs:103-107 | the lookup metric appears exactly when the lookup was timed, as the last line, with the duration as its value |
| `Fmt.LookupLast` | src/fmt.rs:103-107 | lines without the lookup metric followed by the lookup lines hold the metric exactly when timed |
| `Fmt.FormatMetrics` | src/fmt.rs:93-110 | the text is never empty and ends with a line feed; it opens with the line "# no pools reported" exactly when no pool was reported |
| `Auth.BelowIrreflexive` | src/auth.rs:60 | the byte-wise string order never puts a string below itself |
| `Auth.BelowTransitive` | src/auth.rs:60 | the byte-wise string order is transitive |
| `Auth.BelowTotal` | src/auth.rs:60 | any two strings are equal or ordered one way |
| `Auth.Insert` | src/auth.rs:57-64 | inserting into a sorted list keeps it sorted and adds exactly that entry |
| `Auth.SortEntries` | src/auth.rs:57-64 | sorting gives an ascending permutation of the entries |
| `Auth.FromEntries` | src/auth.rs:57-64 | no rules exactly when there are no entries; otherwise the same entries, sorted |
| `Auth.BinarySearch` | src/auth.rs:129 | over sorted entries the search finds a credential exactly when it is listed |
| `Auth.CharWidth` | src/auth.rs:157 | a character is one to four bytes, the first never a continuation byte and the later ones always, and one byte exactly when ASCII |
| `Auth.ValidUtf8Append` | src/auth.rs:157 | valid UTF-8 followed by valid UTF-8 is valid UTF-8 |
| `Auth.CharBoundaries` | src/auth.rs:228-229 | in valid UTF-8 the end of the first character is a char boundary and no index inside it is |
| `Auth.BoundaryPrefixValid` | src/auth.rs:221-224 | cutting valid UTF-8 at a character boundary leaves valid UTF-8 |
| `Auth.DebugUserStringFromAsWritten` | src/auth.rs:225-238 | `truncate(80)` panics exactly when the text is longer than 80 bytes and byte 80 is inside a character; otherwise the text is kept whole or cut to 80 bytes with its length |
| `Auth.FloorCharBoundary` | src/auth.rs:228-229 | the last character boundary at or below the limit |
| `Auth.DebugUserStringFrom` | src/auth.rs:225-238 | text of at most 80 bytes is kept whole; longer text is cut at the last character boundary within 80 bytes and keeps its original length |
| `Auth.DebugUserStringAgrees` | src/auth.rs:225-238 | wherever the code as written does not panic, the corrected cut gives the same trace |
| `Auth.DebugUserStringValid` | src/auth.rs:221-224 | the corrected trace of a valid credential is valid UTF-8, as a `Box<str>` needs |
| `Auth.AsciiNeverPanics` | src/auth.rs:142-145 | an ASCII header value never makes the cut panic, so the header error path is safe |
| `Auth.TruncationPanics` | src/auth.rs:228-229 | a concrete valid 81-byte credential whose byte 80 is inside a character makes the cut panic |
| `Auth.DebugUserStringRefFromAsWritten` | src/auth.rs:239-250 | the borrowed cut `&value[..80]` panics under the same condition as the owned one |
| `Auth.DebugUserStringRefFrom` | src/auth.rs:239-250 | the corrected borrowed trace is kept whole exactly when at most 80 bytes, and keeps the original length when cut |
| `Auth.AsRef` | src/auth.rs:271-281 | borrowing a trace keeps its shape, text and length |
| `Auth.AsRefFrom` | src/auth.rs:271-281 | borrowing the owned trace equals the trace made from the borrowed text |
| `Auth.ParseAuthorizationValue` | src/auth.rs:139-162 | MissingBasic exactly when "Basic " is absent; Base64 exactly when the rest does not decode; a success is valid UTF-8 decoded from the rest; every error carries a trace of the header value |
| `Auth.ParseBasicRoundTrip` | src/auth.rs:147-161 | "Basic " followed by an encoding of a valid credential parses back to that credential |
| `Auth.ParseUtf8Error` | src/auth.rs:157-159 | a well-formed header whose decoded bytes are not UTF-8 is the Utf8 error |
| `Auth.Query` | src/auth.rs:116-136 | no header is MissingAuthHeader; a malformed header is an error; Accept exactly when the credential is listed; Deny otherwise, with its trace cut by the corrected `Auth.DebugUserStringFrom` |
| `Auth.DenyReachesTruncation` | src/auth.rs:127-134 | an unlisted credential from a valid header reaches the cut that panics |
| `LegacyZfs.NewPool` | src/lib.rs:203-211 | a `pool:` line opens a record with that name, no devices and every metric missing |
| `LegacyZfs.PoolStatusOf` | src/lib.rs:347-360 | a state is Unrecognized exactly when the token is not one of the seven; a recognised state came from its own token |
| `LegacyZfs.PoolStatusTokenRoundTrip` | src/lib.rs:347-360 | each of the seven tokens is read back as its own state |
| `LegacyZfs.ScanStatusOf` | src/lib.rs:332-342 | ScrubRepaired exactly when the message starts "scrub repaired" |
| `LegacyZfs.ScanStatusOfRepaired` | src/lib.rs:332-342 | whatever follows "scrub repaired", the status is ScrubRepaired |
| `LegacyZfs.ErrorStatusOf` | src/lib.rs:362-369 | Ok exactly when the text is the all-clear sentence |
| `LegacyZfs.DeviceFromCells` | src/lib.rs:303-327 | accepted exactly when the current parser accepts the cells; fields are the cells; a missing cell is the first absent one, and a bad counter the first unparsable one |
| `LegacyZfs.DeviceFromStr` | src/lib.rs:283-328 | a row not starting with a tab is malformed; otherwise the depth is the count of spaces and the cells follow |
| `LegacyZfs.DeviceFromStrAgrees` | src/lib.rs:283-328 | the first parser accepts exactly the rows the current one accepts, with half the depth and the same name and counters |
| `LegacyZfs.DeviceRowRoundTrip` | src/lib.rs:283-328 | a device laid out as a row parses back to the same device |
| `LegacyZfs.ParseScanContent` | src/lib.rs:265-280 | MissingTimestampSeparator exactly when " on " occurs nowhere; a timestamp error names a text the timestamp parser rejects |
| `LegacyZfs.ScanContentOn` | src/lib.rs:265-280 | message, " on ", timestamp: the message is classified and the timestamp parsed |
| `LegacyZfs.AddLineHeader` | src/lib.rs:214-257 | an error carries the label and content; a success never overwrites a metric and uses one of state, scan, config, errors |
| `LegacyZfs.AddLineHeaderCases` | src/lib.rs:232-256 | an unknown label is an error, config needs empty content, and each metric may be given once |
| `LegacyZfs.HeaderLine` | src/lib.rs:160-182 | a `pool:` line appends a new record named by its trimmed content; another label before any pool is an error, and after one goes through `add_line_header` on the last record, whose error is the line's error; a colon-less line is the column labels (entering the table), a blank, or UnknownHeaderLine; records are only extended |
| `LegacyZfs.AppendDevice` | src/lib.rs:258-262 | a device row is appended to the last record only |
| `LegacyZfs.DeviceLineStep` | src/lib.rs:183-194 | a blank line returns to the header; a row before any pool is an error; otherwise the row is parsed into the last record |
| `LegacyZfs.Step` | src/lib.rs:159-196 | one line, in either section, only extends the records and keeps them well formed |
| `LegacyZfs.StepNames` | src/lib.rs:159-196 | an accepted line adds a record exactly when it is a `pool:` header line, named by its trimmed content, and leaves the loop in the section a walk over the lines expects |
| `LegacyZfs.RunFrom` | src/lib.rs:158-198 | the loop only extends the records and keeps them well formed; an error names a line of the input |
| `LegacyZfs.RunFromAppend` | src/lib.rs:158-198 | the loop is a fold: two pieces of text are parsed as one by parsing the second from the first's end state |
| `LegacyZfs.RunFromNames` | src/lib.rs:158-198 | a successful loop ends with the starting records' names followed by the trimmed content of every `pool:` line the walk meets, in order |
| `LegacyZfs.ParseZfsMetrics` | src/lib.rs:155-199 | the records are well formed and named, in order, by the `pool:` lines of the output; or the error names a line of the output |
| `LegacyFmt.PoolStateValueTable` | src/lib.rs:490-503 | the pool-state table lists each value once in declaration order, UnknownMissing first with code 0, codes strictly increasing |
| `LegacyFmt.PoolStateValueInjective` | src/lib.rs:490-503 | no two pool-state values share a code |
| `LegacyFmt.ScanStatusValueTable` | src/lib.rs:504-511 | the same shape for the scan values |
| `LegacyFmt.ScanStatusValueInjective` | src/lib.rs:504-511 | no two scan values share a code |
| `LegacyFmt.ErrorStatusValueTable` | src/lib.rs:512-519 | the same shape for the error values |
| `LegacyFmt.ErrorStatusValueInjective` | src/lib.rs:512-519 | no two error values share a code |
| `LegacyFmt.PoolStateValueFrom` | src/lib.rs:468-476 | a parsed pool state maps to the value of the same name, never to UnknownMissing |
| `LegacyFmt.ScanStatusValueFrom` | src/lib.rs:468-476 | a parsed scan status maps to the value of the same name |
| `LegacyFmt.ScanStatusValueFromPair` | src/lib.rs:477-481 | a scan paired with its time maps by the status alone |
| `LegacyFmt.ScanStatusPairIgnoresTime` | src/lib.rs:477-481 | the time of a scan never changes its value |
| `LegacyFmt.ErrorStatusValueFrom` | src/lib.rs:468-476 | a parsed error status maps to the value of the same name |
| `LegacyFmt.PoolStateFromOpt` | src/lib.rs:454-460 | the code is 0 exactly when the pool has no `state:` line |
| `LegacyFmt.ScanStatusFromOpt` | src/lib.rs:454-460 | the code is 0 exactly when the pool has no `scan:` line |
| `LegacyFmt.ErrorStatusFromOpt` | src/lib.rs:454-460 | the code is 0 exactly when the pool has no `errors:` line |
| `LegacyFmt.LegacyCodesInjective` | src/lib.rs:489-520 | distinct parsed states get distinct codes, and code 1 means exactly an unrecognised state |

## Left out

- The HTTP server, the process entry point and the command line (`src/lib.rs` outside `mod zfs` and `mod fmt`, `src/main.rs`, and `src/bin/fake-zpool.rs`). These are I/O.
- Running `zpool status`, reading the clock, and `get_time_context`. Their results enter the model as parameters: the output text, `parseTs`, `age` and `lookupMicros`.
- Parsing timestamps with the time-zone database. This is the `parseTs` parameter.
- The floating-point scan age (`seconds / 3600` printed with six decimals) and the lookup's elapsed time. The model takes both as text or numbers already computed.
- Base64 decoding. This is the `decode` parameter.
- `AuthRules::from_file` (src/auth.rs:39-53) and `print_start_message` (src/auth.rs:102-109). These read files and print.
- The `OnceLock` that caches the `Authorization` header name. The model's request is reduced to the header's value.
- The `Display` and `Debug` writing of `DebugUserString` and `DebugUserStringRef` (src/auth.rs:258-269). This is message text only.
- The legacy metric writer `Display for FormatPoolMetrics` in `src/lib.rs` (554-625). It uses floats and the clock; its value tables and codes are modelled in `LegacyFmt`.
- The `eprintln!` diagnostics, the metadata comments of `src/fmt/meta.rs`, and the tests.
- Fmt.PoolStatusValueFrom: requires the description not to be DeviceRemoved. The value table at src/fmt.rs:28-37 has no DeviceRemoved variant, so the source cannot be given a code for it.
- Fmt.PoolStatusFromOpt: same requirement as `Fmt.PoolStatusValueFrom`. The pool sections (`Fmt.PoolBlock` and the lemmas over the report) require every pool's description to be describable for the same reason.
- Fmt.DebugStr: escapes only `\0`, `\t`, `\r`, `\n`, `"` and `\\`. Rust's `Debug` for `str` also writes other non-printable characters as `\u{…}`, and that is not modelled; `Fmt.EscapeRoundTrip` and `Fmt.EscapeOneLine` are about this simpler escape.
- LegacyZfs.DeviceFromStr: the depth is an unbounded `nat`. The source converts it with `u32::try_from(..).expect(..)`, which would panic only for more than 2^32 spaces.
- Zfs.Run: the whole-output result is related to the text through the records' names (`Zfs.RunPoolNames`); the header metrics and device rows of each record are stated one line at a time by `Zfs.HeaderStep`, `Zfs.LabelStep`, `Zfs.BlankTurn` and `Zfs.DeviceTurn`, not for the whole output. There is no fold lemma over two pieces of text as for the first parser, because the loop looks ahead: a header line takes the continuation lines after it, and the blank line before the table is consumed with the labels line.
- Zfs.ParseZfsMetrics: same as `Zfs.Run`; the names of the records are stated for the whole output, their other fields line by line.
- LegacyZfs.ParseZfsMetrics: the names of the records are stated for the whole output (`LegacyZfs.RunFromNames`); their other fields are stated line by line by `LegacyZfs.HeaderLine` and `LegacyZfs.DeviceLineStep`, and lifted over pieces of text by `LegacyZfs.RunFromAppend`.
- Auth.ParseAuthorizationValue: the error trace uses the corrected cut `Auth.DebugUserStringFrom`. A header value is ASCII, where the cut as written never panics and gives the same trace (`Auth.AsciiNeverPanics`).
- Auth.Query: the deny trace uses the corrected cut `Auth.DebugUserStringFrom`. As written, the deny path panics for some credentials (see Findings, and `Auth.DenyReachesTruncation`).
- Fmt.Report: the list of output lines has no contract of its own; its length, first line and lookup lines are stated by `Fmt.ReportLength`, `Fmt.ReportOpening` and `Fmt.ReportLookup`.
- The anyhow error messages of the first parser are reduced to error kinds plus the offending line.

## Findings

| source | as written | input that shows it | evidently intended | confidence | as-written member | corrected member |
|---|---|---|---|---|---|---|
| src/auth.rs:225-250 | `DebugUserString::from` calls `String::truncate(80)` and `DebugUserStringRef::from` slices `&value[..80]`; both panic when byte 80 falls inside a multi-byte character. The deny path of `query` feeds them the decoded credential, which can be any valid UTF-8 | the credential of 79 × "a" followed by "é" (bytes C3 A9), 81 bytes, sent base64-encoded after "Basic " and not on the allow-list | cut at the last character boundary at or below 80 bytes | not executed | `Auth.DebugUserStringFromAsWritten` (`Auth.TruncationPanics`, `Auth.DenyReachesTruncation`) | `Auth.DebugUserStringFrom` (`Auth.DebugUserStringValid`, `Auth.DebugUserStringAgrees`) |
