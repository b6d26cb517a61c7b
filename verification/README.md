# ZIP_Navigator inspector core in Dafny

A model of the pure logic inside `ZipInspector` (`utils_zip/zip_util.py`) of
ZIP_Navigator. The tool lists a remote ZIP archive by fetching only its
leading bytes and the central directory at the end of the object. It then
writes size reports in shards of 1000 entries, merges the shards into one
numbered report and deletes the shards.

The model has nine modules, one per file:

- `Wrappers` (`wrappers.dfy`): the `Option` type shared by the other modules.
- `Strings` (`strings.dfy`): the Python string operations the code relies on.
  These are `str.split` and `sep.join`, the `in` test, `startswith` and
  `endswith`, `strip()` with Python's whitespace set, `f"{n}"` for a
  non-negative integer, and `int()` on a run of ASCII digits.
- `Locator` (`locator.dfy`): `locate_central_directory`. It covers the
  backward probe windows and the retry loop that stops at the first window
  the decoder accepts.
- `Inspection` (`inspect.dfy`): `inspect`. It covers the `PK` signature
  guard, the call into the locator, and the session state cached afterwards:
  `file_list`, `file_sizes` and the dictionary's key order.
- `FolderTree` (`folder_tree.dfy`): the folder tree that
  `navigate_and_display` builds from the `/`-separated entry names.
- `ReportFiles` (`reports.dfy`): the shard file names `report_{start}-{end}.{format}`.
  It also covers the shard filter shared by the merge and the cleanup, and
  the numeric sort key parsed from a name.
- `Shards` (`shards.dfy`): `generate_report_parallel`. It covers the range
  partition and the line each entry becomes, `"{name}: {size} bytes"`.
- `Merge` (`merge.dfy`): `combine_reports` and `clean_up_reports`. It covers
  the filter, the sort, the line filter and unpacking, the numbering, the
  rendered combined file, and the deletion.
- `Pipeline` (`pipeline.dfy`): the menu's combined-report option, which runs
  generate, then combine, then clean up. Its main theorem is the round trip
  from sharding to merging; `Pipeline.SessionReport` applies it to the
  session an inspection caches.

The output directory is a map from file name to the file's lines.
`os.listdir` becomes a parameter `listing`, a sequence that enumerates the
directory's names in any order. Network fetches and `ZipFile` decoding
become function parameters (oracles). The fetch oracle takes the attempt
number as well as the window, because every attempt sends a fresh request
whose outcome may differ from the one before.

Behaviour of the code that the model keeps as written:

- The locator's decoder runs on the fetched trailing bytes alone (line 62).
  The leading sample is prepended only for the final decode in `inspect`
  (line 92), so `Inspection.Inspect` decodes `leading + located`.
- A line holding `": "` more than once makes `file_name, size = line.split(": ")`
  raise. The `except` at line 242 swallows that error and ends the merge
  early, leaving a combined file with the rows before that line. Only lines
  without `": "` are skipped (`Merge.ParseLinesAbort`).
- `combine_reports` swallows every error raised after the sort (line 242),
  so the menu flow goes on to delete the shards even after a failed merge.
  The one error that escapes is an unparsable sort key at line 201, which
  lies outside the `try`. That error skips the cleanup
  (`Pipeline.GenerateCombineClean`).
- The merge orders shards by the text after the first `_`, up to the next
  `_` or `-`, parsed with `int()` (`ReportFiles.SortKey`). For the names the writer produces,
  this text is the start index (`ReportFiles.SortKeyOfShard`), so the
  shards are merged in range order.

## Model

Several operations carry no contract of their own; the lemmas about them
state what they do:

- `FolderTree.Insert`: `FolderTree.InsertFailsIffBlocked` and `FolderTree.InsertLookup`.
- `FolderTree.Build`: `FolderTree.BuildPlacesEveryEntry` and `FolderTree.PathInjective`.
- `Strings.Strip`: `Strings.StripRemovesPadding` and `Strings.StripUnpadded`.
- `Strings.Split`: `Strings.SplitJoin`, `Strings.SplitCountContains`, `Strings.SplitPair` and `Strings.SplitThree`.
- `ReportFiles.ShardFileName` and `ReportFiles.IsShardName`: `ReportFiles.ShardFileNameMatches` and `ReportFiles.CombinedIsNotShard`.
- `ReportFiles.SortKey`: `ReportFiles.KeyOfShape` and `ReportFiles.SortKeyOfShard`.
- `Shards.Generate`: `Shards.GenerateContents` and `Pipeline.GeneratePreservesOthers`.
- `Merge.ParseLines`: `Merge.ParseLinesAbort`, `Merge.ParseLinesNumbering` and `Pipeline.ParseEntryLines`.
- `Pipeline.GenerateCombineClean`: `Pipeline.AfterCleanup`, `Pipeline.ShardThenMerge` and `Pipeline.SessionReport`.

| member | source | states |
|---|---|---|
| Locator.ProbeWindow | utils_zip/zip_util.py:56-58 | the window of attempt `a` ends at the object's last byte and never starts below 0; it starts at 0 once `step * (a + 1)` reaches the length, and otherwise reaches back exactly `step * (a + 1)` bytes |
| Locator.ProbeMonotone | utils_zip/zip_util.py:56-57 | with a non-negative step, a later attempt's window never starts after an earlier one's, so the windows only grow |
| Locator.ProbeCovers | utils_zip/zip_util.py:57 | a trailing region of `tail` bytes lies inside attempt `a`'s window as soon as `tail <= step * (a + 1)`; an object no longer than `step` is fetched whole on the first attempt |
| Locator.Locate | utils_zip/zip_util.py:47-70 | the loop makes at most `max_attempts` fetches, requests the schedule's windows in order, and rejects every window before the last one it requests; it returns bytes exactly when the last window is accepted, and those are the bytes fetched there; a failure comes only after all `max_attempts` windows; the result agrees with the reference sweep `SweepFrom` |
| Locator.FirstSuccessWins | utils_zip/zip_util.py:56-64 | if attempt `k` is the first accepted one, the sweep makes exactly `k + 1` fetches and returns the bytes of window `k` |
| Locator.TransientFailureRetried | utils_zip/zip_util.py:56-67 | for an object no longer than the step, attempt 2 requests the same window as attempt 1, and a request that fails once and then succeeds is found on the second attempt |
| Locator.AllAttemptsFail | utils_zip/zip_util.py:65-70 | if no window is accepted, every error is swallowed and the sweep gives up after exactly `max_attempts` fetches (none when `max_attempts <= 0`) |
| Inspection.Inspect | utils_zip/zip_util.py:72-99 | a failed HEAD request fails before any fetch; otherwise the leading window 0-8191 is fetched first; a failed leading fetch and a sample without the `PK` signature each fail exactly then, before any probe window is requested; once the signature is checked, the probes follow the locator schedule with the default step and attempt count, and the outcome is decided by the reference sweep in both directions: not found exactly when all 20 probes are rejected, unreadable exactly when the located bytes after the leading sample do not decode, and success exactly when they do, with the session decoded from leading bytes + located bytes |
| Inspection.LocateAndDecode | utils_zip/zip_util.py:89-99 | the probes fetched are the schedule's first windows, as many as the reference sweep makes; not found exactly when the sweep is exhausted after 20 rejected probes; otherwise the last probe is accepted, the earlier ones rejected, and the result is the session or the decode error for leading bytes + located bytes, in both directions |
| Inspection.SizeTable | utils_zip/zip_util.py:97 | the size table has exactly the entry names as keys, and a name's size is that of its last entry |
| Inspection.Dedup | utils_zip/zip_util.py:97 | the dictionary's key list holds every name of `file_list` exactly once |
| Inspection.FirstIndex | utils_zip/zip_util.py:97 | the position of a name's first occurrence in `file_list`: it holds the name and no earlier position does |
| Inspection.DedupFirstOrder | utils_zip/zip_util.py:97 | the keys come from `file_list` in the order of their first occurrence there, as a Python dictionary keeps its keys |
| Inspection.DedupDistinct | utils_zip/zip_util.py:97 | when `file_list` holds no name twice, the key list is `file_list` itself |
| Inspection.SessionOf | utils_zip/zip_util.py:96-97 | the cached session keeps the length; `file_list` is the entry names in order; the key list, the size table and `file_list` hold the same names; the keys do not repeat; sizes come from the last entry of each name |
| FolderTree.InsertFailsIffBlocked | utils_zip/zip_util.py:110-113 | placing an entry raises exactly when a proper prefix of its path already holds a file's size |
| FolderTree.InsertLookup | utils_zip/zip_util.py:110-113 | after placing an entry, its own path holds its size (overwriting an earlier leaf there), every proper prefix is a folder, nothing lies below the leaf, and every other path looks the same as before |
| FolderTree.BuildPlacesEveryEntry | utils_zip/zip_util.py:105-113 | when no entry path is a proper prefix of another, the build succeeds; every entry's path holds `file_sizes.get(name, 0)`; every file in the tree is some entry's path |
| FolderTree.PathInjective | utils_zip/zip_util.py:109 | different entry names split into different paths |
| Strings.SplitJoin | utils_zip/zip_util.py:109 | `sep.join(s.split(sep)) == s`: splitting loses no character |
| Strings.SplitCountContains | utils_zip/zip_util.py:218-219 | `s.split(sep)` has more than one part exactly when `sep in s` |
| Strings.SplitPair | utils_zip/zip_util.py:219 | a line `a + sep + b` with no `sep` starting inside `a` and none in `b` splits into exactly `[a, b]` |
| Strings.SplitThree | utils_zip/zip_util.py:221 | three fields free of the separator character, joined by it, split back into the same three fields |
| Strings.Strip | utils_zip/zip_util.py:221 | the stripped string is no longer than the input and, when non-empty, starts and ends with a non-whitespace character |
| Strings.StripRemovesPadding | utils_zip/zip_util.py:221 | `strip()` returns a contiguous slice of its input, and every character cut off before or after that slice is whitespace; together with `Strings.Strip` the result is exactly the input minus its leading and trailing whitespace |
| Strings.StripUnpadded | utils_zip/zip_util.py:221 | `strip()` leaves a string with no whitespace at either end unchanged |
| Strings.ParseRender | utils_zip/zip_util.py:201 | `int(f"{n}") == n` for every non-negative `n` |
| Shards.RangesFrom | utils_zip/zip_util.py:267-270 | the submitted ranges from `i` are `[i + k*1000, min(i + k*1000 + 1000, n))`, one for each multiple of 1000 below `n`: ceil((n - i)/1000) of them |
| Shards.Partition | utils_zip/zip_util.py:265-270 | the ranges of `n` keys number ceil(n/1000), with none for `n = 0`; each is non-empty and at most 1000 long; they start at 0, each ends where the next starts, the last ends at `n`; they are disjoint and ascending; key `j` lies in range `j / 1000` |
| Shards.WriteShards | utils_zip/zip_util.py:258-263 | writing the shards adds exactly the shard names to the directory and leaves every other file unchanged |
| Shards.WriteShardsContents | utils_zip/zip_util.py:258-263 | when the ranges have distinct starts, each shard file holds exactly the lines of its own range, whatever the order of writing |
| Shards.GenerateContents | utils_zip/zip_util.py:255-270 | after `generate_report_parallel`, the directory gains exactly the shard names, other files are unchanged, and each range's shard holds `keys[start:end]` as lines, in key order |
| Shards.ShardNamesDiffer | utils_zip/zip_util.py:260 | shards with different start indices get different file names, so no two shards write the same file |
| ReportFiles.ShardFileNameMatches | utils_zip/zip_util.py:200 | every shard file the writer creates (line 260) passes the merge and cleanup filter (lines 184 and 200) of its own format and fails the filter of the other format |
| ReportFiles.KeyOfShape | utils_zip/zip_util.py:201 | a name `report_{d}-{rest}`, with `d` all digits and no `_` or `-` in `rest`, has sort key `int(d)` |
| ReportFiles.SortKeyOfShard | utils_zip/zip_util.py:201 | the sort key of a shard's name, as written at line 260, is its start index |
| ReportFiles.CombinedIsNotShard | utils_zip/zip_util.py:184 | neither combined report name (lines 159 and 163) passes either format's shard filter, so cleanup never deletes the combined report |
| Merge.Select | utils_zip/zip_util.py:200 | the selected files are exactly the listed names that start with `report_` and end with `.{format}`, with no repeats if the listing has none |
| Merge.KeyAll | utils_zip/zip_util.py:199-202 | the keyed list exists exactly when every selected name's key parses, and pairs each name with its key, in order |
| Merge.InsertByKey | utils_zip/zip_util.py:199-202 | inserting into a key-sorted list keeps it sorted and adds exactly the one element |
| Merge.SortByKey | utils_zip/zip_util.py:199-202 | the result is sorted by key and is a permutation of the input |
| Merge.SortedUnique | utils_zip/zip_util.py:199-202 | two key-sorted arrangements of the same elements are equal when no two elements share a key, so the merge order does not depend on the listing order |
| Merge.SortKeyErrorWhen | utils_zip/zip_util.py:199-202 | `sorted` raises exactly when some listed shard file's key does not parse |
| Merge.ListingOrder | utils_zip/zip_util.py:199-202 | when every key parses, the merge order holds exactly the listed shard files of the format, each as often as listed, in non-decreasing key order |
| Merge.MergeOrder | utils_zip/zip_util.py:199-202 | sorting the keyed selection gives a permutation of the selection in non-decreasing key order |
| Merge.KeptLines | utils_zip/zip_util.py:216-218 | the kept lines are exactly the lines containing `": "`, and each of them splits into at least two parts |
| Merge.ParseLinesAbort | utils_zip/zip_util.py:214-222 | the read loop ends early exactly when some kept line does not split into exactly two parts; every kept line before the stop unpacks, so it stops at the first such line, which holds `": "` twice or more, and the handler at line 242 ends the merge there; otherwise it writes one row per kept line |
| Merge.ParseLinesNumbering | utils_zip/zip_util.py:218-222 | row `i` comes from kept line `i`, with stripped name and size, and carries number `serial + i` (starting from 1 at line 205); skipped lines take no number |
| Merge.Render | utils_zip/zip_util.py:211-238 | the combined file is the header line followed by exactly one line per row |
| Merge.HeaderFields | utils_zip/zip_util.py:211 | the header of either format (lines 211 and 228) splits into the columns `S.No`, `File Name`, `Size (bytes)` |
| Merge.RenderFields | utils_zip/zip_util.py:221 | each rendered row (lines 221 and 238) splits on the format's separator back into its serial, name and size, and the serial parses back to the row's number |
| Merge.Combine | utils_zip/zip_util.py:199-243 | the merge raises exactly when a listed shard file's key does not parse; otherwise the shard files are read in a key-sorted permutation of the selection, the rows are those the read loop produces from their lines, and the combined file (header plus rows) is the only file written |
| Merge.Cleanup | utils_zip/zip_util.py:182-185 | exactly the files passing the shard filter are removed, and every other file keeps its contents |
| Pipeline.GeneratePreservesOthers | utils_zip/zip_util.py:255-270 | writing the shards leaves every file outside the shard filter in place, contents included |
| Pipeline.AfterCleanup | utils_zip/zip_util.py:158-164 | once the menu option finishes, whether or not the merge was complete, no shard file of the format remains; the combined report is present and holds the header and the merged rows; every other earlier file is unchanged |
| Pipeline.LineRoundTrip | utils_zip/zip_util.py:263 | a shard line written for a plain name (line 263) contains `": "`, unpacks, and parses back into that name and `"{size} bytes"` |
| Pipeline.ParseEntryLines | utils_zip/zip_util.py:214-222 | parsing all entry lines from serial 1 writes every entry in key order, numbered `1..N`, and does not stop early |
| Pipeline.SelectedShards | utils_zip/zip_util.py:200 | after the writer runs in a directory without stale shards, the merge selects exactly the files the writer created |
| Pipeline.SortedSelection | utils_zip/zip_util.py:199-202 | sorting the shard files of ascending ranges by parsed start index gives them in range order, from any listing order |
| Pipeline.MergeReadsRangeOrder | utils_zip/zip_util.py:199-202 | after the writer runs, every key parses and the merge reads the shards in range order, whatever order the directory was listed in |
| Pipeline.GatherAllShards | utils_zip/zip_util.py:214-216 | reading every shard in range order gives back all the entry lines, in key order |
| Pipeline.StrictlyKeyed | utils_zip/zip_util.py:199-202 | a list whose keys strictly ascend has no repeats, no shared keys and is sorted by key |
| Pipeline.ShardThenMerge | utils_zip/zip_util.py:158-164 | sharding then merging finishes with every line merged; the combined report lists every key in key order, numbered `1..N`, with its size text; the directory's listing order does not matter |
| Pipeline.SessionReport | utils_zip/zip_util.py:255-270 | for an inspected archive whose entry names are distinct and plain, the report keys are `file_list` itself, and the combined report lists every entry in directory order, numbered `1..N`, with its own size |

## Left out

- HTTP transport (`fetch_bytes`, `requests.head`, status codes, streaming, lines 22-45 and 76-82): this is network I/O. It is reduced to the `head` outcome, the `leading` response to the first range request, and a `fetch` oracle that takes the attempt number and the window, so a retried request may succeed where the earlier one failed. `inspect` raising on a status other than 200 is the `head = None` case.
- `ZipFile` decoding (lines 62 and 95-97): this is a foreign library. It is reduced to an `isArchive` oracle for the locator and a `decode` oracle for the final structure.
- All `print` output and the `tqdm` progress bar: these are cosmetic.
- The `ThreadPoolExecutor` (lines 265-272): the shards are written one after another in range order. The shard files are distinct (`Shards.ShardNamesDiffer`), so any write order gives the same directory.
- Filesystem failures (`open`, `os.remove`, `os.makedirs`) and the cleanup's error message: these are I/O. `Merge.Cleanup` models a cleanup that removes every matching file.
- Reading a file back as lines: a shard file is modelled as the sequence of lines written, without trailing newlines. `strip()` removes the newline in the source anyway. Names holding `\n` or `\r` would be split into several lines on reading, so `Pipeline.PlainName` excludes them.
- The joined path in the sort key (line 201): the key is parsed from the bare file name. This is the same as the source when `output_dir` holds no `_`, as with the default `reports`.
- `int()` on inputs other than a run of ASCII digits: Python also accepts a sign, surrounding whitespace, `_` separators and non-ASCII digits. `Strings.ParseNat` rejects them. None of these can come from a name the writer produces.
- CSV quoting by `csv.writer` (line 226): both formats are rendered as separator-joined lines. `csv.writer` quotes a field that holds the separator, a `"` or a line break, and doubles the `"` inside it; the model renders every field bare. `Merge.RenderFields` requires fields free of the separator, so for CSV its statement matches the written file only for fields without `"`, `\r` or `\n`. `Pipeline.PlainName` already excludes line breaks from entry names.
- Line endings of the combined file (`\n` for text, `\r\n` from `csv.writer`): the combined file is modelled as its list of lines.
- The interactive menu (`display_structure`, `input()`, `exit()`, lines 115-173): this is UI code. Only the combined-report sequence at lines 158-164 is modelled (`Pipeline.GenerateCombineClean`).
- `Merge.SortByKey`: the contract states sorted and permutation, not stability. Ties keep listing order in Python and in the definition, but the merge only needs `Merge.SortedUnique` for the names the writer produces.
- `Merge.Combine`: its contract does not restate the serial numbering. Numbering is stated by `Merge.ParseLinesNumbering` about the same read loop.
- `FolderTree.BuildPlacesEveryEntry`: it is stated only for entry lists where no path is a proper prefix of another. When one is, the build raises exactly as `FolderTree.InsertFailsIffBlocked` says, or a later entry overwrites a folder with a file.
- `Strings.Strip`: its own contract states only that the result is no longer than the input and does not start or end with whitespace. The claim that only the padding is removed is stated by `Strings.StripRemovesPadding`, because as a postcondition of `Strip` it would be instantiated at every use of `Strip` and slow down unrelated proofs.
