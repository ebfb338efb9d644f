# Performance trace query engine: a Dafny model

This project models the query core of the Skyline performance-analyzer data sources.

A *performance log* (a "run") has a name, a start time and optional metadata. It owns a list of *performance data* nodes. Each node records one call: class, method, start time, execution time, metadata, an id and its own sub-method calls. The data sources read lists of runs from JSON files and turn them into tables:

- **Analyzer flattener** (`Flatten`). Picks the runs that match a name and an OLE-automation start time, falling back to every run when nothing matches (`RunSelection`). Each call tree is then flattened in pre-order into rows with class, method, start, end, execution milliseconds, an execution-time label, nesting level and serialized metadata.
- **Captured flattener** (`IdFlatten`). Does the same on every run, but first stamps each visited call with a fresh id and adds an id column.
- **Multi-file query** (`MultiFile`). Loads every file whose last-write time lies strictly inside a time window into a dictionary keyed by file name, where the first add wins. It keeps the runs that start strictly inside the window, flattens them, and keeps the rows for one class and method. The rows are ordered by start time with a stable sort, and any failure produces an empty page.
- **Metadata locator** (`MetadataLocator`). Parses an id and searches the runs in order, each call tree in pre-order. It returns the metadata of the first call with that id whose metadata is non-empty, as key/value rows.
- **Collections listing** (`Collections`). Lists the runs of one file as name, start, metadata JSON and id. A load failure is replaced by the fixed message "Please, select one row so valid data could be shown.".
- **Files listing** (`FileListing`). Lists a folder's files with a human-readable size. Below 1 MiB the size is the ceiling in KB, otherwise the ceiling in MB (`Display.SizeLabel`).
- **Folder default** (`Folders`). A blank folder argument becomes `C:\Skyline_Data\PerformanceLogger`.
- **Execution-time label** (`Display`). Under one second it shows whole milliseconds with " ms". Otherwise it shows seconds rounded to three decimals, with trailing zeros dropped and " s" appended.

`Traversal` is an independent reference definition of the pre-order walk. Each visit carries the node's child-index path. The walk is proved sound, complete, strictly lexicographically ordered and duplicate-free. Every flattener and the locator are proved equal to a function of that walk.

Times are integer ticks of 100 ns. JSON serialization, OA-date text and `Guid.TryParse` are function parameters. `Guid.NewGuid` is a counter. An exception (a `null` `Data` list, an unreadable file) is `None` or an empty page, depending on what the caller does with it.

## Model

| member | source | states |
|---|---|---|
| TraceModel.NewLog | PerformanceAnalyzerGQI/Models/PerformanceLog.cs:25-28 | a fresh run has an empty metadata dictionary and an empty data list, not null ones |
| TraceModel.ShouldSerializeIffNonEmpty | PerformanceAnalyzerGQI/Models/PerformanceLog.cs:33-36 | metadata is serialized exactly when the dictionary has at least one key |
| TraceModel.ShouldSerializeImpliesAny | PerformanceAnalyzerGQI/Models/PerformanceLog.cs:31-36 | serializable metadata makes `Any` true; otherwise `Any` holds exactly when the data list is non-null and non-empty |
| TraceModel.AnyTreatsNullAsEmpty | CapturedMetricsGQI_1/Models/PerformanceLog.cs:28 | `Any` treats a null metadata or data list like an empty one, and is false when both are null |
| TraceModel.AnyIgnoresHeader | PerformanceAnalyzerGQI/Models/PerformanceLog.cs:31 | `Any` depends only on metadata and data, not on id, name or start time |
| TraceModel.NewLogIsEmpty | CapturedMetricsGQI_1/Models/PerformanceLog.cs:22-33 | a run with default lists reports no content and no metadata to serialize |
| TraceModel.CallsWithoutMetadata | PerformanceAnalyzerGQI/Models/PerformanceLog.cs:31-36 | a run with calls but empty metadata has content and still omits its metadata |
| Traversal.VisitsSound | PerformanceAnalyzerGQI/GetPerformanceMetrics.cs:82-98 | every visit's path leads to that visit's node in the call tree |
| Traversal.VisitsComplete | PerformanceAnalyzerGQI/GetPerformanceMetrics.cs:82-98 | every non-null node reachable through the child lists is visited with its own path |
| Traversal.VisitsOrdered | PerformanceAnalyzerGQI/GetPerformanceMetrics.cs:91-97 | visits come in strictly increasing lexicographic path order, which is pre-order with children in list order |
| Traversal.VisitsDistinct | PerformanceAnalyzerGQI/GetPerformanceMetrics.cs:82-98 | no node position is visited twice |
| Traversal.VisitsCount | PerformanceAnalyzerGQI/GetPerformanceMetrics.cs:82-98 | the walk visits exactly as many nodes as the independently counted non-null nodes |
| Traversal.RunsVisitsAppend | PerformanceAnalyzerGQI/GetPerformanceMetrics.cs:60-66 | walking two lists of runs is walking the first and then the second |
| Traversal.FirstNull | PerformanceAnalyzerGQI/GetPerformanceMetrics.cs:60-62 | the index of the first run whose null data list makes the outer loop throw |
| RunSelection.SelectRuns | PerformanceAnalyzerGQI/GetPerformanceMetrics.cs:33-37 | the selection is empty only for an empty collection, draws only from the collection, and holds only matching runs unless it is the fallback |
| RunSelection.SelectionFallback | PerformanceAnalyzerGQI/GetPerformanceMetrics.cs:37 | with no run matching name and OA-date text, every run is selected |
| RunSelection.SelectionExact | PerformanceAnalyzerGQI/GetPerformanceMetrics.cs:33-35 | with some match, exactly the matching runs are kept, in order and with their multiplicities |
| RunSelection.SelectionNeverEmpty | PerformanceAnalyzerGQI/GetPerformanceMetrics.cs:33-37 | a non-empty collection never gives an empty selection |
| Display.ExecutionMillis | PerformanceAnalyzerGQI/GetPerformanceMetrics.cs:125 | the millisecond cell is a 32-bit value and equals the truncated millisecond count whenever that count fits |
| Display.DurationLabelFormsAgree | PerformanceAnalyzerGQI/GetPerformanceMetricsMultiFile.cs:234-239 | the multi-file conditional label equals the label built by the single-file assign-then-override code |
| Display.DurationLabelRoundTrip | CapturedMetricsGQI_1/GetPerformanceMetrics.cs:68-77 | parsing the label gives back the execution time in milliseconds, rounded half to even |
| Display.DurationLabelUnit | PerformanceAnalyzerGQI/GetPerformanceMetrics.cs:71-80 | the label ends in " ms" exactly when the time is under one second, and in " s" otherwise |
| Display.MillisecondLabelBound | PerformanceAnalyzerGQI/GetPerformanceMetrics.cs:74-77 | a sub-second time rounds to at most 1000 milliseconds |
| Display.DurationLabelExamples | PerformanceAnalyzerGQI/GetPerformanceMetrics.cs:71-80 | labels for 0, 999 and 999.6 ms, including the "1000 ms" rounding edge |
| Display.DurationLabelSecondsExamples | PerformanceAnalyzerGQI/GetPerformanceMetrics.cs:71-80 | labels for 1000, 1500 and 1234.5 ms: "1 s", "1.5 s", "1.234 s" |
| Display.SizeLabelBrackets | CapturedMetricsGQI_1/GetPerformanceMetricsFiles.cs:78-90 | the size text names KB exactly below 1 MiB and MB otherwise, and its figure is the least whole unit count covering the bytes |
| Display.SizeFigureBounds | CapturedMetricsGQI_1/GetPerformanceMetricsFiles.cs:80-88 | a KB figure never exceeds 1024 and an MB figure is at least 1 |
| Display.SizeLabelExamples | CapturedMetricsGQI_1/GetPerformanceMetricsFiles.cs:78-90 | sizes 0, 1, 1 MiB - 1, 1 MiB and 1 MiB + 1 give "0 KB", "1 KB", "1024 KB", "1 MB", "2 MB" |
| Numerals.NatToStringRoundTrip | CapturedMetricsGQI_1/GetPerformanceMetricsFiles.cs:83 | the decimal text of a whole number reads back as that number |
| Numerals.RoundHalfEvenUnique | PerformanceAnalyzerGQI/GetPerformanceMetrics.cs:73-76 | the rounding used by `Math.Round` is the unique nearest integer, with ties going to the even one |
| Numerals.CeilDiv | CapturedMetricsGQI_1/GetPerformanceMetricsFiles.cs:82-83 | the result is the least whole number of units covering the amount |
| Flatten.ProcessChildrenIsWalk | PerformanceAnalyzerGQI/GetPerformanceMetrics.cs:91-97 | flattening children from position i yields the rows of the reference walk over those children |
| Flatten.ProcessSubMethodsIsWalk | PerformanceAnalyzerGQI/GetPerformanceMetrics.cs:82-98 | flattening one possibly-null call yields the reference walk's rows for it; a null call yields none |
| Flatten.ProcessRoots | PerformanceAnalyzerGQI/GetPerformanceMetrics.cs:62-65 | flattening a run's root list yields the reference walk's rows at level 0 |
| Flatten.GetNextPage | PerformanceAnalyzerGQI/GetPerformanceMetrics.cs:56-69 | the page fails exactly when a selected run has a null data list; otherwise it holds the rows of every selected run in order |
| Flatten.MetadataCellEmptyIff | PerformanceAnalyzerGQI/GetPerformanceMetrics.cs:134 | the metadata cell is empty exactly when the call's metadata is empty, given a serializer that never yields "" |
| Flatten.CreateRowCells | PerformanceAnalyzerGQI/GetPerformanceMetrics.cs:100-137 | class and method copied, end = start + execution time, level as given, milliseconds truncated, label reads back as rounded ms, metadata cell empty iff no metadata |
| Flatten.FlattenIsPreOrder | PerformanceAnalyzerGQI/GetPerformanceMetrics.cs:82-98 | each row is the call at a real path with level = path length - 1, rows are in pre-order, and every reachable call has its row |
| Flatten.RowCount | PerformanceAnalyzerGQI/GetPerformanceMetrics.cs:84-87 | one row per non-null call; a null call gives no rows |
| IdFlatten.AssignChildren | CapturedMetricsGQI_1/GetPerformanceMetrics.cs:79-96 | stamping keeps the child list's length and consumes exactly one fresh id per emitted row |
| IdFlatten.AssignIds | CapturedMetricsGQI_1/GetPerformanceMetrics.cs:86-88 | row k carries the k-th id handed out after the counter, so the ids are consecutive and pairwise distinct |
| IdFlatten.AssignRows | CapturedMetricsGQI_1/GetPerformanceMetrics.cs:86-87 | apart from the id column, the rows are exactly those of the analyzer flattener |
| IdFlatten.AssignOnlyIds | CapturedMetricsGQI_1/GetPerformanceMetrics.cs:86 | the stamped tree equals the original once ids are erased |
| IdFlatten.AssignIdsInPreOrder | CapturedMetricsGQI_1/GetPerformanceMetrics.cs:86-93 | the stamped tree's ids in walk order are the id column, and its metadata is unchanged |
| IdFlatten.GetNextPage | CapturedMetricsGQI_1/GetPerformanceMetrics.cs:53-66 | fails exactly on a null data list; otherwise only ids change, rows match the analyzer's, ids are consecutive and fresh, and each row's id is stored on its call |
| IdFlatten.ProcessChildrenIgnoresIds | CapturedMetricsGQI_1/GetPerformanceMetrics.cs:79-96 | child lists that agree once identifiers are erased flatten to the same rows, because a row reads no identifier |
| IdFlatten.RunsRowsIgnoreIds | CapturedMetricsGQI_1/GetPerformanceMetrics.cs:53-66 | runs that differ only in identifiers fail alike and flatten to the same rows |
| IdFlatten.QueryTwice | CapturedMetricsGQI_1/GetPerformanceMetrics.cs:53-96 | querying again on the stamped runs fails alike and gives the same rows except the id column, whose fresh ids continue the counter and differ from the first page's |
| IdFlatten.RowIdLocatesItsCall | CapturedMetricsGQI_1/GetPerformanceMetrics.cs:134-137 | looking up a row's id in the stamped runs finds that row's call metadata |
| MetadataLocator.FirstHitIndex | PerformanceAnalyzerGQI/GetPerformanceMetadataMetrics.cs:89-111 | the position of the first visited call whose id matches and whose metadata is non-empty |
| MetadataLocator.FirstHitAppend | PerformanceAnalyzerGQI/GetPerformanceMetadataMetrics.cs:100-108 | a search over two parts returns the first part's hit if it has one, else the second's |
| MetadataLocator.CheckForCorrectMetadata | PerformanceAnalyzerGQI/GetPerformanceMetadataMetrics.cs:113-117 | yields the call's metadata when the parsed id equals the call's id and the metadata is non-empty, and an empty dictionary otherwise |
| MetadataLocator.SearchChildrenIsWalk | PerformanceAnalyzerGQI/GetPerformanceMetadataMetrics.cs:100-108 | searching children from position i returns the first hit of the reference walk over them |
| MetadataLocator.GetMetadataNeededIsWalk | PerformanceAnalyzerGQI/GetPerformanceMetadataMetrics.cs:89-111 | searching one possibly-null call returns the first hit of the walk over it, or an empty dictionary |
| MetadataLocator.SearchRoots | PerformanceAnalyzerGQI/GetPerformanceMetadataMetrics.cs:48-53 | the inner loop stops at the first root that yields metadata, returning the first hit of the walk over all roots |
| MetadataLocator.FindMetadata | PerformanceAnalyzerGQI/GetPerformanceMetadataMetrics.cs:44-58 | the two loops return the first hit over all runs, and fail at a null data list only if no earlier run had a hit |
| MetadataLocator.GenerateRows | PerformanceAnalyzerGQI/GetPerformanceMetadataMetrics.cs:71-87 | one key/value row per dictionary entry, each entry exactly once |
| MetadataLocator.GetNextPage | PerformanceAnalyzerGQI/GetPerformanceMetadataMetrics.cs:42-69 | fails exactly when the search fails; otherwise one row per entry of the located metadata, or an empty page |
| MetadataLocator.NullCallYieldsNothing | PerformanceAnalyzerGQI/GetPerformanceMetadataMetrics.cs:91-94 | a null call yields an empty dictionary |
| MetadataLocator.LocatedIsFirstMatch | PerformanceAnalyzerGQI/GetPerformanceMetadataMetrics.cs:42-111 | without null data lists the search succeeds; a non-empty result is the first matching call's metadata, and an empty one means no call matches |
| MetadataLocator.UnparseableIdFindsNothing | PerformanceAnalyzerGQI/GetPerformanceMetadataMetrics.cs:115 | an id that does not parse finds nothing, so the page is empty unless a null data list throws |
| MetadataLocator.EmptyMatchContinues | PerformanceAnalyzerGQI/GetPerformanceMetadataMetrics.cs:96-98 | a call with the right id but empty metadata does not stop the search |
| MetadataLocator.ShortCircuit | PerformanceAnalyzerGQI/GetPerformanceMetadataMetrics.cs:51-56 | once a hit is found, later runs, even ones with null data lists, do not matter |
| MetadataLocator.FirstOfTwoWins | PerformanceAnalyzerGQI/GetPerformanceMetadataMetrics.cs:104-106 | with two matching calls, the one earlier in walk order wins |
| MultiFile.TryAdd | PerformanceAnalyzerGQI/GetPerformanceMetricsMultiFile.cs:141 | adding keeps keys distinct; an existing key leaves the dictionary unchanged, a new one is appended |
| MultiFile.FirstWithName | PerformanceAnalyzerGQI/GetPerformanceMetricsMultiFile.cs:133-141 | the first in-window file with a given name |
| MultiFile.LoadIntoFails | PerformanceAnalyzerGQI/GetPerformanceMetricsMultiFile.cs:133-144 | loading fails exactly when some in-window file is malformed |
| MultiFile.LoadIntoEntries | PerformanceAnalyzerGQI/GetPerformanceMetricsMultiFile.cs:133-144 | loading extends the dictionary, each new key holding the runs of the first in-window file with that name, and every in-window file's name is a key |
| MultiFile.LoadFilesFirstWins | PerformanceAnalyzerGQI/GetPerformanceMetricsMultiFile.cs:128-145 | strict window on last-write time; fails iff an in-window file is malformed; each name maps to its first in-window file |
| MultiFile.ProcessFileChildrenIsWalk | PerformanceAnalyzerGQI/GetPerformanceMetricsMultiFile.cs:170-176 | flattening children yields the reference walk's file rows |
| MultiFile.ProcessFileRoots | PerformanceAnalyzerGQI/GetPerformanceMetricsMultiFile.cs:153-156 | a root list flattens to the reference walk's file rows at level 0 |
| MultiFile.ProcessEntry | PerformanceAnalyzerGQI/GetPerformanceMetricsMultiFile.cs:151-156 | only runs starting strictly inside the window are flattened; fails exactly on a null data list among them |
| MultiFile.CreateFileMetricRows | PerformanceAnalyzerGQI/GetPerformanceMetricsMultiFile.cs:147-159 | rows of every dictionary entry in order; fails exactly when some entry's selected runs include a null data list |
| MultiFile.GqiRowMatchesSingleFile | PerformanceAnalyzerGQI/GetPerformanceMetricsMultiFile.cs:179-232 | a file row's cells equal the single-file flattener's row for the same call, plus the file name, and its conditional execution-time text equals the single-file label |
| MultiFile.AllRowsFileNames | PerformanceAnalyzerGQI/GetPerformanceMetricsMultiFile.cs:147-159 | every row names a key of the dictionary |
| MultiFile.SelectAndOrder | PerformanceAnalyzerGQI/GetPerformanceMetricsMultiFile.cs:110 | the ordered rows are a stable ascending sort by start time of exactly the rows matching class and method |
| MultiFile.NoMatchNoRows | PerformanceAnalyzerGQI/GetPerformanceMetricsMultiFile.cs:110 | no row matching the filter means no result, with no fallback |
| MultiFile.LoadedRowsNameFiles | PerformanceAnalyzerGQI/GetPerformanceMetricsMultiFile.cs:128-159 | every row's file name is that of an in-window file |
| MultiFile.GetNextPage | PerformanceAnalyzerGQI/GetPerformanceMetricsMultiFile.cs:91-126 | any load or processing failure gives an empty page; otherwise the page is the stable start-time sort of the matching rows, each naming an in-window file |
| StableSort.SortByIsStable | PerformanceAnalyzerGQI/GetPerformanceMetricsMultiFile.cs:110 | the sort orders by key, permutes its input, and keeps equal-key elements in input order |
| Seqs.FilterContents | PerformanceAnalyzerGQI/GetPerformanceMetricsMultiFile.cs:110 | filtering keeps exactly the elements that satisfy the predicate, with their multiplicities |
| Folders.FolderOrDefault | CapturedMetricsGQI_1/GetPerformanceMetrics.cs:28 | the chosen folder is never blank, and is either the default or the argument itself |
| Folders.FolderChoice | CapturedMetricsGQI_1/GetPerformanceMetricsFiles.cs:23 | the default is used exactly for a null or white-space argument (or the default itself), and choosing twice changes nothing |
| Folders.FolderExamples | CapturedMetricsGQI_1/GetPerformanceMetricsFiles.cs:23 | null, empty and white-space arguments give `C:\Skyline_Data\PerformanceLogger`; others are kept |
| FileListing.GetNextPage | CapturedMetricsGQI_1/GetPerformanceMetricsFiles.cs:47-76 | one row per file in order, with name and times copied and the size text of `SizeLabel`, which names the unit and rounded-up figure of the byte count |
| FileListing.SizeTextDeterminesBucket | CapturedMetricsGQI_1/GetPerformanceMetricsFiles.cs:78-90 | equal size texts mean the same unit and the same rounded-up figure |
| Collections.LoadCollections | PerformanceAnalyzerGQI/GetPerformanceMetricsCollections.cs:23-39 | a successful read is kept; any failure becomes the fixed "Please, select one row…" message |
| Collections.LoadErrorHidesCause | PerformanceAnalyzerGQI/GetPerformanceMetricsCollections.cs:35-38 | two different failures report the same message |
| Collections.GetNextPage | PerformanceAnalyzerGQI/GetPerformanceMetricsCollections.cs:52-83 | one row per run in order, with name, start time, serialized metadata and id |
| Collections.RunMetadataUnconditional | PerformanceAnalyzerGQI/GetPerformanceMetricsCollections.cs:70-73 | the run metadata cell is always serialized and never blank: an empty dictionary is serialized too, and a null one gives "null" |
| Collections.RowIgnoresCalls | PerformanceAnalyzerGQI/GetPerformanceMetricsCollections.cs:56-79 | a run's row depends only on its header, never on its calls |

## Left out

- Host plumbing: argument declarations, column definitions, the `GQIPage`/`GQIRow` wrappers and `HasNextPage`. Rows are datatypes with the same cells.
- File and directory I/O (`File.ReadAllText`, `DirectoryInfo.GetFiles`, `StreamReader`, `Directory` lookups) and the path, search-pattern and recursion arguments. Every listing or file content is a parameter. A read or parse failure is a `Failure`/`Malformed` value.
- JSON (de)serialization is an uninterpreted function parameter. Only the facts the code relies on are assumed: a null value serializes as "null", and the serializer is non-blank where a lemma says so.
- Loggers and stopwatches; they do not affect results.
- `Parallel.ForEach` in the multi-file load runs concurrently. It is modelled as a sequential fold in listing order, so for duplicate file names the earliest listed file wins. With real threads any of them may win, and several exceptions would be aggregated. Either way a single failure gives an empty page.
- `ConcurrentDictionary` enumeration order is unspecified. It is modelled as insertion order, and the final page does not depend on it beyond the stability of ties in the start-time sort.
- DateTime display formats (`dd/MM/yyyy HH:mm:ss.fff`, `MM/dd/yyyy hh:mm:ss tt`), time zones and `ToUniversalTime`. Times are ticks and the collections start-time cell keeps the stored value.
- `DateTime` overflow when adding the execution time to the start time. Negative `TimeSpan` values are excluded because the execution time is a natural number.
- Floating point: `TotalSeconds`, `Math.Round` and `Math.Ceiling` are computed exactly on ticks and bytes. Double representation artefacts, and exponent notation for very large sizes, are not modelled.
- Display.DurationLabel: the current culture's decimal separator is taken to be '.', the invariant culture's. `double.ToString()` prints the current culture's separator, so under a comma-decimal culture the program shows "1,5 s" where the model shows "1.5 s". Whole-number labels do not depend on the culture.
- Display.ExecutionMillis: the `(int)` cast of a millisecond count beyond 32 bits is unspecified in C#. It is modelled as the x64 result `int.MinValue`, and the contract only promises the exact value when it fits.
- The `PerformanceData` class is not part of this model. Its `ShouldSerializeMetadata` is taken to be `Metadata.Count > 0`, like the run's, and node metadata and names are never null.
- `Guid` text formatting and the randomness of `Guid.NewGuid`. A counter stands for NewGuid, which captures "fresh and distinct within one page", not global uniqueness.
- The row order of the metadata page: the code enumerates a `Dictionary`, whose order .NET does not specify, so the model only promises one row per entry, each key once.
- `Guid.TryParse` is a parameter. The locator is proved for any parser.
- A null list of runs (a JSON file containing `null`, or a static collection never loaded), a null element inside a list of runs (`[null, …]`, on which `x.Name` or `run.Data` would throw) and null run names are not modelled: a run list is a sequence of runs. A null `Data` list inside a run is modelled.
- The directory-listing helpers of the separate file-listing script are context only, not part of this core.
- A cumulative byte budget for multi-file loading does not exist in the code, so it is not modelled.
- The code uses strict comparisons for both time windows (file last-write time and run start time), and the model follows them.
- The code aborts the whole multi-file page (empty result) when one file fails to parse, rather than skipping that file. The model follows the code.
- An unparseable id in the metadata lookup gives an empty page rather than an error, as in the code.
