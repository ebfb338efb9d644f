/** The multi-file query: every trace file whose last write falls strictly
    inside the time window is loaded (first file of a name wins), the runs
    that started strictly inside the window are flattened with the file's
    name, and the rows of one class and method are returned ordered by
    start time. Any failure yields an empty page. */
module MultiFile {
  import opened Wrappers
  import opened TraceModel
  import opened Traversal
  import opened Display
  import opened Flatten
  import opened Seqs
  import opened StableSort

  /** What deserialising one file yields: malformed text (an exception), the
      JSON literal `null`, or a run list */
  datatype Parsed = Malformed | NullList | Runs(runs: seq<PerformanceLog>)

  /** A file of the directory listing: its name, last write time and content */
  datatype FileEntry = FileEntry(name: string, lastWrite: Ticks, content: Parsed)

  /** An entry of the by-file dictionary: a file name and its run list,
      `None` for a file holding `null` */
  datatype Loaded = Loaded(name: string, runs: Option<seq<PerformanceLog>>)

  /** Both window tests of the source are strict */
  predicate InWindow(t: Ticks, lo: Ticks, hi: Ticks) {
    lo < t && t < hi
  }

  function Content(p: Parsed): Option<seq<PerformanceLog>>
    requires !p.Malformed?
  {
    if p.NullList? then None else Some(p.runs)
  }

  /** The names present in a dictionary */
  function Keys(dict: seq<Loaded>): set<string> {
    set e | e in dict :: e.name
  }

  predicate DistinctKeys(dict: seq<Loaded>) {
    forall i, j :: 0 <= i < j < |dict| ==> dict[i].name != dict[j].name
  }

  /** `ConcurrentDictionary.TryAdd`: a name already present keeps its value;
      a new name is added. Enumeration is taken in insertion order. */
  function TryAdd(dict: seq<Loaded>, name: string, runs: Option<seq<PerformanceLog>>): (r: seq<Loaded>)
    requires DistinctKeys(dict)
    ensures DistinctKeys(r)
    ensures Keys(r) == Keys(dict) + {name}
    ensures name in Keys(dict) ==> r == dict
    ensures name !in Keys(dict) ==> r == dict + [Loaded(name, runs)]
  {
    if name in Keys(dict) then dict
    else
      var r := dict + [Loaded(name, runs)];
      assert forall i :: 0 <= i < |dict| ==> dict[i] in dict;
      assert Keys(r) == Keys(dict) + {name} by {
        assert forall e :: e in r <==> e in dict || e == Loaded(name, runs);
      }
      r
  }

  /** The `Parallel.ForEach` of `LoadFiles`, taken sequentially in listing
      order: in-window files are deserialised and added; a malformed one
      raises, which ends the whole query */
  function LoadInto(dict: seq<Loaded>, files: seq<FileEntry>, lo: Ticks, hi: Ticks): Option<seq<Loaded>>
    requires DistinctKeys(dict)
    decreases |files|
  {
    if |files| == 0 then Some(dict)
    else
      var f := files[0];
      if !InWindow(f.lastWrite, lo, hi) then LoadInto(dict, files[1..], lo, hi)
      else if f.content.Malformed? then None
      else LoadInto(TryAdd(dict, f.name, Content(f.content)), files[1..], lo, hi)
  }

  function LoadFiles(files: seq<FileEntry>, lo: Ticks, hi: Ticks): Option<seq<Loaded>> {
    LoadInto([], files, lo, hi)
  }

  /** Position of the first in-window file of a name, `|files|` when none */
  function FirstWithName(files: seq<FileEntry>, name: string, lo: Ticks, hi: Ticks): (i: nat)
    ensures i <= |files|
    ensures i < |files| ==> files[i].name == name && InWindow(files[i].lastWrite, lo, hi)
    ensures forall j :: 0 <= j < i ==> !(files[j].name == name && InWindow(files[j].lastWrite, lo, hi))
  {
    if |files| == 0 then 0
    else if files[0].name == name && InWindow(files[0].lastWrite, lo, hi) then 0
    else 1 + FirstWithName(files[1..], name, lo, hi)
  }

  predicate SomeMalformed(files: seq<FileEntry>, lo: Ticks, hi: Ticks) {
    exists i :: 0 <= i < |files| && InWindow(files[i].lastWrite, lo, hi) && files[i].content.Malformed?
  }

  /** Loading fails exactly when some in-window file is malformed */
  lemma {:induction false} LoadIntoFails(dict: seq<Loaded>, files: seq<FileEntry>, lo: Ticks, hi: Ticks)
    requires DistinctKeys(dict)
    ensures LoadInto(dict, files, lo, hi).None? <==> SomeMalformed(files, lo, hi)
    decreases |files|
  {
    if |files| > 0 {
      var f := files[0];
      var d' := if !InWindow(f.lastWrite, lo, hi) || f.content.Malformed? then dict else TryAdd(dict, f.name, Content(f.content));
      LoadIntoFails(d', files[1..], lo, hi);
      if SomeMalformed(files[1..], lo, hi) {
        var i :| 0 <= i < |files[1..]| && InWindow(files[1..][i].lastWrite, lo, hi) && files[1..][i].content.Malformed?;
        assert files[i + 1] == files[1..][i];
      }
      if SomeMalformed(files, lo, hi) && !(InWindow(f.lastWrite, lo, hi) && f.content.Malformed?) {
        var i :| 0 <= i < |files| && InWindow(files[i].lastWrite, lo, hi) && files[i].content.Malformed?;
        assert files[1..][i - 1] == files[i];
      }
    }
  }

  /** An entry holds the content of the first in-window file of its name */
  predicate FromFirstFile(e: Loaded, files: seq<FileEntry>, lo: Ticks, hi: Ticks) {
    var i := FirstWithName(files, e.name, lo, hi);
    i < |files| && !files[i].content.Malformed? && e.runs == Content(files[i].content)
  }

  lemma FromFirstFileShift(e: Loaded, files: seq<FileEntry>, lo: Ticks, hi: Ticks)
    requires |files| > 0 && !(files[0].name == e.name && InWindow(files[0].lastWrite, lo, hi))
    requires FromFirstFile(e, files[1..], lo, hi)
    ensures FromFirstFile(e, files, lo, hi)
  {
    assert FirstWithName(files, e.name, lo, hi) == 1 + FirstWithName(files[1..], e.name, lo, hi);
  }

  lemma KeysOfPrefix(d: seq<Loaded>, r: seq<Loaded>)
    requires |d| <= |r| && r[..|d|] == d
    ensures Keys(d) <= Keys(r)
  {
    forall e | e in d ensures e in r {
      var j :| 0 <= j < |d| && d[j] == e;
      assert r[..|d|][j] == e;
    }
  }

  /** What the fold adds to a dictionary: the old entries first, then one
      entry per new name, holding the content of that name's first
      in-window file; every in-window name ends up present */
  lemma {:induction false} LoadIntoEntries(dict: seq<Loaded>, files: seq<FileEntry>, lo: Ticks, hi: Ticks)
    requires DistinctKeys(dict)
    requires LoadInto(dict, files, lo, hi).Some?
    ensures var r := LoadInto(dict, files, lo, hi).value;
            && DistinctKeys(r)
            && |dict| <= |r| && r[..|dict|] == dict
            && (forall k :: |dict| <= k < |r| ==> r[k].name !in Keys(dict) && FromFirstFile(r[k], files, lo, hi))
            && (forall i :: 0 <= i < |files| && InWindow(files[i].lastWrite, lo, hi) ==> files[i].name in Keys(r))
    decreases |files|
  {
    var r := LoadInto(dict, files, lo, hi).value;
    if |files| == 0 {
      assert r == dict;
    } else {
      var f := files[0];
      var rest := files[1..];
      var d' := if !InWindow(f.lastWrite, lo, hi) then dict else TryAdd(dict, f.name, Content(f.content));
      assert LoadInto(dict, files, lo, hi) == LoadInto(d', rest, lo, hi);
      LoadIntoEntries(d', rest, lo, hi);
      assert |dict| <= |d'| && d'[..|dict|] == dict;
      assert r[..|dict|] == dict by {
        assert r[..|dict|] == r[..|d'|][..|dict|];
      }
      KeysOfPrefix(d', r);
      forall k | |dict| <= k < |r|
        ensures r[k].name !in Keys(dict) && FromFirstFile(r[k], files, lo, hi)
      {
        if k < |d'| {
          assert k == |dict| && InWindow(f.lastWrite, lo, hi) && f.name !in Keys(dict);
          assert r[k] == d'[k] == Loaded(f.name, Content(f.content));
          assert FirstWithName(files, f.name, lo, hi) == 0;
        } else {
          var name := r[k].name;
          assert name !in Keys(d');
          assert f.name != name || !InWindow(f.lastWrite, lo, hi) by {
            if InWindow(f.lastWrite, lo, hi) {
              assert f.name in Keys(d');
            }
          }
          FromFirstFileShift(r[k], files, lo, hi);
        }
      }
      forall i | 0 <= i < |files| && InWindow(files[i].lastWrite, lo, hi)
        ensures files[i].name in Keys(r)
      {
        if i == 0 {
          assert f.name in Keys(d');
        } else {
          assert files[i] == rest[i - 1];
        }
      }
    }
  }

  /** `LoadFiles`, characterised: `None` exactly when an in-window file is
      malformed; otherwise one entry per distinct in-window file name,
      holding the content of the first in-window file of that name */
  lemma LoadFilesFirstWins(files: seq<FileEntry>, lo: Ticks, hi: Ticks)
    ensures LoadFiles(files, lo, hi).None? <==> SomeMalformed(files, lo, hi)
    ensures LoadFiles(files, lo, hi).Some? ==>
              var r := LoadFiles(files, lo, hi).value;
              && DistinctKeys(r)
              && (forall k :: 0 <= k < |r| ==>
                    && FirstWithName(files, r[k].name, lo, hi) < |files|
                    && r[k].runs == Content(files[FirstWithName(files, r[k].name, lo, hi)].content))
              && (forall i :: 0 <= i < |files| && InWindow(files[i].lastWrite, lo, hi) ==> files[i].name in Keys(r))
  {
    LoadIntoFails([], files, lo, hi);
    if LoadFiles(files, lo, hi).Some? {
      LoadIntoEntries([], files, lo, hi);
    }
  }

  /** `FileMetricRow`: a call's fields tagged with its file name; the
      duration is kept and only turned into cells later */
  datatype FileMetricRow = FileMetricRow(
    fileName: string,
    className: string,
    methodName: string,
    startTime: Ticks,
    endTime: Ticks,
    executionTime: nat,
    level: nat,
    metadata: string)

  /** `CreateFileMetricRow` */
  function CreateFileMetricRow(d: PerformanceData, level: nat, fileName: string, serialize: Serializer): FileMetricRow {
    FileMetricRow(fileName, d.className, d.methodName, d.startTime, d.startTime + d.executionTime,
                  d.executionTime, level, MetadataCell(d.metadata, serialize))
  }

  /** The rows a sequence of visits yields in one file, the visited list at
      depth `base` */
  function FileRowsAt(vs: seq<Visit>, base: nat, fileName: string, serialize: Serializer): (rows: seq<FileMetricRow>)
    ensures |rows| == |vs|
    ensures forall k :: 0 <= k < |vs| ==> rows[k] == CreateFileMetricRow(vs[k].node, base + Depth(vs[k]), fileName, serialize)
  {
    seq(|vs|, k requires 0 <= k < |vs| => CreateFileMetricRow(vs[k].node, base + Depth(vs[k]), fileName, serialize))
  }

  lemma FileRowsAtAppend(a: seq<Visit>, b: seq<Visit>, base: nat, fileName: string, serialize: Serializer)
    ensures FileRowsAt(a + b, base, fileName, serialize) == FileRowsAt(a, base, fileName, serialize) + FileRowsAt(b, base, fileName, serialize)
  {
  }

  lemma FileRowsAtUnder(i: nat, vs: seq<Visit>, base: nat, fileName: string, serialize: Serializer)
    requires forall k :: 0 <= k < |vs| ==> |vs[k].path| >= 1
    ensures FileRowsAt(Under(i, vs), base, fileName, serialize) == FileRowsAt(vs, base + 1, fileName, serialize)
  {
  }

  /** The loop of the multi-file `ProcessSubMethods` over
      `parent.SubMethods[from..]`: pre-order, each row tagged with the file */
  function ProcessFileChildren(parent: PerformanceData, from: nat, level: nat, fileName: string, serialize: Serializer): seq<FileMetricRow>
    requires from <= |parent.subMethods|
    decreases parent, |parent.subMethods| - from
  {
    if from == |parent.subMethods| then []
    else
      var rest := ProcessFileChildren(parent, from + 1, level, fileName, serialize);
      match parent.subMethods[from]
      case None => rest
      case Some(d) =>
        [CreateFileMetricRow(d, level, fileName, serialize)] + ProcessFileChildren(d, 0, level + 1, fileName, serialize) + rest
  }

  /** Flattening children from position `from` emits the rows of the
      reference walk over those children, each tagged with the file */
  lemma {:induction false} ProcessFileChildrenIsWalk(parent: PerformanceData, from: nat, level: nat, fileName: string, serialize: Serializer)
    requires from <= |parent.subMethods|
    ensures ProcessFileChildren(parent, from, level, fileName, serialize) == FileRowsAt(ChildVisits(parent, from), level, fileName, serialize)
    decreases parent, |parent.subMethods| - from
  {
    if from < |parent.subMethods| {
      ProcessFileChildrenIsWalk(parent, from + 1, level, fileName, serialize);
      match parent.subMethods[from]
      case None =>
        assert ChildVisits(parent, from) == ChildVisits(parent, from + 1);
      case Some(d) =>
        ProcessFileChildrenIsWalk(d, 0, level + 1, fileName, serialize);
        var sub := ChildVisits(d, 0);
        var head := [Visit(d, [from])];
        assert ChildVisits(parent, from) == head + Under(from, sub) + ChildVisits(parent, from + 1);
        ChildVisitsPaths(d, 0);
        FileRowsAtUnder(from, sub, level, fileName, serialize);
        assert FileRowsAt(head, level, fileName, serialize) == [CreateFileMetricRow(d, level, fileName, serialize)];
        FileRowsAtAppend(head, Under(from, sub), level, fileName, serialize);
        FileRowsAtAppend(head + Under(from, sub), ChildVisits(parent, from + 1), level, fileName, serialize);
    }
  }

  /** The multi-file `ProcessSubMethods(data, rows, level, fileName)`:
      nothing for a null call, otherwise its row and its subtree's rows */
  function ProcessFileSubMethods(data: Option<PerformanceData>, level: nat, fileName: string, serialize: Serializer): seq<FileMetricRow> {
    match data
    case None => []
    case Some(d) => [CreateFileMetricRow(d, level, fileName, serialize)] + ProcessFileChildren(d, 0, level + 1, fileName, serialize)
  }

  lemma ProcessFileChildrenStep(parent: PerformanceData, j: nat, level: nat, fileName: string, serialize: Serializer)
    requires j < |parent.subMethods|
    ensures ProcessFileChildren(parent, j, level, fileName, serialize)
            == ProcessFileSubMethods(parent.subMethods[j], level, fileName, serialize) + ProcessFileChildren(parent, j + 1, level, fileName, serialize)
  {
  }

  /** The runs of a file that the window keeps: started strictly inside it */
  function WindowRuns(runs: seq<PerformanceLog>, lo: Ticks, hi: Ticks): seq<PerformanceLog> {
    Filter(runs, (r: PerformanceLog) => InWindow(r.startTime, lo, hi))
  }

  /** Reference result of one dictionary entry: the pre-order rows of its
      in-window runs, tagged with its name */
  function EntryRows(e: Loaded, lo: Ticks, hi: Ticks, serialize: Serializer): seq<FileMetricRow> {
    FileRowsAt(RunsVisits(WindowRuns(e.runs.GetOr([]), lo, hi)), 0, e.name, serialize)
  }

  /** Reference result of the whole dictionary, entry after entry */
  function AllRows(dict: seq<Loaded>, lo: Ticks, hi: Ticks, serialize: Serializer): seq<FileMetricRow> {
    if |dict| == 0 then [] else EntryRows(dict[0], lo, hi, serialize) + AllRows(dict[1..], lo, hi, serialize)
  }

  /** `CreateFileMetricRows` throws when an entry holds `null` or an
      in-window run has a null `Data` */
  predicate CreateFails(dict: seq<Loaded>, lo: Ticks, hi: Ticks) {
    exists i :: 0 <= i < |dict| && (dict[i].runs.None? || SomeDataNull(WindowRuns(dict[i].runs.value, lo, hi)))
  }

  lemma AllRowsStep(dict: seq<Loaded>, i: nat, lo: Ticks, hi: Ticks, serialize: Serializer)
    requires i < |dict|
    ensures AllRows(dict[i..], lo, hi, serialize) == EntryRows(dict[i], lo, hi, serialize) + AllRows(dict[i + 1..], lo, hi, serialize)
  {
    assert dict[i..][1..] == dict[i + 1..];
  }

  /** The innermost `foreach` over one run's root calls */
  method ProcessFileRoots(roots: seq<Option<PerformanceData>>, fileName: string, serialize: Serializer) returns (rows: seq<FileMetricRow>)
    ensures rows == FileRowsAt(Visits(roots), 0, fileName, serialize)
  {
    var holder := Holder(roots);
    rows := [];
    var j := 0;
    while j < |roots|
      invariant 0 <= j <= |roots|
      invariant rows + ProcessFileChildren(holder, j, 0, fileName, serialize) == ProcessFileChildren(holder, 0, 0, fileName, serialize)
    {
      var next := ProcessFileSubMethods(roots[j], 0, fileName, serialize);
      ProcessFileChildrenStep(holder, j, 0, fileName, serialize);
      Associate(rows, next, ProcessFileChildren(holder, j + 1, 0, fileName, serialize));
      rows := rows + next;
      j := j + 1;
    }
    assert ProcessFileChildren(holder, j, 0, fileName, serialize) == [];
    assert rows + [] == rows;
    ProcessFileChildrenIsWalk(holder, 0, 0, fileName, serialize);
  }

  /** The in-window runs of one file, flattened; `None` when one of them
      has a null `Data` */
  method ProcessEntry(runs: seq<PerformanceLog>, fileName: string, lo: Ticks, hi: Ticks, serialize: Serializer) returns (rows: Option<seq<FileMetricRow>>)
    ensures rows.None? <==> SomeDataNull(WindowRuns(runs, lo, hi))
    ensures rows.Some? ==> rows.value == FileRowsAt(RunsVisits(WindowRuns(runs, lo, hi)), 0, fileName, serialize)
  {
    var window := WindowRuns(runs, lo, hi);
    var acc: seq<FileMetricRow> := [];
    ghost var total := FileRowsAt(RunsVisits(window), 0, fileName, serialize);
    var i := 0;
    while i < |window|
      invariant 0 <= i <= |window|
      invariant forall k :: 0 <= k < i ==> window[k].data.Some?
      invariant acc + FileRowsAt(RunsVisits(window[i..]), 0, fileName, serialize) == total
    {
      if window[i].data.None? {
        return None;
      }
      var next := ProcessFileRoots(window[i].data.value, fileName, serialize);
      EntryStep(window, i, acc, next, fileName, serialize);
      acc := acc + next;
      i := i + 1;
    }
    assert window[i..] == [];
    assert FileRowsAt(RunsVisits([]), 0, fileName, serialize) == [];
    assert acc + [] == acc;
    return Some(acc);
  }

  /** One run of `ProcessEntry`'s loop: its rows continue the accumulated prefix */
  lemma EntryStep(window: seq<PerformanceLog>, i: nat, acc: seq<FileMetricRow>, next: seq<FileMetricRow>, fileName: string, serialize: Serializer)
    requires i < |window| && window[i].data.Some?
    requires next == FileRowsAt(Visits(window[i].data.value), 0, fileName, serialize)
    ensures acc + FileRowsAt(RunsVisits(window[i..]), 0, fileName, serialize)
            == (acc + next) + FileRowsAt(RunsVisits(window[i + 1..]), 0, fileName, serialize)
  {
    RunsVisitsStep(window, i);
    FileRowsAtAppend(Visits(window[i].data.value), RunsVisits(window[i + 1..]), 0, fileName, serialize);
  }

  /** `CreateFileMetricRows`: every dictionary entry in enumeration order;
      `None` stands for the exception of a null entry or a null `Data` */
  method CreateFileMetricRows(dict: seq<Loaded>, lo: Ticks, hi: Ticks, serialize: Serializer) returns (rows: Option<seq<FileMetricRow>>)
    ensures rows.None? <==> CreateFails(dict, lo, hi)
    ensures rows.Some? ==> rows.value == AllRows(dict, lo, hi, serialize)
  {
    var acc: seq<FileMetricRow> := [];
    ghost var total := AllRows(dict, lo, hi, serialize);
    var i := 0;
    while i < |dict|
      invariant 0 <= i <= |dict|
      invariant forall k :: 0 <= k < i ==> dict[k].runs.Some? && !SomeDataNull(WindowRuns(dict[k].runs.value, lo, hi))
      invariant acc + AllRows(dict[i..], lo, hi, serialize) == total
    {
      if dict[i].runs.None? {
        return None;
      }
      var next := ProcessEntry(dict[i].runs.value, dict[i].name, lo, hi, serialize);
      if next.None? {
        return None;
      }
      AllRowsStep(dict, i, lo, hi, serialize);
      Associate(acc, next.value, AllRows(dict[i + 1..], lo, hi, serialize));
      acc := acc + next.value;
      i := i + 1;
    }
    assert dict[i..] == [];
    return Some(acc);
  }

  /** A row of the multi-file page: the file name, then the same cells as
      a row of the single-file query */
  datatype FileRow = FileRow(fileName: string, cells: Row)

  /** `CreateGqiRow`: the file name, then the cells of the call */
  function CreateGqiRow(r: FileMetricRow): FileRow {
    FileRow(r.fileName, Row(r.className, r.methodName, r.startTime, r.endTime, r.executionTime, r.level, r.metadata))
  }

  /** The execution-time display value of a multi-file row, computed with
      the conditional-expression form of `GetExecutionTimeDisplayValue` */
  function FileRowDisplay(r: FileRow): string {
    DurationLabelConditional(r.cells.executionTime)
  }

  /** Apart from the file name, a multi-file row carries exactly the cells
      the single-file query shows for the same call at the same level,
      display text included */
  lemma GqiRowMatchesSingleFile(d: PerformanceData, level: nat, fileName: string, serialize: Serializer)
    ensures CreateGqiRow(CreateFileMetricRow(d, level, fileName, serialize)) == FileRow(fileName, CreateRow(d, level, serialize))
    ensures FileRowDisplay(CreateGqiRow(CreateFileMetricRow(d, level, fileName, serialize))) == ExecutionDisplay(CreateRow(d, level, serialize))
  {
    DurationLabelFormsAgree(d.executionTime);
  }

  function MapGqi(rows: seq<FileMetricRow>): (page: seq<FileRow>)
    ensures |page| == |rows|
    ensures forall k :: 0 <= k < |rows| ==> page[k] == CreateGqiRow(rows[k])
  {
    seq(|rows|, k requires 0 <= k < |rows| => CreateGqiRow(rows[k]))
  }

  /** The `Where` of `GetNextPage`: ordinal equality of class and method */
  function CallFilter(classFilter: string, methodFilter: string): FileMetricRow -> bool {
    (r: FileMetricRow) => r.className == classFilter && r.methodName == methodFilter
  }

  /** The `OrderBy` key */
  function StartKey(r: FileMetricRow): int {
    r.startTime
  }

  /** Every row of the dictionary's rows is tagged with one of its names */
  lemma {:induction false} AllRowsFileNames(dict: seq<Loaded>, lo: Ticks, hi: Ticks, serialize: Serializer)
    ensures forall r :: r in AllRows(dict, lo, hi, serialize) ==> r.fileName in Keys(dict)
    decreases |dict|
  {
    if |dict| > 0 {
      AllRowsFileNames(dict[1..], lo, hi, serialize);
      assert dict[0] in dict;
      assert Keys(dict[1..]) <= Keys(dict) by {
        forall e | e in dict[1..] ensures e in dict { }
      }
    }
  }

  /** The selection and ordering of `GetNextPage`: a stable sort by start
      time of exactly the rows of the requested class and method */
  lemma SelectAndOrder(all: seq<FileMetricRow>, classFilter: string, methodFilter: string)
    ensures var selected := Filter(all, CallFilter(classFilter, methodFilter));
            var ordered := SortBy(selected, StartKey);
            && SortedBy(ordered, StartKey)
            && multiset(ordered) == multiset(selected)
            && (forall t :: WithKey(ordered, StartKey, t) == WithKey(selected, StartKey, t))
            && (forall k :: 0 <= k < |ordered| ==>
                  ordered[k] in all && ordered[k].className == classFilter && ordered[k].methodName == methodFilter)
  {
    var p := CallFilter(classFilter, methodFilter);
    var selected := Filter(all, p);
    var ordered := SortBy(selected, StartKey);
    FilterContents(all, p);
    SortByIsStable(selected, StartKey);
    forall k | 0 <= k < |ordered|
      ensures ordered[k] in all && ordered[k].className == classFilter && ordered[k].methodName == methodFilter
    {
      assert ordered[k] in multiset(selected);
    }
  }

  /** Unlike the single-file run selection, nothing falls back: when no row
      is of the requested class and method, the page is empty */
  lemma NoMatchNoRows(all: seq<FileMetricRow>, classFilter: string, methodFilter: string)
    requires forall k :: 0 <= k < |all| ==> all[k].className != classFilter || all[k].methodName != methodFilter
    ensures SortBy(Filter(all, CallFilter(classFilter, methodFilter)), StartKey) == []
  {
    FilterNone(all, CallFilter(classFilter, methodFilter));
  }

  /** Some file of the listing has this name and was written inside the window */
  predicate InWindowFile(files: seq<FileEntry>, name: string, lo: Ticks, hi: Ticks) {
    exists i :: 0 <= i < |files| && files[i].name == name && InWindow(files[i].lastWrite, lo, hi)
  }

  /** Every row produced from a successful load names an in-window file */
  lemma LoadedRowsNameFiles(files: seq<FileEntry>, lo: Ticks, hi: Ticks, serialize: Serializer, r: FileMetricRow)
    requires LoadFiles(files, lo, hi).Some?
    requires r in AllRows(LoadFiles(files, lo, hi).value, lo, hi, serialize)
    ensures InWindowFile(files, r.fileName, lo, hi)
  {
    var loaded := LoadFiles(files, lo, hi).value;
    LoadFilesFirstWins(files, lo, hi);
    AllRowsFileNames(loaded, lo, hi, serialize);
    var n :| 0 <= n < |loaded| && loaded[n].name == r.fileName;
    var i := FirstWithName(files, r.fileName, lo, hi);
    assert files[i].name == r.fileName;
  }

  /** The cells of an ordered selection: every row of the requested class
      and method, start times nondecreasing */
  lemma PageCells(ordered: seq<FileMetricRow>, classFilter: string, methodFilter: string)
    requires SortedBy(ordered, StartKey)
    requires forall k :: 0 <= k < |ordered| ==> ordered[k].className == classFilter && ordered[k].methodName == methodFilter
    ensures forall k :: 0 <= k < |ordered| ==> MapGqi(ordered)[k].cells.className == classFilter && MapGqi(ordered)[k].cells.methodName == methodFilter
    ensures forall j, k :: 0 <= j < k < |ordered| ==> MapGqi(ordered)[j].cells.startTime <= MapGqi(ordered)[k].cells.startTime
  {
    forall j, k | 0 <= j < k < |ordered|
      ensures MapGqi(ordered)[j].cells.startTime <= MapGqi(ordered)[k].cells.startTime
    {
      assert StartKey(ordered[j]) <= StartKey(ordered[k]);
    }
  }

  /** Every row of a page drawn from loaded rows names an in-window file */
  lemma PageFiles(files: seq<FileEntry>, lo: Ticks, hi: Ticks, serialize: Serializer, ordered: seq<FileMetricRow>)
    requires LoadFiles(files, lo, hi).Some?
    requires forall k :: 0 <= k < |ordered| ==> ordered[k] in AllRows(LoadFiles(files, lo, hi).value, lo, hi, serialize)
    ensures forall k :: 0 <= k < |ordered| ==>
              InWindowFile(files, MapGqi(ordered)[k].fileName, lo, hi)
  {
    forall k | 0 <= k < |ordered|
      ensures InWindowFile(files, MapGqi(ordered)[k].fileName, lo, hi)
    {
      LoadedRowsNameFiles(files, lo, hi, serialize, ordered[k]);
      assert MapGqi(ordered)[k].fileName == ordered[k].fileName;
    }
  }

  /** `GetNextPage` of the multi-file query: load, flatten, select the class
      and method, order by start time. Any exception gives an empty page. */
  method GetNextPage(files: seq<FileEntry>, classFilter: string, methodFilter: string, lo: Ticks, hi: Ticks, serialize: Serializer)
    returns (page: seq<FileRow>)
    ensures SomeMalformed(files, lo, hi) ==> page == []
    ensures LoadFiles(files, lo, hi).Some? && CreateFails(LoadFiles(files, lo, hi).value, lo, hi) ==> page == []
    ensures LoadFiles(files, lo, hi).Some? && !CreateFails(LoadFiles(files, lo, hi).value, lo, hi) ==>
              var selected := Filter(AllRows(LoadFiles(files, lo, hi).value, lo, hi, serialize), CallFilter(classFilter, methodFilter));
              exists ordered ::
                && page == MapGqi(ordered)
                && SortedBy(ordered, StartKey)
                && multiset(ordered) == multiset(selected)
                && forall t :: WithKey(ordered, StartKey, t) == WithKey(selected, StartKey, t)
    ensures forall k :: 0 <= k < |page| ==> page[k].cells.className == classFilter && page[k].cells.methodName == methodFilter
    ensures forall k :: 0 <= k < |page| ==>
              InWindowFile(files, page[k].fileName, lo, hi)
    ensures forall j, k :: 0 <= j < k < |page| ==> page[j].cells.startTime <= page[k].cells.startTime
  {
    LoadIntoFails([], files, lo, hi);
    var loaded := LoadFiles(files, lo, hi);
    if loaded.None? {
      return [];
    }
    var rows := CreateFileMetricRows(loaded.value, lo, hi, serialize);
    if rows.None? {
      return [];
    }
    var selected := Filter(rows.value, CallFilter(classFilter, methodFilter));
    var ordered := SortBy(selected, StartKey);
    SelectAndOrder(rows.value, classFilter, methodFilter);
    PageCells(ordered, classFilter, methodFilter);
    PageFiles(files, lo, hi, serialize, ordered);
    page := MapGqi(ordered);
  }
}
