/** The flattener of the single-file query: every selected run's call tree
    becomes rows in pre-order, each row carrying its call's depth. */
module Flatten {
  import opened Wrappers
  import opened TraceModel
  import opened Traversal
  import opened Display

  /** One output row: the cells of `CreateRow`. The execution-time cell
      holds the call's duration; its value and display text are derived
      from it by `ExecutionValue` and `ExecutionDisplay`. */
  datatype Row = Row(
    className: string,
    methodName: string,
    startTime: Ticks,
    endTime: Ticks,
    executionTime: nat,
    level: nat,
    metadata: string)

  /** The execution-time cell's value: `(int)TotalMilliseconds` */
  function ExecutionValue(r: Row): int {
    ExecutionMillis(r.executionTime)
  }

  /** The execution-time cell's display value: `GetExecutionTimeDisplayValue` */
  function ExecutionDisplay(r: Row): string {
    DurationLabel(r.executionTime)
  }

  /** The metadata cell: the serialised map when it has an entry, else "" */
  function MetadataCell(m: Metadata, serialize: Serializer): string {
    if HasMetadata(m) then serialize(m) else ""
  }

  /** `CreateRow`: the cells of one call at a given depth */
  function CreateRow(d: PerformanceData, level: nat, serialize: Serializer): Row {
    Row(d.className, d.methodName, d.startTime, d.startTime + d.executionTime,
        d.executionTime, level, MetadataCell(d.metadata, serialize))
  }

  /** The rows a sequence of visits yields when the visited list sits at
      depth `base` */
  function RowsAt(vs: seq<Visit>, base: nat, serialize: Serializer): (rows: seq<Row>)
    ensures |rows| == |vs|
    ensures forall k :: 0 <= k < |vs| ==> rows[k] == CreateRow(vs[k].node, base + Depth(vs[k]), serialize)
  {
    seq(|vs|, k requires 0 <= k < |vs| => CreateRow(vs[k].node, base + Depth(vs[k]), serialize))
  }

  lemma RowsAtAppend(a: seq<Visit>, b: seq<Visit>, base: nat, serialize: Serializer)
    ensures RowsAt(a + b, base, serialize) == RowsAt(a, base, serialize) + RowsAt(b, base, serialize)
  {
  }

  /** Re-rooting visits one level down adds one to every depth */
  lemma RowsAtUnder(i: nat, vs: seq<Visit>, base: nat, serialize: Serializer)
    requires forall k :: 0 <= k < |vs| ==> |vs[k].path| >= 1
    ensures RowsAt(Under(i, vs), base, serialize) == RowsAt(vs, base + 1, serialize)
  {
  }

  /** The loop over `parent.SubMethods[from..]` of `ProcessSubMethods`,
      each child one level below `level - 1`: a null child yields nothing,
      a call yields its own row followed by its subtree's rows */
  function ProcessChildren(parent: PerformanceData, from: nat, level: nat, serialize: Serializer): seq<Row>
    requires from <= |parent.subMethods|
    decreases parent, |parent.subMethods| - from
  {
    if from == |parent.subMethods| then []
    else
      var rest := ProcessChildren(parent, from + 1, level, serialize);
      match parent.subMethods[from]
      case None => rest
      case Some(d) => [CreateRow(d, level, serialize)] + ProcessChildren(d, 0, level + 1, serialize) + rest
  }

  /** Flattening children from position `from` emits the rows of the
      reference walk over those children */
  lemma {:induction false} ProcessChildrenIsWalk(parent: PerformanceData, from: nat, level: nat, serialize: Serializer)
    requires from <= |parent.subMethods|
    ensures ProcessChildren(parent, from, level, serialize) == RowsAt(ChildVisits(parent, from), level, serialize)
    decreases parent, |parent.subMethods| - from
  {
    if from < |parent.subMethods| {
      ProcessChildrenIsWalk(parent, from + 1, level, serialize);
      match parent.subMethods[from]
      case None =>
        assert ChildVisits(parent, from) == ChildVisits(parent, from + 1);
      case Some(d) =>
        ProcessChildrenIsWalk(d, 0, level + 1, serialize);
        var sub := ChildVisits(d, 0);
        var head := [Visit(d, [from])];
        assert ChildVisits(parent, from) == head + Under(from, sub) + ChildVisits(parent, from + 1);
        ChildVisitsPaths(d, 0);
        RowsAtUnder(from, sub, level, serialize);
        assert RowsAt(head, level, serialize) == [CreateRow(d, level, serialize)];
        RowsAtAppend(head, Under(from, sub), level, serialize);
        RowsAtAppend(head + Under(from, sub), ChildVisits(parent, from + 1), level, serialize);
    }
  }

  /** `ProcessSubMethods(data, rows, level)`: nothing for a null call,
      otherwise the call's row and then its subtree's rows */
  function ProcessSubMethods(data: Option<PerformanceData>, level: nat, serialize: Serializer): seq<Row> {
    match data
    case None => []
    case Some(d) => [CreateRow(d, level, serialize)] + ProcessChildren(d, 0, level + 1, serialize)
  }

  /** Processing one possibly-null call emits the rows of the reference
      walk over it */
  lemma ProcessSubMethodsIsWalk(data: Option<PerformanceData>, level: nat, serialize: Serializer)
    ensures ProcessSubMethods(data, level, serialize) == RowsAt(Visits([data]), level, serialize)
  {
    var h := Holder([data]);
    assert h.subMethods[0] == data;
    assert ProcessChildren(h, 1, level, serialize) == [];
    ProcessChildrenStep(h, 0, level, serialize);
    ProcessChildrenIsWalk(h, 0, level, serialize);
  }

  /** One turn of the loop over a child list */
  lemma ProcessChildrenStep(parent: PerformanceData, j: nat, level: nat, serialize: Serializer)
    requires j < |parent.subMethods|
    ensures ProcessChildren(parent, j, level, serialize)
            == ProcessSubMethods(parent.subMethods[j], level, serialize) + ProcessChildren(parent, j + 1, level, serialize)
  {
  }

  lemma Associate<T>(a: seq<T>, b: seq<T>, c: seq<T>)
    ensures a + (b + c) == (a + b) + c
  {
  }

  /** The inner `foreach` over one run's root calls, each at level 0 */
  method ProcessRoots(roots: seq<Option<PerformanceData>>, serialize: Serializer) returns (rows: seq<Row>)
    ensures rows == RowsAt(Visits(roots), 0, serialize)
  {
    var holder := Holder(roots);
    rows := [];
    var j := 0;
    while j < |roots|
      invariant 0 <= j <= |roots|
      invariant rows + ProcessChildren(holder, j, 0, serialize) == ProcessChildren(holder, 0, 0, serialize)
    {
      var next := ProcessSubMethods(roots[j], 0, serialize);
      ProcessChildrenStep(holder, j, 0, serialize);
      Associate(rows, next, ProcessChildren(holder, j + 1, 0, serialize));
      rows := rows + next;
      j := j + 1;
    }
    assert ProcessChildren(holder, j, 0, serialize) == [];
    assert rows == ProcessChildren(holder, 0, 0, serialize);
    ProcessChildrenIsWalk(holder, 0, 0, serialize);
  }

  /** `GetNextPage`: the two `foreach` loops over the selected runs and their
      root calls. `None` stands for the exception a null `Data` raises. */
  method GetNextPage(selected: seq<PerformanceLog>, serialize: Serializer) returns (page: Option<seq<Row>>)
    ensures page.None? <==> SomeDataNull(selected)
    ensures page.Some? ==> page.value == RowsAt(RunsVisits(selected), 0, serialize)
  {
    var rows: seq<Row> := [];
    ghost var total := RowsAt(RunsVisits(selected), 0, serialize);
    var i := 0;
    while i < |selected|
      invariant 0 <= i <= |selected|
      invariant forall k :: 0 <= k < i ==> selected[k].data.Some?
      invariant rows + RowsAt(RunsVisits(selected[i..]), 0, serialize) == total
    {
      if selected[i].data.None? {
        return None;
      }
      var next := ProcessRoots(selected[i].data.value, serialize);
      PageStep(selected, i, rows, next, serialize);
      rows := rows + next;
      i := i + 1;
    }
    assert selected[i..] == [];
    assert RowsAt(RunsVisits([]), 0, serialize) == [];
    assert rows + [] == rows;
    return Some(rows);
  }

  /** One run of `GetNextPage`'s loop: its rows continue the accumulated prefix */
  lemma PageStep(selected: seq<PerformanceLog>, i: nat, rows: seq<Row>, next: seq<Row>, serialize: Serializer)
    requires i < |selected| && selected[i].data.Some?
    requires next == RowsAt(Visits(selected[i].data.value), 0, serialize)
    ensures rows + RowsAt(RunsVisits(selected[i..]), 0, serialize)
            == (rows + next) + RowsAt(RunsVisits(selected[i + 1..]), 0, serialize)
  {
    RunsVisitsStep(selected, i);
    RowsAtAppend(Visits(selected[i].data.value), RunsVisits(selected[i + 1..]), 0, serialize);
  }

  /** The metadata cell is empty exactly when the call has no metadata,
      since a serialised map is never the empty string */
  lemma MetadataCellEmptyIff(m: Metadata, serialize: Serializer)
    requires serialize(m) != ""
    ensures MetadataCell(m, serialize) == "" <==> m == map[]
  {
    if m != map[] {
      assert |m| > 0 by {
        var k :| k in m;
      }
    }
  }

  /** The cells of one row: end time is start plus execution time, the
      value is truncated milliseconds, the label reads back as the rounded
      milliseconds, and the metadata cell follows the serialisation rule */
  lemma CreateRowCells(d: PerformanceData, level: nat, serialize: Serializer)
    requires serialize(d.metadata) != ""
    ensures var row := CreateRow(d, level, serialize);
            && row.className == d.className && row.methodName == d.methodName
            && row.endTime == row.startTime + d.executionTime
            && row.level == level
            && (d.executionTime / TicksPerMillisecond <= Int32Max ==> ExecutionValue(row) == d.executionTime / TicksPerMillisecond)
            && ParseDurationLabel(ExecutionDisplay(row)) == Some(RoundedMillis(d.executionTime))
            && (row.metadata == "" <==> d.metadata == map[])
  {
    DurationLabelRoundTrip(d.executionTime);
    MetadataCellEmptyIff(d.metadata, serialize);
  }

  /** Flattening a root list is its pre-order traversal: row `k` is the row
      of the call at position `vs[k].path`, its level is the number of the
      call's ancestors (roots 0, a child one more than its parent),
      positions strictly increase lexicographically (each call before its
      descendants, siblings left to right), and every non-null call
      reachable through non-null references has its row */
  lemma FlattenIsPreOrder(roots: seq<Option<PerformanceData>>, serialize: Serializer)
    ensures var rows := ProcessChildren(Holder(roots), 0, 0, serialize);
            var vs := Visits(roots);
            && |rows| == |vs|
            && (forall k :: 0 <= k < |vs| ==>
                  && NodeAt(roots, vs[k].path) == Some(vs[k].node)
                  && rows[k] == CreateRow(vs[k].node, |vs[k].path| - 1, serialize))
            && (forall j, k :: 0 <= j < k < |vs| ==> LexLess(vs[j].path, vs[k].path))
    ensures forall p :: |p| >= 1 && NodeAt(roots, p).Some? ==>
              exists k :: 0 <= k < |Visits(roots)| && Visits(roots)[k] == Visit(NodeAt(roots, p).value, p)
  {
    var h := Holder(roots);
    assert h.subMethods == roots;
    assert Visits(roots) == ChildVisits(h, 0);
    ProcessChildrenIsWalk(h, 0, 0, serialize);
    VisitsSound(h, 0);
    VisitsOrdered(h, 0);
    forall p | |p| >= 1 && NodeAt(roots, p).Some?
      ensures exists k :: 0 <= k < |Visits(roots)| && Visits(roots)[k] == Visit(NodeAt(roots, p).value, p)
    {
      VisitsComplete(h, 0, p);
    }
  }

  /** A null call emits nothing; row count equals the number of non-null
      calls reachable from the roots */
  lemma RowCount(roots: seq<Option<PerformanceData>>, serialize: Serializer)
    ensures |ProcessChildren(Holder(roots), 0, 0, serialize)| == CountNodes(Holder(roots), 0)
    ensures ProcessSubMethods(None, 0, serialize) == []
  {
    ProcessChildrenIsWalk(Holder(roots), 0, 0, serialize);
    VisitsCount(Holder(roots), 0);
  }
}
