/** The flattener of the captured-metrics query: the same pre-order rows as
    the analyzer's flattener, but every visited call is first given a fresh
    identifier, stored into the call tree and shown as an extra cell. */
module IdFlatten {
  import opened Wrappers
  import opened TraceModel
  import opened Traversal
  import opened Flatten
  import MetadataLocator

  /** A row of the captured-metrics query: the analyzer's cells plus the
      call's identifier */
  datatype IdRow = IdRow(row: Row, id: Guid)

  function Strip(rows: seq<IdRow>): (r: seq<Row>)
    ensures |r| == |rows|
    ensures forall k :: 0 <= k < |rows| ==> r[k] == rows[k].row
  {
    seq(|rows|, k requires 0 <= k < |rows| => rows[k].row)
  }

  function RowIds(rows: seq<IdRow>): (r: seq<Guid>)
    ensures |r| == |rows|
    ensures forall k :: 0 <= k < |rows| ==> r[k] == rows[k].id
  {
    seq(|rows|, k requires 0 <= k < |rows| => rows[k].id)
  }

  /** Identifiers of the visited calls, in visiting order */
  function Ids(vs: seq<Visit>): (r: seq<Guid>)
    ensures |r| == |vs|
    ensures forall k :: 0 <= k < |vs| ==> r[k] == vs[k].node.id
  {
    seq(|vs|, k requires 0 <= k < |vs| => vs[k].node.id)
  }

  /** Metadata of the visited calls, in visiting order */
  function Metas(vs: seq<Visit>): (r: seq<Metadata>)
    ensures |r| == |vs|
    ensures forall k :: 0 <= k < |vs| ==> r[k] == vs[k].node.metadata
  {
    seq(|vs|, k requires 0 <= k < |vs| => vs[k].node.metadata)
  }

  /** The result of processing a child list: the list with identifiers
      stored into its calls, the rows emitted, and the counter afterwards */
  datatype Assigned = Assigned(children: seq<Option<PerformanceData>>, rows: seq<IdRow>, next: nat)

  /** The loop of `ProcessSubMethods` over `parent.SubMethods[from..]`: each
      non-null call receives a fresh identifier before its row is emitted,
      then its children are processed one level deeper. `Guid.NewGuid` is
      modelled as a counter: the `n`-th identifier handed out is `Guid(n)`. */
  function AssignChildren(parent: PerformanceData, from: nat, level: nat, next: nat, serialize: Serializer): (a: Assigned)
    requires from <= |parent.subMethods|
    ensures |a.children| == |parent.subMethods| - from
    ensures a.next == next + |a.rows|
    decreases parent, |parent.subMethods| - from
  {
    if from == |parent.subMethods| then Assigned([], [], next)
    else
      match parent.subMethods[from]
      case None =>
        var rest := AssignChildren(parent, from + 1, level, next, serialize);
        Assigned([None] + rest.children, rest.rows, rest.next)
      case Some(d) =>
        var sub := AssignChildren(d, 0, level + 1, next + 1, serialize);
        var stamped := d.(id := Guid(next), subMethods := sub.children);
        var rest := AssignChildren(parent, from + 1, level, sub.next, serialize);
        var rows := [IdRow(CreateRow(d, level, serialize), Guid(next))] + sub.rows + rest.rows;
        Assigned([Some(stamped)] + rest.children, rows, rest.next)
  }

  /** The identifiers handed out are consecutive: row `k` carries the
      `k`-th identifier after `next` */
  lemma {:induction false} AssignIds(parent: PerformanceData, from: nat, level: nat, next: nat, serialize: Serializer)
    requires from <= |parent.subMethods|
    ensures var a := AssignChildren(parent, from, level, next, serialize);
            forall k :: 0 <= k < |a.rows| ==> a.rows[k].id == Guid(next + k)
    decreases parent, |parent.subMethods| - from
  {
    if from < |parent.subMethods| {
      match parent.subMethods[from]
      case None =>
        assert AssignChildren(parent, from, level, next, serialize).rows == AssignChildren(parent, from + 1, level, next, serialize).rows;
        AssignIds(parent, from + 1, level, next, serialize);
      case Some(d) =>
        var sub := AssignChildren(d, 0, level + 1, next + 1, serialize);
        var rest := AssignChildren(parent, from + 1, level, sub.next, serialize);
        var rows := [IdRow(CreateRow(d, level, serialize), Guid(next))] + sub.rows + rest.rows;
        AssignUnfold(parent, from, level, next, serialize, d);
        AssignIds(d, 0, level + 1, next + 1, serialize);
        AssignIds(parent, from + 1, level, sub.next, serialize);
        forall k | 0 <= k < |rows| ensures rows[k].id == Guid(next + k) {
          if 1 <= k <= |sub.rows| {
            assert rows[k] == sub.rows[k - 1];
          } else if k > |sub.rows| {
            assert rows[k] == rest.rows[k - 1 - |sub.rows|];
          }
        }
    }
  }

  /** The ids-erased copy of `parent.SubMethods[from..]`: every identifier
      reset to the empty one, everything else kept */
  function EraseChildren(parent: PerformanceData, from: nat): (r: seq<Option<PerformanceData>>)
    requires from <= |parent.subMethods|
    ensures |r| == |parent.subMethods| - from
    decreases parent, |parent.subMethods| - from
  {
    if from == |parent.subMethods| then []
    else
      (match parent.subMethods[from]
       case None => [None]
       case Some(d) => [Some(d.(id := EmptyGuid, subMethods := EraseChildren(d, 0)))])
      + EraseChildren(parent, from + 1)
  }

  /** Erasure depends only on the list itself, not on which call holds it */
  lemma {:induction false} EraseShift(p: PerformanceData, i: nat, q: PerformanceData, j: nat)
    requires i <= |p.subMethods| && j <= |q.subMethods|
    requires p.subMethods[i..] == q.subMethods[j..]
    ensures EraseChildren(p, i) == EraseChildren(q, j)
    decreases |p.subMethods| - i
  {
    if i < |p.subMethods| {
      assert p.subMethods[i] == p.subMethods[i..][0] == q.subMethods[j..][0] == q.subMethods[j];
      assert p.subMethods[i + 1..] == p.subMethods[i..][1..];
      assert q.subMethods[j + 1..] == q.subMethods[j..][1..];
      EraseShift(p, i + 1, q, j + 1);
    }
  }

  /** Visiting depends only on the list itself, not on which call holds it:
      the same calls come in the same order */
  lemma {:induction false} VisitsShift(p: PerformanceData, i: nat, q: PerformanceData, j: nat)
    requires i <= |p.subMethods| && j <= |q.subMethods|
    requires p.subMethods[i..] == q.subMethods[j..]
    ensures Ids(ChildVisits(p, i)) == Ids(ChildVisits(q, j))
    ensures Metas(ChildVisits(p, i)) == Metas(ChildVisits(q, j))
    decreases |p.subMethods| - i
  {
    if i < |p.subMethods| {
      assert p.subMethods[i] == p.subMethods[i..][0] == q.subMethods[j..][0] == q.subMethods[j];
      assert p.subMethods[i + 1..] == p.subMethods[i..][1..];
      assert q.subMethods[j + 1..] == q.subMethods[j..][1..];
      VisitsShift(p, i + 1, q, j + 1);
      var restP, restQ := ChildVisits(p, i + 1), ChildVisits(q, j + 1);
      match p.subMethods[i]
      case None =>
        assert ChildVisits(p, i) == restP;
        assert ChildVisits(q, j) == restQ;
      case Some(d) =>
        HeadProjections(p, i, d);
        HeadProjections(q, j, d);
    }
  }

  lemma StripAppend(a: seq<IdRow>, b: seq<IdRow>)
    ensures Strip(a + b) == Strip(a) + Strip(b)
    ensures RowIds(a + b) == RowIds(a) + RowIds(b)
  {
  }

  lemma ProjectionsAppend(a: seq<Visit>, b: seq<Visit>)
    ensures Ids(a + b) == Ids(a) + Ids(b)
    ensures Metas(a + b) == Metas(a) + Metas(b)
  {
  }

  lemma ProjectionsUnder(i: nat, vs: seq<Visit>)
    ensures Ids(Under(i, vs)) == Ids(vs)
    ensures Metas(Under(i, vs)) == Metas(vs)
  {
  }

  /** One non-null call at the head of the list: its stamped copy, its row,
      its subtree, then the rest of the list */
  lemma AssignUnfold(parent: PerformanceData, from: nat, level: nat, next: nat, serialize: Serializer, d: PerformanceData)
    requires from < |parent.subMethods| && parent.subMethods[from] == Some(d)
    ensures var sub := AssignChildren(d, 0, level + 1, next + 1, serialize);
            var rest := AssignChildren(parent, from + 1, level, sub.next, serialize);
            var stamped := d.(id := Guid(next), subMethods := sub.children);
            AssignChildren(parent, from, level, next, serialize)
              == Assigned([Some(stamped)] + rest.children,
                          [IdRow(CreateRow(d, level, serialize), Guid(next))] + sub.rows + rest.rows,
                          rest.next)
  {
  }

  /** Apart from the identifier cell, the rows are exactly the analyzer's
      flattening of the unmodified calls */
  lemma {:induction false} AssignRows(parent: PerformanceData, from: nat, level: nat, next: nat, serialize: Serializer)
    requires from <= |parent.subMethods|
    ensures Strip(AssignChildren(parent, from, level, next, serialize).rows) == ProcessChildren(parent, from, level, serialize)
    decreases parent, |parent.subMethods| - from
  {
    if from < |parent.subMethods| {
      match parent.subMethods[from]
      case None =>
        AssignRows(parent, from + 1, level, next, serialize);
      case Some(d) =>
        var sub := AssignChildren(d, 0, level + 1, next + 1, serialize);
        var rest := AssignChildren(parent, from + 1, level, sub.next, serialize);
        var head := [IdRow(CreateRow(d, level, serialize), Guid(next))];
        AssignUnfold(parent, from, level, next, serialize, d);
        assert AssignChildren(parent, from, level, next, serialize).rows == head + sub.rows + rest.rows;
        AssignRows(d, 0, level + 1, next + 1, serialize);
        AssignRows(parent, from + 1, level, sub.next, serialize);
        StripAppend(head + sub.rows, rest.rows);
        StripAppend(head, sub.rows);
        assert Strip(head) == [CreateRow(d, level, serialize)];
        ProcessChildrenStep(parent, from, level, serialize);
        assert ProcessSubMethods(Some(d), level, serialize)
            == [CreateRow(d, level, serialize)] + ProcessChildren(d, 0, level + 1, serialize);
    }
  }

  /** Only identifiers change: erasing them from the processed list gives
      the same as erasing them from the original */
  lemma {:induction false} AssignOnlyIds(parent: PerformanceData, from: nat, level: nat, next: nat, serialize: Serializer)
    requires from <= |parent.subMethods|
    ensures var a := AssignChildren(parent, from, level, next, serialize);
            EraseChildren(Holder(a.children), 0) == EraseChildren(parent, from)
    decreases parent, |parent.subMethods| - from
  {
    var a := AssignChildren(parent, from, level, next, serialize);
    var h := Holder(a.children);
    if from < |parent.subMethods| {
      match parent.subMethods[from]
      case None =>
        var rest := AssignChildren(parent, from + 1, level, next, serialize);
        AssignOnlyIds(parent, from + 1, level, next, serialize);
        assert h.subMethods[1..] == Holder(rest.children).subMethods[0..];
        EraseShift(h, 1, Holder(rest.children), 0);
      case Some(d) =>
        var sub := AssignChildren(d, 0, level + 1, next + 1, serialize);
        var rest := AssignChildren(parent, from + 1, level, sub.next, serialize);
        var stamped := d.(id := Guid(next), subMethods := sub.children);
        assert h.subMethods[0] == Some(stamped);
        AssignOnlyIds(d, 0, level + 1, next + 1, serialize);
        AssignOnlyIds(parent, from + 1, level, sub.next, serialize);
        assert stamped.subMethods[0..] == Holder(sub.children).subMethods[0..];
        EraseShift(stamped, 0, Holder(sub.children), 0);
        assert h.subMethods[1..] == Holder(rest.children).subMethods[0..];
        EraseShift(h, 1, Holder(rest.children), 0);
    }
  }

  /** The identifiers stored into the processed list, read in pre-order,
      are the identifier cells of the rows in order, and every call keeps
      its metadata */
  lemma {:induction false} AssignIdsInPreOrder(parent: PerformanceData, from: nat, level: nat, next: nat, serialize: Serializer)
    requires from <= |parent.subMethods|
    ensures var a := AssignChildren(parent, from, level, next, serialize);
            && Ids(Visits(a.children)) == RowIds(a.rows)
            && Metas(Visits(a.children)) == Metas(ChildVisits(parent, from))
    decreases parent, |parent.subMethods| - from
  {
    var a := AssignChildren(parent, from, level, next, serialize);
    var h := Holder(a.children);
    if from < |parent.subMethods| {
      match parent.subMethods[from]
      case None =>
        var rest := AssignChildren(parent, from + 1, level, next, serialize);
        AssignIdsInPreOrder(parent, from + 1, level, next, serialize);
        assert h.subMethods[1..] == Holder(rest.children).subMethods[0..];
        VisitsShift(h, 1, Holder(rest.children), 0);
        assert ChildVisits(h, 0) == ChildVisits(h, 1);
        assert ChildVisits(parent, from) == ChildVisits(parent, from + 1);
      case Some(d) =>
        var sub := AssignChildren(d, 0, level + 1, next + 1, serialize);
        var rest := AssignChildren(parent, from + 1, level, sub.next, serialize);
        var stamped := d.(id := Guid(next), subMethods := sub.children);
        AssignUnfold(parent, from, level, next, serialize, d);
        assert h.subMethods[0] == Some(stamped);
        AssignIdsInPreOrder(d, 0, level + 1, next + 1, serialize);
        AssignIdsInPreOrder(parent, from + 1, level, sub.next, serialize);
        assert stamped.subMethods[0..] == Holder(sub.children).subMethods[0..];
        VisitsShift(stamped, 0, Holder(sub.children), 0);
        assert h.subMethods[1..] == Holder(rest.children).subMethods[0..];
        VisitsShift(h, 1, Holder(rest.children), 0);
        var head := [IdRow(CreateRow(d, level, serialize), Guid(next))];
        StripAppend(head + sub.rows, rest.rows);
        StripAppend(head, sub.rows);
        HeadProjections(h, 0, stamped);
        HeadProjections(parent, from, d);
        assert a.rows == head + sub.rows + rest.rows;
        assert RowIds(head) == [Guid(next)];
        assert RowIds(a.rows) == [Guid(next)] + RowIds(sub.rows) + RowIds(rest.rows);
        assert Ids(Visits(a.children)) == [Guid(next)] + RowIds(sub.rows) + RowIds(rest.rows);
    }
  }

  /** The pre-order identifiers and metadata of a list headed by a call,
      split into the call, its subtree and the rest */
  lemma HeadProjections(p: PerformanceData, i: nat, d: PerformanceData)
    requires i < |p.subMethods| && p.subMethods[i] == Some(d)
    ensures Ids(ChildVisits(p, i)) == [d.id] + Ids(ChildVisits(d, 0)) + Ids(ChildVisits(p, i + 1))
    ensures Metas(ChildVisits(p, i)) == [d.metadata] + Metas(ChildVisits(d, 0)) + Metas(ChildVisits(p, i + 1))
  {
    var sub := ChildVisits(d, 0);
    var head := [Visit(d, [i])] + Under(i, sub);
    assert ChildVisits(p, i) == head + ChildVisits(p, i + 1);
    ProjectionsAppend(head, ChildVisits(p, i + 1));
    ProjectionsAppend([Visit(d, [i])], Under(i, sub));
    ProjectionsUnder(i, sub);
    assert Ids([Visit(d, [i])]) == [d.id];
    assert Metas([Visit(d, [i])]) == [d.metadata];
    assert Ids(head) == [d.id] + Ids(sub);
    assert Metas(head) == [d.metadata] + Metas(sub);
  }

  /** A run after the captured query has processed it: the header is
      unchanged, a null `Data` stays null, and the call trees differ at
      most in their identifiers */
  predicate SameExceptIds(before: PerformanceLog, after: PerformanceLog) {
    && before.(data := None) == after.(data := None)
    && before.data.None? == after.data.None?
    && (before.data.Some? ==> EraseChildren(Holder(after.data.value), 0) == EraseChildren(Holder(before.data.value), 0))
  }

  lemma RunsVisitsPrefix(runs: seq<PerformanceLog>, i: nat)
    requires i < |runs|
    ensures RunsVisits(runs[..i + 1]) == RunsVisits(runs[..i]) + Visits(runs[i].data.GetOr([]))
  {
    assert runs[..i + 1] == runs[..i] + [runs[i]];
    RunsVisitsAppend(runs[..i], [runs[i]]);
    assert RunsVisits([runs[i]]) == Visits(runs[i].data.GetOr([]));
  }

  /** The runs before `i` are stamped, the rest untouched, none of the
      first `i` has a null `Data` */
  predicate Stamped(runs: seq<PerformanceLog>, updated: seq<PerformanceLog>, i: nat) {
    && i <= |runs| && |updated| == |runs|
    && (forall k :: 0 <= k < |runs| ==> SameExceptIds(runs[k], updated[k]))
    && (forall k :: i <= k < |runs| ==> updated[k] == runs[k])
    && (forall k :: 0 <= k < i ==> runs[k].data.Some?)
  }

  /** The rows emitted for the first `i` runs, with consecutive identifiers
      from `next` on, which are the identifiers stored into those runs */
  predicate Emitted(runs: seq<PerformanceLog>, updated: seq<PerformanceLog>, rows: seq<IdRow>, i: nat, next: nat, after: nat, serialize: Serializer)
    requires i <= |runs| && |updated| == |runs|
  {
    && Strip(rows) == RowsAt(RunsVisits(runs[..i]), 0, serialize)
    && after == next + |rows|
    && (forall k :: 0 <= k < |rows| ==> rows[k].id == Guid(next + k))
    && Ids(RunsVisits(updated[..i])) == RowIds(rows)
    && Metas(RunsVisits(updated[..i])) == Metas(RunsVisits(runs[..i]))
  }

  lemma StampedStep(runs: seq<PerformanceLog>, updated: seq<PerformanceLog>, i: nat, next: nat, serialize: Serializer)
    requires Stamped(runs, updated, i) && i < |runs| && runs[i].data.Some?
    ensures var a := AssignChildren(Holder(runs[i].data.value), 0, 0, next, serialize);
            Stamped(runs, updated[i := runs[i].(data := Some(a.children))], i + 1)
  {
    AssignOnlyIds(Holder(runs[i].data.value), 0, 0, next, serialize);
  }

  lemma EmittedStep(runs: seq<PerformanceLog>, updated: seq<PerformanceLog>, rows: seq<IdRow>, i: nat, next: nat, after: nat, serialize: Serializer)
    requires Stamped(runs, updated, i) && i < |runs| && runs[i].data.Some?
    requires Emitted(runs, updated, rows, i, next, after, serialize)
    ensures var a := AssignChildren(Holder(runs[i].data.value), 0, 0, after, serialize);
            Emitted(runs, updated[i := runs[i].(data := Some(a.children))], rows + a.rows, i + 1, next, a.next, serialize)
  {
    var roots := runs[i].data.value;
    var a := AssignChildren(Holder(roots), 0, 0, after, serialize);
    var u := updated[i := runs[i].(data := Some(a.children))];
    AssignRows(Holder(roots), 0, 0, after, serialize);
    ProcessChildrenIsWalk(Holder(roots), 0, 0, serialize);
    AssignIds(Holder(roots), 0, 0, after, serialize);
    AssignIdsInPreOrder(Holder(roots), 0, 0, after, serialize);
    assert u[..i] == updated[..i];
    RunsVisitsPrefix(runs, i);
    RunsVisitsPrefix(u, i);
    RowsAtAppend(RunsVisits(runs[..i]), Visits(roots), 0, serialize);
    StripAppend(rows, a.rows);
    ProjectionsAppend(RunsVisits(updated[..i]), Visits(a.children));
    ProjectionsAppend(RunsVisits(runs[..i]), Visits(roots));
  }

  /** `GetNextPage` of the captured query: the two `foreach` loops over the
      runs and their root calls, stamping identifiers into the calls as they
      are flattened. The stamped runs are returned, since the list is
      shared state that outlives the call; on the exception a null `Data`
      raises (`None`), the runs stamped before it stay stamped. */
  method GetNextPage(runs: seq<PerformanceLog>, next: nat, serialize: Serializer)
    returns (page: Option<seq<IdRow>>, updated: seq<PerformanceLog>, after: nat)
    ensures |updated| == |runs|
    ensures forall i :: 0 <= i < |runs| ==> SameExceptIds(runs[i], updated[i])
    ensures page.None? <==> SomeDataNull(runs)
    ensures page.Some? ==> Strip(page.value) == RowsAt(RunsVisits(runs), 0, serialize)
    ensures page.Some? ==> after == next + |page.value|
    ensures page.Some? ==> forall k :: 0 <= k < |page.value| ==> page.value[k].id == Guid(next + k)
    ensures page.Some? ==> Ids(RunsVisits(updated)) == RowIds(page.value)
    ensures page.Some? ==> Metas(RunsVisits(updated)) == Metas(RunsVisits(runs))
  {
    var rows: seq<IdRow> := [];
    updated := runs;
    after := next;
    var i := 0;
    while i < |runs|
      invariant Stamped(runs, updated, i)
      invariant Emitted(runs, updated, rows, i, next, after, serialize)
    {
      if runs[i].data.None? {
        return None, updated, after;
      }
      var a := AssignChildren(Holder(runs[i].data.value), 0, 0, after, serialize);
      StampedStep(runs, updated, i, after, serialize);
      EmittedStep(runs, updated, rows, i, next, after, serialize);
      updated := updated[i := runs[i].(data := Some(a.children))];
      rows := rows + a.rows;
      after := a.next;
      i := i + 1;
    }
    assert runs[..i] == runs && updated[..i] == updated;
    return Some(rows), updated, after;
  }

  /** The identifier cell of a row finds that row's call: after the captured
      query, the metadata search for row `k`'s identifier returns the
      metadata of the `k`-th call in pre-order, because the identifiers
      handed out are pairwise distinct */
  lemma RowIdLocatesItsCall(updated: seq<PerformanceLog>, rows: seq<IdRow>, next: nat, k: nat)
    requires !SomeDataNull(updated)
    requires Ids(RunsVisits(updated)) == RowIds(rows)
    requires forall j :: 0 <= j < |rows| ==> rows[j].id == Guid(next + j)
    requires k < |rows| && HasMetadata(RunsVisits(updated)[k].node.metadata)
    ensures MetadataLocator.Located(updated, Some(rows[k].id)) == Some(RunsVisits(updated)[k].node.metadata)
  {
    var vs := RunsVisits(updated);
    var target := Some(rows[k].id);
    assert vs[k].node.id == rows[k].id;
    forall j | 0 <= j < k ensures !MetadataLocator.Hit(vs[j].node, target) {
      assert vs[j].node.id == rows[j].id == Guid(next + j);
    }
    MetadataLocator.FirstHitIndexUnique(vs, target, k);
    assert FirstNull(updated) == |updated|;
    assert updated[..|updated|] == updated;
  }

  /** Flattening reads no identifier: child lists that agree once their
      identifiers are erased flatten to the same rows */
  lemma {:induction false} ProcessChildrenIgnoresIds(p: PerformanceData, i: nat, q: PerformanceData, j: nat, level: nat, serialize: Serializer)
    requires i <= |p.subMethods| && j <= |q.subMethods|
    requires EraseChildren(p, i) == EraseChildren(q, j)
    ensures ProcessChildren(p, i, level, serialize) == ProcessChildren(q, j, level, serialize)
    decreases p, |p.subMethods| - i
  {
    if i < |p.subMethods| {
      var ep, eq := EraseChildren(p, i), EraseChildren(q, j);
      assert j < |q.subMethods|;
      assert ep[1..] == EraseChildren(p, i + 1);
      assert eq[1..] == EraseChildren(q, j + 1);
      ProcessChildrenIgnoresIds(p, i + 1, q, j + 1, level, serialize);
      match p.subMethods[i]
      case None =>
        assert ep[0] == None;
        assert q.subMethods[j].None?;
      case Some(d) =>
        assert ep[0] == Some(d.(id := EmptyGuid, subMethods := EraseChildren(d, 0)));
        assert q.subMethods[j].Some?;
        var e := q.subMethods[j].value;
        assert eq[0] == Some(e.(id := EmptyGuid, subMethods := EraseChildren(e, 0)));
        assert EraseChildren(d, 0) == EraseChildren(e, 0);
        assert CreateRow(d, level, serialize) == CreateRow(e, level, serialize);
        ProcessChildrenIgnoresIds(d, 0, e, 0, level + 1, serialize);
    }
  }

  /** Runs that differ only in their identifiers fail alike and flatten to
      the same rows */
  lemma {:induction false} RunsRowsIgnoreIds(runs: seq<PerformanceLog>, updated: seq<PerformanceLog>, serialize: Serializer)
    requires |updated| == |runs|
    requires forall i :: 0 <= i < |runs| ==> SameExceptIds(runs[i], updated[i])
    ensures SomeDataNull(updated) <==> SomeDataNull(runs)
    ensures RowsAt(RunsVisits(updated), 0, serialize) == RowsAt(RunsVisits(runs), 0, serialize)
    decreases |runs|
  {
    assert forall i :: 0 <= i < |runs| ==> (updated[i].data.None? <==> runs[i].data.None?);
    if |runs| > 0 {
      RunsRowsIgnoreIds(runs[1..], updated[1..], serialize);
      var r, u := runs[0], updated[0];
      assert SameExceptIds(r, u);
      var vr, vu := Visits(r.data.GetOr([])), Visits(u.data.GetOr([]));
      if r.data.Some? {
        ProcessChildrenIgnoresIds(Holder(u.data.value), 0, Holder(r.data.value), 0, 0, serialize);
        ProcessChildrenIsWalk(Holder(u.data.value), 0, 0, serialize);
        ProcessChildrenIsWalk(Holder(r.data.value), 0, 0, serialize);
      }
      assert RowsAt(vu, 0, serialize) == RowsAt(vr, 0, serialize);
      RowsAtAppend(vu, RunsVisits(updated[1..]), 0, serialize);
      RowsAtAppend(vr, RunsVisits(runs[1..]), 0, serialize);
    }
  }

  /** The captured query run twice, the second time on the runs the first
      stamped: both fail alike, and the second page holds the same rows
      apart from the identifier column, whose fresh identifiers continue
      where the first page stopped */
  method QueryTwice(runs: seq<PerformanceLog>, next: nat, serialize: Serializer)
    returns (first: Option<seq<IdRow>>, second: Option<seq<IdRow>>)
    ensures first.None? <==> second.None?
    ensures first.Some? ==> Strip(second.value) == Strip(first.value)
    ensures first.Some? ==> forall k :: 0 <= k < |second.value| ==> second.value[k].id == Guid(next + |first.value| + k)
    ensures first.Some? ==> forall a, b :: 0 <= a < |first.value| && 0 <= b < |second.value| ==> first.value[a].id != second.value[b].id
  {
    var updated, after, again, later;
    first, updated, after := GetNextPage(runs, next, serialize);
    second, again, later := GetNextPage(updated, after, serialize);
    RunsRowsIgnoreIds(runs, updated, serialize);
  }
}
