/** The metadata query: a depth-first search over every run for the first
    call whose identifier equals the parsed argument and whose metadata is
    non-empty; its entries become key/value rows. */
module MetadataLocator {
  import opened Wrappers
  import opened TraceModel
  import opened Traversal

  /** `Guid.TryParse`, left uninterpreted: `None` when the text is not a GUID */
  type GuidParser = string -> Option<Guid>

  /** A call that ends the search: its identifier is the target and it has
      metadata */
  predicate Hit(d: PerformanceData, target: Option<Guid>) {
    target == Some(d.id) && HasMetadata(d.metadata)
  }

  /** Position of the first hit in a sequence of visits, `|vs|` when there
      is none */
  function FirstHitIndex(vs: seq<Visit>, target: Option<Guid>): (k: nat)
    ensures k <= |vs|
    ensures k < |vs| ==> Hit(vs[k].node, target)
    ensures forall j :: 0 <= j < k ==> !Hit(vs[j].node, target)
  {
    if |vs| == 0 then 0
    else if Hit(vs[0].node, target) then 0
    else 1 + FirstHitIndex(vs[1..], target)
  }

  /** Reference definition: the metadata of the first hit in a sequence of
      visits, or the empty map when nothing matches */
  function FirstHit(vs: seq<Visit>, target: Option<Guid>): (m: Metadata)
    ensures HasMetadata(m) <==> FirstHitIndex(vs, target) < |vs|
    ensures !HasMetadata(m) ==> m == map[]
  {
    var k := FirstHitIndex(vs, target);
    if k < |vs| then vs[k].node.metadata else map[]
  }

  /** The first-hit position is the only position with no hit before it */
  lemma FirstHitIndexUnique(vs: seq<Visit>, target: Option<Guid>, k: nat)
    requires k <= |vs|
    requires k < |vs| ==> Hit(vs[k].node, target)
    requires forall j :: 0 <= j < k ==> !Hit(vs[j].node, target)
    ensures FirstHitIndex(vs, target) == k
  {
  }

  lemma FirstHitAppend(a: seq<Visit>, b: seq<Visit>, target: Option<Guid>)
    ensures FirstHit(a + b, target) == if HasMetadata(FirstHit(a, target)) then FirstHit(a, target) else FirstHit(b, target)
  {
    var ka, kb := FirstHitIndex(a, target), FirstHitIndex(b, target);
    var k := if ka < |a| then ka else |a| + kb;
    forall j | 0 <= j < k ensures !Hit((a + b)[j].node, target) {
      if j >= |a| {
        assert (a + b)[j] == b[j - |a|];
      }
    }
    if k < |a + b| {
      if ka < |a| {
        assert (a + b)[k] == a[k];
      } else {
        assert (a + b)[k] == b[kb];
      }
    }
    FirstHitIndexUnique(a + b, target, k);
  }

  lemma FirstHitUnder(i: nat, vs: seq<Visit>, target: Option<Guid>)
    ensures FirstHit(Under(i, vs), target) == FirstHit(vs, target)
  {
    var u := Under(i, vs);
    var k := FirstHitIndex(vs, target);
    assert forall j :: 0 <= j < |vs| ==> u[j].node == vs[j].node;
    FirstHitIndexUnique(u, target, k);
  }

  /** `CheckForCorrectMetadata`: the call's metadata when its identifier
      equals the parsed argument, else an empty map */
  function CheckForCorrectMetadata(d: PerformanceData, target: Option<Guid>): (m: Metadata)
    ensures HasMetadata(m) <==> Hit(d, target)
    ensures HasMetadata(m) ==> m == d.metadata
  {
    if target == Some(d.id) then d.metadata else map[]
  }

  /** The loop of `GetMetadataNeeded` over `parent.SubMethods[from..]`: the
      first child whose own search yields metadata */
  function SearchChildren(parent: PerformanceData, from: nat, target: Option<Guid>): Metadata
    requires from <= |parent.subMethods|
    decreases parent, |parent.subMethods| - from
  {
    if from == |parent.subMethods| then map[]
    else
      match parent.subMethods[from]
      case None => SearchChildren(parent, from + 1, target)
      case Some(d) =>
        var own := CheckForCorrectMetadata(d, target);
        var found := if HasMetadata(own) then own else SearchChildren(d, 0, target);
        if HasMetadata(found) then found else SearchChildren(parent, from + 1, target)
  }

  /** Searching children from position `from` returns the first hit of the
      reference walk over those children */
  lemma {:induction false} SearchChildrenIsWalk(parent: PerformanceData, from: nat, target: Option<Guid>)
    requires from <= |parent.subMethods|
    ensures SearchChildren(parent, from, target) == FirstHit(ChildVisits(parent, from), target)
    decreases parent, |parent.subMethods| - from
  {
    if from < |parent.subMethods| {
      SearchChildrenIsWalk(parent, from + 1, target);
      var rest := ChildVisits(parent, from + 1);
      match parent.subMethods[from]
      case None =>
        assert ChildVisits(parent, from) == rest;
      case Some(d) =>
        SearchChildrenIsWalk(d, 0, target);
        var head := [Visit(d, [from])];
        var sub := ChildVisits(d, 0);
        assert ChildVisits(parent, from) == head + Under(from, sub) + rest;
        FirstHitAppend(head + Under(from, sub), rest, target);
        FirstHitAppend(head, Under(from, sub), target);
        FirstHitUnder(from, sub, target);
    }
  }

  /** `GetMetadataNeeded`: nothing for a null call; the call's own metadata
      when it matches and is non-empty; otherwise the first child subtree
      that yields metadata */
  function GetMetadataNeeded(data: Option<PerformanceData>, target: Option<Guid>): Metadata
  {
    match data
    case None => map[]
    case Some(d) =>
      var own := CheckForCorrectMetadata(d, target);
      if HasMetadata(own) then own else SearchChildren(d, 0, target)
  }

  lemma SearchChildrenStep(parent: PerformanceData, j: nat, target: Option<Guid>)
    requires j < |parent.subMethods|
    ensures var m := GetMetadataNeeded(parent.subMethods[j], target);
            SearchChildren(parent, j, target) == if HasMetadata(m) then m else SearchChildren(parent, j + 1, target)
  {
  }

  /** Searching one possibly-null call returns the first hit of the
      reference walk over it */
  lemma GetMetadataNeededIsWalk(data: Option<PerformanceData>, target: Option<Guid>)
    ensures GetMetadataNeeded(data, target) == FirstHit(Visits([data]), target)
  {
    var h := Holder([data]);
    assert h.subMethods[0] == data;
    assert SearchChildren(h, 1, target) == map[];
    SearchChildrenStep(h, 0, target);
    SearchChildrenIsWalk(h, 0, target);
  }

  /** Reference result of the search over all runs: the first hit in the
      pre-order of the runs before the first null `Data`; when there is
      none and such a run exists, the `foreach` over it throws (`None`) */
  function Located(runs: seq<PerformanceLog>, target: Option<Guid>): Option<Metadata> {
    var n := FirstNull(runs);
    var m := FirstHit(RunsVisits(runs[..n]), target);
    if HasMetadata(m) || n == |runs| then Some(m) else None
  }

  /** The loop over one run's roots, stopping at the first root that yields */
  method SearchRoots(roots: seq<Option<PerformanceData>>, target: Option<Guid>) returns (metadata: Metadata)
    ensures metadata == FirstHit(Visits(roots), target)
  {
    var holder := Holder(roots);
    SearchChildrenIsWalk(holder, 0, target);
    metadata := map[];
    var j := 0;
    while j < |roots|
      invariant 0 <= j <= |roots|
      invariant metadata == map[]
      invariant SearchChildren(holder, j, target) == SearchChildren(holder, 0, target)
    {
      metadata := GetMetadataNeeded(roots[j], target);
      SearchChildrenStep(holder, j, target);
      if |metadata| > 0 {
        return;
      }
      metadata := map[];
      j := j + 1;
    }
  }

  /** Searching one more run extends the search over the runs before it */
  lemma PrefixStep(runs: seq<PerformanceLog>, i: nat, target: Option<Guid>)
    requires i < |runs| && runs[i].data.Some?
    ensures var before := FirstHit(RunsVisits(runs[..i]), target);
            FirstHit(RunsVisits(runs[..i + 1]), target)
              == if HasMetadata(before) then before else FirstHit(Visits(runs[i].data.value), target)
  {
    assert runs[..i + 1] == runs[..i] + [runs[i]];
    RunsVisitsAppend(runs[..i], [runs[i]]);
    assert RunsVisits([runs[i]]) == Visits(runs[i].data.value);
    FirstHitAppend(RunsVisits(runs[..i]), Visits(runs[i].data.value), target);
  }

  /** Once a prefix of non-null runs holds a hit, the later runs are never
      looked at */
  lemma LocatedByPrefix(runs: seq<PerformanceLog>, i: nat, target: Option<Guid>)
    requires i <= |runs|
    requires forall k :: 0 <= k < i ==> runs[k].data.Some?
    requires HasMetadata(FirstHit(RunsVisits(runs[..i]), target))
    ensures Located(runs, target) == Some(FirstHit(RunsVisits(runs[..i]), target))
  {
    var n := FirstNull(runs);
    assert runs[..n] == runs[..i] + runs[i..n];
    RunsVisitsAppend(runs[..i], runs[i..n]);
    FirstHitAppend(RunsVisits(runs[..i]), RunsVisits(runs[i..n]), target);
  }

  /** A search that reaches a null `Data` without a hit throws */
  lemma LocatedAtNull(runs: seq<PerformanceLog>, i: nat, target: Option<Guid>)
    requires i < |runs| && runs[i].data.None?
    requires forall k :: 0 <= k < i ==> runs[k].data.Some?
    requires !HasMetadata(FirstHit(RunsVisits(runs[..i]), target))
    ensures Located(runs, target).None?
  {
    assert FirstNull(runs) == i;
  }

  /** A search over non-null runs without a hit yields the empty map */
  lemma LocatedAtEnd(runs: seq<PerformanceLog>, target: Option<Guid>)
    requires forall k :: 0 <= k < |runs| ==> runs[k].data.Some?
    requires !HasMetadata(FirstHit(RunsVisits(runs[..|runs|]), target))
    ensures Located(runs, target) == Some(map[])
  {
    assert FirstNull(runs) == |runs|;
  }

  /** A run without a hit extends the hit-free prefix */
  lemma MissInRun(runs: seq<PerformanceLog>, i: nat, target: Option<Guid>)
    requires i < |runs| && runs[i].data.Some?
    requires !HasMetadata(FirstHit(RunsVisits(runs[..i]), target))
    requires !HasMetadata(FirstHit(Visits(runs[i].data.value), target))
    ensures !HasMetadata(FirstHit(RunsVisits(runs[..i + 1]), target))
  {
    PrefixStep(runs, i, target);
  }

  /** The first run with a hit decides the search */
  lemma HitInRun(runs: seq<PerformanceLog>, i: nat, target: Option<Guid>)
    requires i < |runs| && runs[i].data.Some?
    requires forall k :: 0 <= k < i ==> runs[k].data.Some?
    requires !HasMetadata(FirstHit(RunsVisits(runs[..i]), target))
    requires HasMetadata(FirstHit(Visits(runs[i].data.value), target))
    ensures Located(runs, target) == Some(FirstHit(Visits(runs[i].data.value), target))
  {
    var own := FirstHit(Visits(runs[i].data.value), target);
    PrefixStep(runs, i, target);
    assert FirstHit(RunsVisits(runs[..i + 1]), target) == own;
    assert forall k :: 0 <= k < i + 1 ==> runs[k].data.Some?;
    LocatedByPrefix(runs, i + 1, target);
  }

  /** The run loop of `GetNextPage`: searches run after run and stops at the
      first non-empty result; `None` when it reaches a null `Data` first */
  method FindMetadata(runs: seq<PerformanceLog>, target: Option<Guid>) returns (found: Option<Metadata>)
    ensures found == Located(runs, target)
  {
    var i := 0;
    while i < |runs|
      invariant 0 <= i <= |runs|
      invariant forall k :: 0 <= k < i ==> runs[k].data.Some?
      invariant !HasMetadata(FirstHit(RunsVisits(runs[..i]), target))
    {
      if runs[i].data.None? {
        LocatedAtNull(runs, i, target);
        return None;
      }
      var metadata := SearchRoots(runs[i].data.value, target);
      if |metadata| > 0 {
        HitInRun(runs, i, target);
        return Some(metadata);
      }
      MissInRun(runs, i, target);
      i := i + 1;
    }
    LocatedAtEnd(runs, target);
    return Some(map[]);
  }

  /** One output row of the metadata query */
  datatype KeyValueRow = KeyValueRow(key: string, value: string)

  /** `GenerateRow`: one row per entry of the map; the dictionary's
      enumeration order is not modelled, so entries are taken in any order */
  method GenerateRows(m: Metadata) returns (rows: seq<KeyValueRow>)
    ensures |rows| == |m|
    ensures forall i :: 0 <= i < |rows| ==> rows[i].key in m && m[rows[i].key] == rows[i].value
    ensures forall i, j :: 0 <= i < j < |rows| ==> rows[i].key != rows[j].key
    ensures forall k :: k in m ==> exists i :: 0 <= i < |rows| && rows[i] == KeyValueRow(k, m[k])
  {
    rows := [];
    var left := m.Keys;
    while left != {}
      invariant left <= m.Keys
      invariant |rows| + |left| == |m|
      invariant forall i :: 0 <= i < |rows| ==> rows[i].key in m && m[rows[i].key] == rows[i].value && rows[i].key !in left
      invariant forall i, j :: 0 <= i < j < |rows| ==> rows[i].key != rows[j].key
      invariant forall k :: k in m ==> k in left || exists i :: 0 <= i < |rows| && rows[i] == KeyValueRow(k, m[k])
      decreases |left|
    {
      var k :| k in left;
      var before := rows;
      rows := rows + [KeyValueRow(k, m[k])];
      left := left - {k};
      assert rows[|rows| - 1] == KeyValueRow(k, m[k]);
      assert forall i :: 0 <= i < |before| ==> rows[i] == before[i];
    }
  }

  /** `GetNextPage` of the metadata query: the argument is parsed once, the
      runs are searched, and the found entries become rows. `None` stands
      for the exception a null `Data` raises. */
  method GetNextPage(runs: seq<PerformanceLog>, idText: string, parse: GuidParser) returns (page: Option<seq<KeyValueRow>>)
    ensures page.None? <==> Located(runs, parse(idText)).None?
    ensures page.Some? ==> |page.value| == |Located(runs, parse(idText)).value|
    ensures page.Some? ==> forall i :: 0 <= i < |page.value| ==>
              var m := Located(runs, parse(idText)).value;
              page.value[i].key in m && m[page.value[i].key] == page.value[i].value
    ensures page.Some? ==> forall i, j :: 0 <= i < j < |page.value| ==> page.value[i].key != page.value[j].key
    ensures page.Some? ==> forall k :: k in Located(runs, parse(idText)).value ==>
              exists i :: 0 <= i < |page.value| && page.value[i] == KeyValueRow(k, Located(runs, parse(idText)).value[k])
  {
    var found := FindMetadata(runs, parse(idText));
    if found.None? {
      return None;
    }
    if |found.value| > 0 {
      var rows := GenerateRows(found.value);
      return Some(rows);
    } else {
      return Some([]);
    }
  }

  /** Null calls contribute nothing */
  lemma NullCallYieldsNothing(target: Option<Guid>)
    ensures GetMetadataNeeded(None, target) == map[]
  {
  }

  /** The found metadata belongs to the first call, in run order, then root
      order, then pre-order, whose identifier is the target and whose
      metadata is non-empty; it is empty exactly when there is no such call */
  lemma LocatedIsFirstMatch(runs: seq<PerformanceLog>, target: Option<Guid>)
    requires !SomeDataNull(runs)
    ensures Located(runs, target).Some?
    ensures Located(runs, target).value == map[] ==>
              forall k :: 0 <= k < |RunsVisits(runs)| ==> !Hit(RunsVisits(runs)[k].node, target)
    ensures Located(runs, target).value != map[] ==>
              exists k :: 0 <= k < |RunsVisits(runs)| && Hit(RunsVisits(runs)[k].node, target)
                          && Located(runs, target).value == RunsVisits(runs)[k].node.metadata
                          && forall j :: 0 <= j < k ==> !Hit(RunsVisits(runs)[j].node, target)
  {
    var n := FirstNull(runs);
    assert runs[..n] == runs;
    var vs := RunsVisits(runs);
    var k := FirstHitIndex(vs, target);
    assert n == |runs|;
    assert Located(runs, target) == Some(FirstHit(vs, target));
    var m := Located(runs, target).value;
    if k < |vs| {
      assert m == vs[k].node.metadata && HasMetadata(m) && Hit(vs[k].node, target);
      assert m != map[] by {
        assert |m.Keys| > 0;
      }
      assert forall j :: 0 <= j < k ==> !Hit(vs[j].node, target);
      assert exists j :: 0 <= j < |vs| && Hit(vs[j].node, target) && m == vs[j].node.metadata
                         && forall i :: 0 <= i < j ==> !Hit(vs[i].node, target);
    } else {
      assert m == map[];
      assert forall j :: 0 <= j < |vs| ==> !Hit(vs[j].node, target);
    }
  }

  /** An unparseable identifier matches no call, so the page is empty
      unless the search runs into a null `Data` */
  lemma UnparseableIdFindsNothing(runs: seq<PerformanceLog>, idText: string, parse: GuidParser)
    requires parse(idText).None?
    ensures Located(runs, parse(idText)) == if SomeDataNull(runs) then None else Some(map[])
  {
    var n := FirstNull(runs);
    assert !HasMetadata(FirstHit(RunsVisits(runs[..n]), None));
    if !SomeDataNull(runs) {
      assert n == |runs|;
    }
  }

  /** A call with the target identifier but no metadata does not end the
      search: what comes after it decides */
  lemma EmptyMatchContinues(d: PerformanceData, path: seq<nat>, rest: seq<Visit>, target: Option<Guid>)
    requires target == Some(d.id) && !HasMetadata(d.metadata)
    ensures FirstHit([Visit(d, path)] + rest, target) == FirstHit(rest, target)
  {
    FirstHitAppend([Visit(d, path)], rest, target);
  }

  /** The search stops at the first hit: runs appended after a run
      collection that already contains a hit cannot change the result, even
      when their `Data` is null */
  lemma ShortCircuit(runs: seq<PerformanceLog>, more: seq<PerformanceLog>, target: Option<Guid>)
    requires !SomeDataNull(runs)
    requires HasMetadata(FirstHit(RunsVisits(runs), target))
    ensures Located(runs + more, target) == Located(runs, target)
  {
    var all := runs + more;
    var n := FirstNull(all);
    assert FirstNull(runs) == |runs|;
    assert runs[..|runs|] == runs;
    assert n >= |runs| by {
      forall k | 0 <= k < |runs| ensures all[k].data.Some? {
        assert all[k] == runs[k];
      }
    }
    assert all[..n] == runs + all[|runs|..n];
    RunsVisitsAppend(runs, all[|runs|..n]);
    FirstHitAppend(RunsVisits(runs), RunsVisits(all[|runs|..n]), target);
  }

  /** Two calls sharing the target identifier, each with metadata: the one
      reached first wins and the other is never reported */
  lemma FirstOfTwoWins(runs: seq<PerformanceLog>, target: Option<Guid>, j: nat, k: nat)
    requires !SomeDataNull(runs)
    requires j < k < |RunsVisits(runs)|
    requires Hit(RunsVisits(runs)[j].node, target) && Hit(RunsVisits(runs)[k].node, target)
    requires forall i :: 0 <= i < j ==> !Hit(RunsVisits(runs)[i].node, target)
    ensures Located(runs, target) == Some(RunsVisits(runs)[j].node.metadata)
  {
    LocatedIsFirstMatch(runs, target);
    var vs := RunsVisits(runs);
    var m := Located(runs, target).value;
    var i :| 0 <= i < |vs| && Hit(vs[i].node, target) && m == vs[i].node.metadata
             && forall l :: 0 <= l < i ==> !Hit(vs[l].node, target);
    assert i == j;
  }
}
