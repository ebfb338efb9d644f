/** The reference pre-order traversal of a call forest. Every flattener and
    the metadata search are proved to visit calls in exactly this order.
    A visit records the call and its position: the child indices leading
    from the root list down to it. */
module Traversal {
  import opened Wrappers
  import opened TraceModel

  /** A visited call and the child indices from the root list down to it */
  datatype Visit = Visit(node: PerformanceData, path: seq<nat>)

  /** Number of proper ancestors of the visited call */
  function Depth(v: Visit): nat {
    if |v.path| == 0 then 0 else |v.path| - 1
  }

  /** The call at a position, or `None` when the position is out of range or
      passes through a null reference */
  function NodeAt(forest: seq<Option<PerformanceData>>, path: seq<nat>): Option<PerformanceData>
    decreases |path|
  {
    if |path| == 0 || path[0] >= |forest| then None
    else match forest[path[0]]
      case None => None
      case Some(d) => if |path| == 1 then Some(d) else NodeAt(d.subMethods, path[1..])
  }

  /** Lexicographic order on positions; a proper prefix comes first, so a
      call precedes its descendants */
  predicate LexLess(a: seq<nat>, b: seq<nat>)
    decreases |a|
  {
    |b| > 0 && (|a| == 0 || a[0] < b[0] || (a[0] == b[0] && LexLess(a[1..], b[1..])))
  }

  /** Visits of a subtree re-rooted under child index `i` */
  function Under(i: nat, vs: seq<Visit>): (r: seq<Visit>)
    ensures |r| == |vs|
    ensures forall k :: 0 <= k < |vs| ==> r[k] == Visit(vs[k].node, [i] + vs[k].path)
  {
    seq(|vs|, k requires 0 <= k < |vs| => Visit(vs[k].node, [i] + vs[k].path))
  }

  /** A call holding a root list as its children, so that a root list and a
      child list are traversed alike */
  function Holder(forest: seq<Option<PerformanceData>>): PerformanceData {
    PerformanceData("", "", 0, 0, map[], forest, EmptyGuid)
  }

  /** Pre-order, left to right, over the subtrees `parent.subMethods[from..]`;
      null slots and everything beneath them are skipped. Positions are
      relative to `parent`. */
  function ChildVisits(parent: PerformanceData, from: nat): seq<Visit>
    requires from <= |parent.subMethods|
    decreases parent, |parent.subMethods| - from
  {
    if from == |parent.subMethods| then []
    else
      (match parent.subMethods[from]
       case None => []
       case Some(d) => [Visit(d, [from])] + Under(from, ChildVisits(d, 0)))
      + ChildVisits(parent, from + 1)
  }

  /** Every position recorded by the walk from `from` on is non-empty and
      starts at a child index no smaller than `from` */
  lemma {:induction false} ChildVisitsPaths(parent: PerformanceData, from: nat)
    requires from <= |parent.subMethods|
    ensures forall k :: 0 <= k < |ChildVisits(parent, from)| ==>
              |ChildVisits(parent, from)[k].path| >= 1 && ChildVisits(parent, from)[k].path[0] >= from
    decreases |parent.subMethods| - from
  {
    if from < |parent.subMethods| {
      ChildVisitsPaths(parent, from + 1);
      match parent.subMethods[from]
      case None =>
        ChildVisitsNone(parent, from);
      case Some(d) =>
        var vs := ChildVisits(parent, from);
        forall k | 0 <= k < |vs|
          ensures |vs[k].path| >= 1 && vs[k].path[0] >= from
        {
          if k == 0 {
            IndexHead(parent, from, d);
          } else if k <= |ChildVisits(d, 0)| {
            IndexBelow(parent, from, d, k - 1);
          } else {
            IndexAfter(parent, from, d, k);
          }
        }
    }
  }

  /** Pre-order visits of a whole root list */
  function Visits(forest: seq<Option<PerformanceData>>): seq<Visit> {
    ChildVisits(Holder(forest), 0)
  }

  /** Number of non-null calls reachable from `parent.subMethods[from..]` */
  function CountNodes(parent: PerformanceData, from: nat): nat
    requires from <= |parent.subMethods|
    decreases parent, |parent.subMethods| - from
  {
    if from == |parent.subMethods| then 0
    else
      (match parent.subMethods[from]
       case None => 0
       case Some(d) => 1 + CountNodes(d, 0))
      + CountNodes(parent, from + 1)
  }

  /** Pre-order visits of every run's root list, in run order; a run whose
      `Data` is null contributes nothing */
  function RunsVisits(runs: seq<PerformanceLog>): seq<Visit> {
    if |runs| == 0 then [] else Visits(runs[0].data.GetOr([])) + RunsVisits(runs[1..])
  }

  lemma {:induction false} RunsVisitsAppend(a: seq<PerformanceLog>, b: seq<PerformanceLog>)
    ensures RunsVisits(a + b) == RunsVisits(a) + RunsVisits(b)
    decreases |a|
  {
    if |a| > 0 {
      assert (a + b)[1..] == a[1..] + b;
      RunsVisitsAppend(a[1..], b);
    } else {
      assert a + b == b;
    }
  }

  /** Index of the first run whose `Data` is null, or the run count */
  function FirstNull(runs: seq<PerformanceLog>): (n: nat)
    ensures n <= |runs|
    ensures forall k :: 0 <= k < n ==> runs[k].data.Some?
    ensures n < |runs| ==> runs[n].data.None?
  {
    if |runs| == 0 || runs[0].data.None? then 0 else 1 + FirstNull(runs[1..])
  }

  lemma RunsVisitsStep(runs: seq<PerformanceLog>, i: nat)
    requires i < |runs|
    ensures RunsVisits(runs[i..]) == Visits(runs[i].data.GetOr([])) + RunsVisits(runs[i + 1..])
  {
    assert runs[i..][1..] == runs[i + 1..];
  }

  /** Whether some run's `Data` is null, which makes `foreach` throw */
  predicate SomeDataNull(runs: seq<PerformanceLog>) {
    exists i :: 0 <= i < |runs| && runs[i].data.None?
  }

  lemma {:induction false} LexLessIrreflexive(a: seq<nat>)
    ensures !LexLess(a, a)
    decreases |a|
  {
    if |a| > 0 {
      LexLessIrreflexive(a[1..]);
    }
  }

  lemma {:induction false} LexLessUnder(i: nat, a: seq<nat>, b: seq<nat>)
    requires LexLess(a, b)
    ensures LexLess([i] + a, [i] + b)
  {
    assert ([i] + a)[1..] == a;
    assert ([i] + b)[1..] == b;
  }

  /** Every visit names a real call at its recorded position */
  lemma {:induction false} VisitsSound(parent: PerformanceData, from: nat)
    requires from <= |parent.subMethods|
    ensures forall k :: 0 <= k < |ChildVisits(parent, from)| ==>
              NodeAt(parent.subMethods, ChildVisits(parent, from)[k].path) == Some(ChildVisits(parent, from)[k].node)
    decreases parent, |parent.subMethods| - from
  {
    if from < |parent.subMethods| {
      VisitsSound(parent, from + 1);
      var rest := ChildVisits(parent, from + 1);
      match parent.subMethods[from]
      case None =>
        assert ChildVisits(parent, from) == rest;
      case Some(d) =>
        var sub := ChildVisits(d, 0);
        VisitsSound(d, 0);
        var head := [Visit(d, [from])] + Under(from, sub);
        assert ChildVisits(parent, from) == head + rest;
        forall k | 0 <= k < |head|
          ensures NodeAt(parent.subMethods, head[k].path) == Some(head[k].node)
        {
          if k > 0 {
            var p := sub[k - 1].path;
            assert head[k] == Visit(sub[k - 1].node, [from] + p);
            assert ([from] + p)[1..] == p;
          }
        }
    }
  }

  /** One unfolding of the walk at a non-null child */
  lemma ChildVisitsSome(parent: PerformanceData, from: nat, d: PerformanceData)
    requires from < |parent.subMethods| && parent.subMethods[from] == Some(d)
    ensures ChildVisits(parent, from) == [Visit(d, [from])] + Under(from, ChildVisits(d, 0)) + ChildVisits(parent, from + 1)
  {
  }

  /** One unfolding of the walk at a null child */
  lemma ChildVisitsNone(parent: PerformanceData, from: nat)
    requires from < |parent.subMethods| && parent.subMethods[from].None?
    ensures ChildVisits(parent, from) == ChildVisits(parent, from + 1)
  {
  }

  /** Following a position of length two or more through its first call */
  lemma NodeAtStep(forest: seq<Option<PerformanceData>>, p: seq<nat>, d: PerformanceData)
    requires |p| >= 2 && p[0] < |forest| && forest[p[0]] == Some(d)
    ensures NodeAt(forest, p) == NodeAt(d.subMethods, p[1..])
  {
  }

  /** A visit of a later sibling's subtree keeps its place, shifted */
  lemma IndexInRest(parent: PerformanceData, from: nat, j: nat) returns (k: nat)
    requires from < |parent.subMethods| && j < |ChildVisits(parent, from + 1)|
    ensures k < |ChildVisits(parent, from)| && ChildVisits(parent, from)[k] == ChildVisits(parent, from + 1)[j]
  {
    var rest := ChildVisits(parent, from + 1);
    match parent.subMethods[from]
    case None =>
      ChildVisitsNone(parent, from);
      k := j;
    case Some(d) =>
      ChildVisitsSome(parent, from, d);
      var head := [Visit(d, [from])] + Under(from, ChildVisits(d, 0));
      assert ChildVisits(parent, from) == head + rest;
      k := |head| + j;
  }

  /** A visit inside the subtree at `from` comes right after the call at `from` */
  lemma IndexBelow(parent: PerformanceData, from: nat, d: PerformanceData, j: nat)
    requires from < |parent.subMethods| && parent.subMethods[from] == Some(d)
    requires j < |ChildVisits(d, 0)|
    ensures 1 + j < |ChildVisits(parent, from)|
    ensures ChildVisits(parent, from)[1 + j] == Visit(ChildVisits(d, 0)[j].node, [from] + ChildVisits(d, 0)[j].path)
  {
    ChildVisitsSome(parent, from, d);
    var below := Under(from, ChildVisits(d, 0));
    assert ChildVisits(parent, from)[1 + j] == below[j];
  }

  /** The position in the walk at which a reachable call is visited */
  lemma {:induction false} VisitIndex(parent: PerformanceData, from: nat, p: seq<nat>) returns (k: nat)
    requires from <= |parent.subMethods|
    requires |p| >= 1 && p[0] >= from && NodeAt(parent.subMethods, p).Some?
    ensures k < |ChildVisits(parent, from)| && ChildVisits(parent, from)[k] == Visit(NodeAt(parent.subMethods, p).value, p)
    decreases parent, |parent.subMethods| - from
  {
    if p[0] == from {
      var d := parent.subMethods[from].value;
      if |p| == 1 {
        ChildVisitsSome(parent, from, d);
        k := 0;
        assert p == [from];
      } else {
        NodeAtStep(parent.subMethods, p, d);
        var node := NodeAt(parent.subMethods, p).value;
        var j := VisitIndex(d, 0, p[1..]);
        assert ChildVisits(d, 0)[j] == Visit(node, p[1..]);
        IndexBelow(parent, from, d, j);
        assert [from] + p[1..] == p;
        k := 1 + j;
      }
    } else {
      var j := VisitIndex(parent, from + 1, p);
      k := IndexInRest(parent, from, j);
    }
  }

  /** Every non-null call at or after root index `from` is visited */
  lemma VisitsComplete(parent: PerformanceData, from: nat, p: seq<nat>)
    requires from <= |parent.subMethods|
    requires |p| >= 1 && p[0] >= from && NodeAt(parent.subMethods, p).Some?
    ensures exists k :: 0 <= k < |ChildVisits(parent, from)| && ChildVisits(parent, from)[k] == Visit(NodeAt(parent.subMethods, p).value, p)
  {
    var k := VisitIndex(parent, from, p);
  }

  /** Positions strictly increase along the visits */
  predicate Ordered(vs: seq<Visit>) {
    forall j, k :: 0 <= j < k < |vs| ==> LexLess(vs[j].path, vs[k].path)
  }

  /** Visits come in strictly increasing lexicographic order of position:
      pre-order, left to right, each call before its descendants */
  lemma {:induction false} VisitsOrdered(parent: PerformanceData, from: nat)
    requires from <= |parent.subMethods|
    ensures forall j, k :: 0 <= j < k < |ChildVisits(parent, from)| ==>
              LexLess(ChildVisits(parent, from)[j].path, ChildVisits(parent, from)[k].path)
    decreases parent, |parent.subMethods| - from
  {
    if from < |parent.subMethods| {
      VisitsOrdered(parent, from + 1);
      match parent.subMethods[from]
      case None =>
        ChildVisitsNone(parent, from);
      case Some(d) =>
        VisitsOrdered(d, 0);
        assert Ordered(ChildVisits(d, 0)) && Ordered(ChildVisits(parent, from + 1));
        var vs := ChildVisits(parent, from);
        forall j, k | 0 <= j < k < |vs|
          ensures LexLess(vs[j].path, vs[k].path)
        {
          OrderedPair(parent, from, d, j, k);
        }
    }
  }

  /** The call at `from` is visited first */
  lemma IndexHead(parent: PerformanceData, from: nat, d: PerformanceData)
    requires from < |parent.subMethods| && parent.subMethods[from] == Some(d)
    ensures 0 < |ChildVisits(parent, from)| && ChildVisits(parent, from)[0] == Visit(d, [from])
  {
    ChildVisitsSome(parent, from, d);
  }

  /** Past the subtree at `from` come the visits of the later siblings */
  lemma IndexAfter(parent: PerformanceData, from: nat, d: PerformanceData, i: nat)
    requires from < |parent.subMethods| && parent.subMethods[from] == Some(d)
    requires 1 + |ChildVisits(d, 0)| <= i < |ChildVisits(parent, from)|
    ensures i - 1 - |ChildVisits(d, 0)| < |ChildVisits(parent, from + 1)|
    ensures ChildVisits(parent, from)[i] == ChildVisits(parent, from + 1)[i - 1 - |ChildVisits(d, 0)|]
  {
    ChildVisitsSome(parent, from, d);
    var head := [Visit(d, [from])] + Under(from, ChildVisits(d, 0));
    assert ChildVisits(parent, from) == head + ChildVisits(parent, from + 1);
  }

  lemma LexLessByHead(a: seq<nat>, b: seq<nat>)
    requires |a| > 0 && |b| > 0 && a[0] < b[0]
    ensures LexLess(a, b)
  {
  }

  lemma LexLessParent(i: nat, q: seq<nat>)
    requires |q| > 0
    ensures LexLess([i], [i] + q)
  {
    assert ([i] + q)[1..] == q;
    assert [i][1..] == [];
  }

  /** Two visits of a list headed by a call, given that the call's subtree
      and the rest of the list are each visited in order */
  lemma OrderedPair(parent: PerformanceData, from: nat, d: PerformanceData, j: nat, k: nat)
    requires from < |parent.subMethods| && parent.subMethods[from] == Some(d)
    requires Ordered(ChildVisits(d, 0)) && Ordered(ChildVisits(parent, from + 1))
    requires j < k < |ChildVisits(parent, from)|
    ensures LexLess(ChildVisits(parent, from)[j].path, ChildVisits(parent, from)[k].path)
  {
    var n := 1 + |ChildVisits(d, 0)|;
    if k < n {
      OrderedInSubtree(parent, from, d, j, k);
    } else if j < n {
      OrderedAcross(parent, from, d, j, k);
    } else {
      IndexAfter(parent, from, d, j);
      IndexAfter(parent, from, d, k);
      assert j - n < k - n;
    }
  }

  lemma OrderedInSubtree(parent: PerformanceData, from: nat, d: PerformanceData, j: nat, k: nat)
    requires from < |parent.subMethods| && parent.subMethods[from] == Some(d)
    requires Ordered(ChildVisits(d, 0))
    requires j < k < 1 + |ChildVisits(d, 0)|
    ensures k < |ChildVisits(parent, from)|
    ensures LexLess(ChildVisits(parent, from)[j].path, ChildVisits(parent, from)[k].path)
  {
    var sub := ChildVisits(d, 0);
    ChildVisitsPaths(d, 0);
    IndexBelow(parent, from, d, k - 1);
    if j == 0 {
      IndexHead(parent, from, d);
      LexLessParent(from, sub[k - 1].path);
    } else {
      IndexBelow(parent, from, d, j - 1);
      LexLessUnder(from, sub[j - 1].path, sub[k - 1].path);
    }
  }

  lemma OrderedAcross(parent: PerformanceData, from: nat, d: PerformanceData, j: nat, k: nat)
    requires from < |parent.subMethods| && parent.subMethods[from] == Some(d)
    requires j < 1 + |ChildVisits(d, 0)| <= k < |ChildVisits(parent, from)|
    ensures LexLess(ChildVisits(parent, from)[j].path, ChildVisits(parent, from)[k].path)
  {
    var vs := ChildVisits(parent, from);
    if j == 0 {
      IndexHead(parent, from, d);
    } else {
      IndexBelow(parent, from, d, j - 1);
    }
    assert vs[j].path[0] == from;
    IndexAfter(parent, from, d, k);
    ChildVisitsPaths(parent, from + 1);
    LexLessByHead(vs[j].path, vs[k].path);
  }

  /** No position is visited twice */
  lemma VisitsDistinct(forest: seq<Option<PerformanceData>>)
    ensures forall j, k :: 0 <= j < k < |Visits(forest)| ==> Visits(forest)[j].path != Visits(forest)[k].path
  {
    VisitsOrdered(Holder(forest), 0);
    forall j, k | 0 <= j < k < |Visits(forest)|
      ensures Visits(forest)[j].path != Visits(forest)[k].path
    {
      LexLessIrreflexive(Visits(forest)[j].path);
    }
  }

  /** The traversal visits exactly the non-null reachable calls */
  lemma {:induction false} VisitsCount(parent: PerformanceData, from: nat)
    requires from <= |parent.subMethods|
    ensures |ChildVisits(parent, from)| == CountNodes(parent, from)
    decreases parent, |parent.subMethods| - from
  {
    if from < |parent.subMethods| {
      VisitsCount(parent, from + 1);
      match parent.subMethods[from]
      case None =>
      case Some(d) =>
        VisitsCount(d, 0);
    }
  }
}
