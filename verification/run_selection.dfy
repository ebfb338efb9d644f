/** The run selection of the single-file query: runs whose name and
    OA-date text match the arguments, or every run when none does. */
module RunSelection {
  import opened TraceModel
  import opened Seqs

  /** `Convert.ToString(startTime.ToOADate())`, left uninterpreted */
  type OADateText = Ticks -> string

  predicate Matches(run: PerformanceLog, name: string, startTime: string, oaDate: OADateText) {
    run.name == name && oaDate(run.startTime) == startTime
  }

  /** `Matches` as the predicate handed to `Where` */
  function MatchFilter(name: string, startTime: string, oaDate: OADateText): PerformanceLog -> bool {
    (r: PerformanceLog) => Matches(r, name, startTime, oaDate)
  }

  /** `OnArgumentsProcessed`: the matching runs in collection order, falling
      back to the whole collection when nothing matches. The `?? ` branch
      of the source is dead because `ToList()` never yields null. */
  function SelectRuns(runs: seq<PerformanceLog>, name: string, startTime: string, oaDate: OADateText): (selected: seq<PerformanceLog>)
    ensures |selected| == 0 <==> |runs| == 0
    ensures forall r :: r in selected ==> r in runs
    ensures selected != runs ==> forall r :: r in selected ==> Matches(r, name, startTime, oaDate)
  {
    var matching := Filter(runs, MatchFilter(name, startTime, oaDate));
    FilterContents(runs, MatchFilter(name, startTime, oaDate));
    if |matching| > 0 then matching
    else runs
  }

  /** When no run matches, the selection is the full collection */
  lemma SelectionFallback(runs: seq<PerformanceLog>, name: string, startTime: string, oaDate: OADateText)
    requires forall i :: 0 <= i < |runs| ==> !Matches(runs[i], name, startTime, oaDate)
    ensures SelectRuns(runs, name, startTime, oaDate) == runs
  {
    var p := MatchFilter(name, startTime, oaDate);
    var matching := Filter(runs, p);
    FilterContents(runs, p);
    if |matching| > 0 {
      assert matching[0] in runs;
    }
  }

  /** The runs `Where` keeps: exactly the matching ones, each as often as in
      the collection */
  lemma MatchingRuns(runs: seq<PerformanceLog>, name: string, startTime: string, oaDate: OADateText)
    ensures forall r :: r in Filter(runs, MatchFilter(name, startTime, oaDate)) <==> r in runs && Matches(r, name, startTime, oaDate)
    ensures forall r :: multiset(Filter(runs, MatchFilter(name, startTime, oaDate)))[r] == if Matches(r, name, startTime, oaDate) then multiset(runs)[r] else 0
  {
    var p := MatchFilter(name, startTime, oaDate);
    FilterContents(runs, p);
    assert forall r :: p(r) == Matches(r, name, startTime, oaDate);
  }

  /** When some run matches, the selection holds exactly the matching runs,
      each as often as in the collection, in collection order */
  lemma SelectionExact(runs: seq<PerformanceLog>, name: string, startTime: string, oaDate: OADateText)
    requires exists i :: 0 <= i < |runs| && Matches(runs[i], name, startTime, oaDate)
    ensures var selected := SelectRuns(runs, name, startTime, oaDate);
            && selected == Filter(runs, MatchFilter(name, startTime, oaDate))
            && (forall r :: r in selected <==> r in runs && Matches(r, name, startTime, oaDate))
            && (forall r :: multiset(selected)[r] == if Matches(r, name, startTime, oaDate) then multiset(runs)[r] else 0)
  {
    var i :| 0 <= i < |runs| && Matches(runs[i], name, startTime, oaDate);
    var matching := Filter(runs, MatchFilter(name, startTime, oaDate));
    MatchingRuns(runs, name, startTime, oaDate);
    assert runs[i] in matching;
    assert SelectRuns(runs, name, startTime, oaDate) == matching;
  }

  /** The selection is empty only when the collection is */
  lemma SelectionNeverEmpty(runs: seq<PerformanceLog>, name: string, startTime: string, oaDate: OADateText)
    requires |runs| > 0
    ensures |SelectRuns(runs, name, startTime, oaDate)| > 0
  {
  }
}
