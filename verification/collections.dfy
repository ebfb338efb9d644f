/** The run listing of the analyzer package: one row per run of a loaded
    trace file, with a fixed message for any loading failure. */
module Collections {
  import opened Wrappers
  import opened TraceModel

  /** The only error the listing reports, whatever went wrong */
  const LoadErrorMessage: string := "Please, select one row so valid data could be shown."

  /** `OnArgumentsProcessed`: the file read and deserialised elsewhere
      (`read`); every failure is replaced by the fixed message */
  function LoadCollections(read: Result<seq<PerformanceLog>>): (r: Result<seq<PerformanceLog>>)
    ensures r.Success? <==> read.Success?
    ensures r.Success? ==> r.value == read.value
    ensures r.Failure? ==> r.error == LoadErrorMessage
  {
    match read
    case Success(runs) => Success(runs)
    case Failure(_) => Failure(LoadErrorMessage)
  }

  /** The cause of a loading failure never reaches the user */
  lemma LoadErrorHidesCause(e1: string, e2: string)
    ensures LoadCollections(Failure(e1)) == LoadCollections(Failure(e2))
  {
  }

  /** The metadata cell: always serialised, `null` printing as the JSON
      literal `null` */
  function MetadataJson(m: Option<Metadata>, serialize: Serializer): string {
    match m
    case None => "null"
    case Some(map_) => serialize(map_)
  }

  datatype CollectionRow = CollectionRow(name: string, startTime: Ticks, metadata: string, id: Guid)

  /** `GetNextPage`: one row per run, in collection order; the runs' call
      trees are not looked at */
  method GetNextPage(runs: seq<PerformanceLog>, serialize: Serializer) returns (rows: seq<CollectionRow>)
    ensures |rows| == |runs|
    ensures forall k :: 0 <= k < |runs| ==>
              rows[k] == CollectionRow(runs[k].name, runs[k].startTime, MetadataJson(runs[k].metadata, serialize), runs[k].id)
  {
    rows := [];
    var i := 0;
    while i < |runs|
      invariant 0 <= i <= |runs| && |rows| == i
      invariant forall k :: 0 <= k < i ==>
                  rows[k] == CollectionRow(runs[k].name, runs[k].startTime, MetadataJson(runs[k].metadata, serialize), runs[k].id)
    {
      var run := runs[i];
      rows := rows + [CollectionRow(run.name, run.startTime, MetadataJson(run.metadata, serialize), run.id)];
      i := i + 1;
    }
  }

  /** Unlike the call rows, a run row serialises empty metadata too: its
      cell is empty only if the serialiser yields "" */
  lemma RunMetadataUnconditional(m: Option<Metadata>, serialize: Serializer)
    requires forall x :: serialize(x) != ""
    ensures MetadataJson(m, serialize) != ""
    ensures m == Some(map[]) ==> MetadataJson(m, serialize) == serialize(map[])
    ensures m.None? ==> MetadataJson(m, serialize) == "null"
  {
  }

  /** Two runs with the same header give the same row, whatever their calls */
  lemma RowIgnoresCalls(a: PerformanceLog, b: PerformanceLog, serialize: Serializer)
    requires a.(data := None) == b.(data := None)
    ensures CollectionRow(a.name, a.startTime, MetadataJson(a.metadata, serialize), a.id)
            == CollectionRow(b.name, b.startTime, MetadataJson(b.metadata, serialize), b.id)
  {
  }
}
