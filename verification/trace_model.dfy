/** The recorded trace data: a run (`PerformanceLog`) owns an ordered list of
    root calls, and every call (`PerformanceData`) owns an ordered list of
    nested calls. Times are integer ticks of 100 ns, as in .NET's DateTime
    and TimeSpan. */
module TraceModel {
  import opened Wrappers

  /** A point in time, in ticks */
  type Ticks = int

  /** A string to string dictionary; enumeration order is not modelled */
  type Metadata = map<string, string>

  /** `JsonConvert.SerializeObject` on a metadata map, left uninterpreted */
  type Serializer = Metadata -> string

  /** A GUID; only its identity matters here */
  datatype Guid = Guid(value: nat)

  /** The all-zero GUID a node carries when its document has no identifier */
  const EmptyGuid: Guid := Guid(0)

  /** One recorded call. A child slot may hold a null reference. */
  datatype PerformanceData = PerformanceData(
    className: string,
    methodName: string,
    startTime: Ticks,
    executionTime: nat,
    metadata: Metadata,
    subMethods: seq<Option<PerformanceData>>,
    id: Guid)

  /** One capture session. `Metadata` and `Data` may be null after
      deserialisation, hence the options. */
  datatype PerformanceLog = PerformanceLog(
    id: Guid,
    name: string,
    startTime: Ticks,
    metadata: Option<Metadata>,
    data: Option<seq<Option<PerformanceData>>>)

  /** The metadata rule shared by runs and calls: serialise only when non-empty */
  predicate HasMetadata(m: Metadata) {
    |m| > 0
  }

  /** A run as the property initialisers leave it: empty metadata and no calls */
  function NewLog(id: Guid, name: string, startTime: Ticks): (log: PerformanceLog)
    ensures log.metadata == Some(map[]) && log.data == Some([])
    ensures log.id == id && log.name == name && log.startTime == startTime
  {
    PerformanceLog(id, name, startTime, Some(map[]), Some([]))
  }

  /** `Any`: the null-safe "has metadata or has calls". An entry of `Data`
      counts even when it is a null reference. */
  predicate Any(log: PerformanceLog) {
    (log.metadata.Some? && |log.metadata.value| > 0) || (log.data.Some? && |log.data.value| > 0)
  }

  /** `ShouldSerializeMetadata`: dereferences `Metadata`, so a null map is
      outside its domain */
  predicate ShouldSerializeMetadata(log: PerformanceLog)
    requires log.metadata.Some?
  {
    HasMetadata(log.metadata.value)
  }

  lemma ShouldSerializeIffNonEmpty(log: PerformanceLog)
    requires log.metadata.Some?
    ensures ShouldSerializeMetadata(log) <==> exists k :: k in log.metadata.value
  {
    if ShouldSerializeMetadata(log) {
      var m := log.metadata.value;
      assert |m.Keys| > 0;
      var k :| k in m.Keys;
    }
  }

  /** Serialising the metadata implies `Any`, but not conversely */
  lemma ShouldSerializeImpliesAny(log: PerformanceLog)
    requires log.metadata.Some?
    ensures ShouldSerializeMetadata(log) ==> Any(log)
    ensures !ShouldSerializeMetadata(log) ==> (Any(log) <==> log.data.Some? && |log.data.value| > 0)
  {
  }

  /** `Any` is the null-safe disjunction: a null map or null list is empty */
  lemma AnyTreatsNullAsEmpty(log: PerformanceLog)
    ensures log.metadata.None? && log.data.None? ==> !Any(log)
    ensures log.metadata.None? ==> (Any(log) <==> Any(log.(metadata := Some(map[]))))
    ensures log.data.None? ==> (Any(log) <==> Any(log.(data := Some([]))))
  {
  }

  /** `Any` ignores the run's identifier, name and start time */
  lemma AnyIgnoresHeader(log: PerformanceLog, id: Guid, name: string, startTime: Ticks)
    ensures Any(log.(id := id, name := name, startTime := startTime)) == Any(log)
  {
  }

  /** A freshly constructed run is neither `Any` nor serialises metadata */
  lemma NewLogIsEmpty(id: Guid, name: string, startTime: Ticks)
    ensures !Any(NewLog(id, name, startTime))
    ensures !ShouldSerializeMetadata(NewLog(id, name, startTime))
  {
  }

  /** A run with calls but no metadata is `Any` without serialising metadata */
  lemma CallsWithoutMetadata(log: PerformanceLog)
    requires log.metadata == Some(map[])
    requires log.data.Some? && |log.data.value| > 0
    ensures Any(log) && !ShouldSerializeMetadata(log)
  {
  }
}
