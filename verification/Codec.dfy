/** The stored form of a snapshot: its payload and the trend rows derived from it. */
module Codec {
  import opened Lists
  import opened Ordering
  import opened Signal
  import opened Snapshot
  import Clock
  import Sorting
  import Text

  const MAX_PAYLOAD_BYTES := 0x100_0000
  const MAX_TREND_ROWS := 100000

  /** Library functions the store relies on: the digest in snapshot ids, and JSON both ways.  P is the type
      of a payload's bytes; a snapshot that cannot be marshalled gives None. */
  datatype Library<!P> = Library(
    hash: string -> string,
    marshal: Snapshot -> Option<P>,
    unmarshal: P -> Option<Snapshot>,
    size: P -> nat)

  /** The digest is ideal, and JSON gives back what it was given. */
  ghost predicate Faithful<P>(lib: Library<P>) {
    && Ideal(lib.hash)
    && forall s | lib.marshal(s).Some? ::
         lib.unmarshal(lib.marshal(s).value) == Some(s) && lib.size(lib.marshal(s).value) > 0
  }

  /** There are such libraries, also ones that marshal every snapshot: the bytes of a digest may be its
      seed, and those of a payload the snapshot. */
  lemma FaithfulLibraryExists() returns (lib: Library<Snapshot>)
    ensures Faithful(lib)
    ensures forall s :: Encodable(lib, s)
  {
    lib := Library((seed: string) => "#" + seed, (s: Snapshot) => Some(s), (s: Snapshot) => Some(s), (s: Snapshot) => 1);
    forall a, b | lib.hash(a) == lib.hash(b) ensures a == b {
      assert a == lib.hash(a)[1..] && b == lib.hash(b)[1..];
    }
  }

  // ---- payloads -------------------------------------------------------------------------------

  function ValidateSnapshot<P>(lib: Library<P>, s: Snapshot): Result<Snapshot> {
    if s.schemaVersion != SCHEMA_VERSION then Err("unsupported snapshot schema version")
    else
      var normalized := NewSnapshot(lib.hash, InputOf(s));
      if normalized.Err? then Err("validate SQLite snapshot payload")
      else if normalized.value.id != s.id then Err("SQLite snapshot payload ID does not match target/time identity")
      else normalized
  }

  function EncodeSnapshot<P>(lib: Library<P>, s: Snapshot): Result<P> {
    var normalized := ValidateSnapshot(lib, s);
    if normalized.Err? then Err(normalized.message)
    else
      var payload := lib.marshal(normalized.value);
      if payload.None? then Err("encode SQLite snapshot payload")
      else if lib.size(payload.value) > MAX_PAYLOAD_BYTES then Err("SQLite snapshot payload exceeds the limit")
      else Ok(payload.value)
  }

  function DecodeSnapshot<P>(lib: Library<P>, payload: P): Result<Snapshot> {
    if lib.size(payload) == 0 then Err("SQLite snapshot payload is empty")
    else if lib.size(payload) > MAX_PAYLOAD_BYTES then Err("SQLite snapshot payload exceeds the limit")
    else
      var s := lib.unmarshal(payload);
      if s.None? then Err("decode SQLite snapshot payload") else ValidateSnapshot(lib, s.value)
  }

  /** JSON takes the snapshot, and its payload is not too long. */
  predicate Encodable<P>(lib: Library<P>, s: Snapshot) {
    lib.marshal(s).Some? && lib.size(lib.marshal(s).value) <= MAX_PAYLOAD_BYTES
  }

  /** Validation accepts a snapshot in normal form as it is, and gives only such snapshots. */
  lemma ValidateNormal<P>(lib: Library<P>, s: Snapshot)
    ensures Normal(lib.hash, s) ==> ValidateSnapshot(lib, s) == Ok(s)
    ensures ValidateSnapshot(lib, s).Ok? ==> Normal(lib.hash, ValidateSnapshot(lib, s).value)
    ensures ValidateSnapshot(lib, s).Ok? ==>
      ValidateSnapshot(lib, s) == NewSnapshot(lib.hash, InputOf(s)) && ValidateSnapshot(lib, s).value.id == s.id
  {
    if ValidateSnapshot(lib, s).Ok? {
      NewSnapshotIdempotent(lib.hash, InputOf(s), ValidateSnapshot(lib, s).value);
    }
  }

  /** A snapshot that the store takes: of the current schema, with the parts it must have, under its own id. */
  predicate Acceptable(hash: string -> string, s: Snapshot) {
    && s.schemaVersion == "dbprobe.snapshot/v1alpha1"
    && s.target != "" && s.engine != "" && s.adapterId != "" && s.collectedAt != Clock.Fields(1, 1, 1, 0, 0, 0, 0)
    && s.id == hash(s.target + "|" + Clock.Format(s.collectedAt))
  }

  /** Validation takes exactly these, and changes only what normal form takes away. */
  lemma ValidateAccepts<P>(lib: Library<P>, s: Snapshot)
    ensures ValidateSnapshot(lib, s).Ok? <==> Acceptable(lib.hash, s)
    ensures ValidateSnapshot(lib, s).Ok? ==>
      var n := ValidateSnapshot(lib, s).value;
      && n == s.(capabilities := n.capabilities, observations := n.observations, findings := n.findings)
      && Increasing(n.capabilities) && (forall c :: c in n.capabilities <==> c in s.capabilities)
      && n.observations == Cloned(s.observations) && |n.findings| == |s.findings|
      && forall i | 0 <= i < |s.findings| :: n.findings[i] == s.findings[i].(evidence := Cloned(s.findings[i].evidence))
  {
  }

  /** A payload decodes exactly if it is not empty nor too long and is the JSON of such a snapshot. */
  lemma DecodeAccepts<P>(lib: Library<P>, payload: P)
    ensures DecodeSnapshot(lib, payload).Ok? <==>
      && 0 < lib.size(payload) <= 16 * 1024 * 1024
      && lib.unmarshal(payload).Some? && Acceptable(lib.hash, lib.unmarshal(payload).value)
  {
    if lib.unmarshal(payload).Some? {
      ValidateAccepts(lib, lib.unmarshal(payload).value);
    }
  }

  /** A snapshot in normal form that can be encoded survives the way through its payload. */
  lemma NormalRoundTrip<P>(lib: Library<P>, s: Snapshot)
    requires Faithful(lib) && Normal(lib.hash, s) && Encodable(lib, s)
    ensures DecodeSnapshot(lib, lib.marshal(s).value) == Ok(s)
    ensures EncodeSnapshot(lib, s) == Ok(lib.marshal(s).value)
  {
    assert ValidateSnapshot(lib, s) == Ok(s) by { ValidateNormal(lib, s); }
    var payload := lib.marshal(s).value;
    assert lib.unmarshal(payload) == Some(s) && lib.size(payload) > 0;
  }

  /** What was encoded decodes to the snapshot's normal form. */
  lemma RoundTrip<P>(lib: Library<P>, s: Snapshot)
    requires Faithful(lib) && EncodeSnapshot(lib, s).Ok?
    ensures DecodeSnapshot(lib, EncodeSnapshot(lib, s).value) == NewSnapshot(lib.hash, InputOf(s))
    ensures DecodeSnapshot(lib, EncodeSnapshot(lib, s).value) == ValidateSnapshot(lib, s)
  {
    ValidateNormal(lib, s);
    var normalized := ValidateSnapshot(lib, s).value;
    ValidateNormal(lib, normalized);
    assert lib.unmarshal(lib.marshal(normalized).value) == Some(normalized);
  }

  // ---- trend rows -----------------------------------------------------------------------------

  datatype MetricKind = ObservationMetric | DeltaMetric

  datatype TrendMetric = TrendMetric(
    snapshotId: string,
    kind: MetricKind,
    key: string,
    obj: Ref,
    value: real,
    unit: string,
    exactness: string,
    ratePerSecond: Option<real>,
    windowSeconds: Option<real>)

  function ObservationTrend(id: string): Observation -> Option<TrendMetric> {
    (o: Observation) =>
      if o.number.None? then None
      else Some(TrendMetric(id, ObservationMetric, o.key, o.obj, o.number.value, o.unit, o.exactness, None, None))
  }

  function DeltaTrend(id: string): Delta -> TrendMetric {
    (d: Delta) =>
      TrendMetric(id, DeltaMetric, d.key, d.obj, d.delta, d.unit, d.exactness, Some(d.ratePerSecond), Some(d.windowSeconds))
  }

  /** One row for every numeric observation and every delta. */
  function TrendRows(s: Snapshot): seq<TrendMetric> {
    FilterMap(s.observations, ObservationTrend(s.id)) + Map(s.deltas, DeltaTrend(s.id))
  }

  function KindRank(t: TrendMetric): string {
    if t.kind == ObservationMetric then "0" else "1"
  }

  function TrendKey(t: TrendMetric): string { t.key }

  function TrendObjectKind(t: TrendMetric): string { t.obj.kind }

  function TrendObjectId(t: TrendMetric): string { t.obj.id }

  function TrendOrder(): (TrendMetric, TrendMetric) -> bool {
    ThenBy(KindRank, ThenBy(TrendKey, ThenBy(TrendObjectKind, KeyOrder(TrendObjectId))))
  }

  lemma TrendOrderIsWeakOrder()
    ensures Sorting.WeakOrder(TrendOrder())
  {
    KeyOrderIsWeakOrder(TrendObjectId);
    ThenByIsWeakOrder(TrendObjectKind, KeyOrder(TrendObjectId));
    ThenByIsWeakOrder(TrendKey, ThenBy(TrendObjectKind, KeyOrder(TrendObjectId)));
    ThenByIsWeakOrder(KindRank, ThenBy(TrendKey, ThenBy(TrendObjectKind, KeyOrder(TrendObjectId))));
  }

  /** The trend rows, sorted, unless there are too many. */
  method ExtractTrendMetrics(s: Snapshot) returns (r: Result<seq<TrendMetric>>)
    ensures r.Ok? <==> |TrendRows(s)| <= MAX_TREND_ROWS
    ensures r.Ok? ==> multiset(r.value) == multiset(TrendRows(s)) && Sorting.SortedBy(r.value, TrendOrder())
  {
    var numeric := 0;
    for i := 0 to |s.observations|
      invariant numeric == |FilterMap(s.observations[..i], ObservationTrend(s.id))|
    {
      FilterMapStep(s.observations, i, ObservationTrend(s.id));
      if s.observations[i].number.Some? {
        numeric := numeric + 1;
      }
    }
    assert s.observations[..|s.observations|] == s.observations;
    if numeric + |s.deltas| > MAX_TREND_ROWS {
      return Err("SQLite trend metric row budget exceeded");
    }
    var rows := [];
    for i := 0 to |s.observations|
      invariant rows == FilterMap(s.observations[..i], ObservationTrend(s.id))
    {
      FilterMapStep(s.observations, i, ObservationTrend(s.id));
      var row := ObservationTrend(s.id)(s.observations[i]);
      if row.Some? {
        rows := rows + [row.value];
      }
    }
    ghost var observed := rows;
    for i := 0 to |s.deltas|
      invariant rows == observed + Map(s.deltas, DeltaTrend(s.id))[..i]
    {
      rows := rows + [DeltaTrend(s.id)(s.deltas[i])];
    }
    assert rows == TrendRows(s);
    TrendOrderIsWeakOrder();
    rows := Sorting.Sort(rows, TrendOrder());
    return Ok(rows);
  }

  lemma TrendRowsCarryTheId(s: Snapshot)
    ensures forall t | t in TrendRows(s) :: t.snapshotId == s.id
  {
    FilterMapMembers(s.observations, ObservationTrend(s.id));
  }

  // ---- what a trend row says ------------------------------------------------------------------

  predicate RowOfObservation(t: TrendMetric, id: string, o: Observation) {
    && t.snapshotId == id && t.kind == ObservationMetric && t.key == o.key && t.obj == o.obj
    && o.number == Some(t.value) && t.unit == o.unit && t.exactness == o.exactness
    && t.ratePerSecond == None && t.windowSeconds == None
  }

  predicate RowOfDelta(t: TrendMetric, id: string, d: Delta) {
    && t.snapshotId == id && t.kind == DeltaMetric && t.key == d.key && t.obj == d.obj
    && t.value == d.delta && t.unit == d.unit && t.exactness == d.exactness
    && t.ratePerSecond == Some(d.ratePerSecond) && t.windowSeconds == Some(d.windowSeconds)
  }

  /** First a row for each numeric observation, then one for each delta, column by column. */
  lemma TrendRowsMeaning(s: Snapshot) returns (at: seq<nat>)
    ensures Positions(at, |s.observations|) && |TrendRows(s)| == |at| + |s.deltas|
    ensures forall j | 0 <= j < |s.observations| :: j in at <==> s.observations[j].number.Some?
    ensures forall i | 0 <= i < |at| :: RowOfObservation(TrendRows(s)[i], s.id, s.observations[at[i]])
    ensures forall j | 0 <= j < |s.deltas| :: RowOfDelta(TrendRows(s)[|at| + j], s.id, s.deltas[j])
  {
    at := FilterMapPositions(s.observations, ObservationTrend(s.id));
    forall i | 0 <= i < |at| ensures RowOfObservation(TrendRows(s)[i], s.id, s.observations[at[i]]) {
      assert ObservationTrend(s.id)(s.observations[at[i]]) == Some(TrendRows(s)[i]);
    }
  }

  /** Rows are in order: those of observations first, then by key, kind and id of the object. */
  lemma TrendOrderMeaning(rows: seq<TrendMetric>, i: nat, j: nat)
    requires Sorting.SortedBy(rows, TrendOrder()) && i < j < |rows|
    ensures var t, u := rows[i], rows[j];
      && !(t.kind == DeltaMetric && u.kind == ObservationMetric)
      && (t.kind == u.kind ==> !Text.Less(u.key, t.key))
      && (t.kind == u.kind && t.key == u.key ==> !Text.Less(u.obj.kind, t.obj.kind))
      && (t.kind == u.kind && t.key == u.key && t.obj.kind == u.obj.kind ==> !Text.Less(u.obj.id, t.obj.id))
  {
    var t, u := rows[i], rows[j];
    var byId := KeyOrder(TrendObjectId);
    var byKind := ThenBy(TrendObjectKind, byId);
    var byKey := ThenBy(TrendKey, byKind);
    ThenByMeaning(KindRank, byKey, t, u);
    if t.kind == u.kind {
      ThenByMeaning(TrendKey, byKind, t, u);
      if t.key == u.key {
        ThenByMeaning(TrendObjectKind, byId, t, u);
        if t.obj.kind == u.obj.kind {
          assert !byId(u, t);
          assert !Text.Less(TrendObjectId(u), TrendObjectId(t));
        }
      }
    } else if t.kind == DeltaMetric {
      assert Text.Less("0", "1");
    }
  }
}
