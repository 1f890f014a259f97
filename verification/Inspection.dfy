/** The inspect use case, as far as it decides which runs enter history. */
module Inspection {
  import opened Lists
  import opened Signal
  import opened Snapshot
  import opened Listing = History
  import opened Codec
  import opened BaselineStore
  import SqliteStore
  import Clock
  import Collection

  datatype Target = Target(fingerprint: string, engine: string, adapterId: string)

  datatype Report = Report(
    collectedAt: Clock.Time,
    target: Target,
    capabilities: seq<string>,
    observations: seq<Observation>,
    deltas: seq<Delta>,
    findings: seq<Finding>,
    warnings: seq<Collection.Warning>)

  const SKIPPED := Collection.Warning("history", "snapshot persistence skipped because inspection evidence is incomplete")
  const FAILED := Collection.Warning("history", "snapshot persistence failed")

  function SnapshotOf(hash: string -> string, r: Report, adapterVersion: string): Result<Snapshot> {
    NewSnapshot(hash, SnapshotInput(r.target.fingerprint, r.target.engine, r.target.adapterId, adapterVersion,
      r.collectedAt, r.capabilities, r.observations, r.deltas, r.findings))
  }

  /** A report with warnings leaves the store alone; any other is recorded or answered with a warning. */
  method PersistHistory<P(!new, ==)>(store: Option<Store<P>>, r: Report, adapterVersion: string, fault: SqliteStore.Fault)
    returns (warning: Option<Collection.Warning>)
    requires store.Some? ==> store.value.Valid()
    modifies if store.Some? then store.value.Footprint() else {}
    ensures store.None? ==> warning == None
    ensures store.Some? ==> store.value.Valid()
    ensures store.Some? && r.warnings != [] ==> warning == Some(SKIPPED)
    ensures store.Some? && r.warnings == [] ==>
      var s := SnapshotOf(store.value.Hash(), r, adapterVersion);
      warning == if s.Err? || old(store.value.Refuses(s.value, fault)) then Some(FAILED) else None
    ensures store.Some? && warning.Some? ==> store.value.History() == old(store.value.History())
    ensures store.Some? && warning.None? ==>
      store.value.History() == Record(old(store.value.History()), SnapshotOf(store.value.Hash(), r, adapterVersion).value)
  {
    if store.None? {
      return None;
    }
    if |r.warnings| > 0 {
      return Some(SKIPPED);
    }
    var snapshot := BuildSnapshot(store.value.Hash(), SnapshotInput(r.target.fingerprint, r.target.engine, r.target.adapterId,
      adapterVersion, r.collectedAt, r.capabilities, r.observations, r.deltas, r.findings));
    if snapshot.Err? {
      return Some(FAILED);
    }
    BuiltIsNormal(store.value.Hash(), r, adapterVersion);
    var err := store.value.Save(snapshot.value, fault);
    if err.Some? {
      return Some(FAILED);
    }
    return None;
  }

  lemma BuiltIsNormal(hash: string -> string, r: Report, adapterVersion: string)
    requires SnapshotOf(hash, r, adapterVersion).Ok?
    ensures Normal(hash, SnapshotOf(hash, r, adapterVersion).value)
  {
    NewSnapshotIdempotent(hash, SnapshotInput(r.target.fingerprint, r.target.engine, r.target.adapterId, adapterVersion,
      r.collectedAt, r.capabilities, r.observations, r.deltas, r.findings), SnapshotOf(hash, r, adapterVersion).value);
  }

  // ---- whole inspections ----------------------------------------------------------------------

  /** Everything an inspection depends on: the opened runtime, the clock and the rules' findings. */
  datatype Request = Request(
    target: Target,
    adapterVersion: string,
    caps: set<string>,
    capabilities: seq<string>,
    collectors: seq<Collection.Collector>,
    window: int,
    cancellation: Collection.Cancellation,
    collectedAt: Clock.Time,
    findings: Collection.Report -> seq<Finding>)

  /** The snapshot is of the request's target and time, and comes from a run that was complete: every eligible collector was supported and failed
      in no phase, and no paired counter fell. */
  ghost predicate FromCompleteRun(s: Snapshot, req: Request, collected: Collection.Report) {
    && Collection.IsReport(req.caps, req.collectors, req.window, collected)
    && Collection.Complete(req.caps, req.collectors)
    && s.observations == Cloned(collected.observations) && s.deltas == collected.deltas
    && s.target == req.target.fingerprint && s.collectedAt == req.collectedAt
  }

  /** One inspection leaves the history alone or records a snapshot of a complete run. */
  ghost predicate Step(h: set<Snapshot>, req: Request, next: set<Snapshot>) {
    next == h || exists s, collected :: FromCompleteRun(s, req, collected) && next == Record(h, s)
  }

  lemma CompleteStep(hash: string -> string, h: set<Snapshot>, req: Request, r: Report, collected: Collection.Report, next: set<Snapshot>)
    requires Collection.IsReport(req.caps, req.collectors, req.window, collected)
    requires r.observations == collected.observations && r.deltas == collected.deltas && r.warnings == collected.warnings == []
    requires r.target == req.target && r.collectedAt == req.collectedAt
    requires SnapshotOf(hash, r, req.adapterVersion).Ok?
    requires next == Record(h, SnapshotOf(hash, r, req.adapterVersion).value)
    ensures Step(h, req, next)
  {
    Collection.WarningFreeIffComplete(req.caps, req.collectors, req.window, collected);
    assert FromCompleteRun(SnapshotOf(hash, r, req.adapterVersion).value, req, collected);
  }

  /** A report shows the request's target, time and capabilities, what the planner collected and what the rules
      found in it; it has the planner's warnings and perhaps one about history. */
  ghost predicate Shows(r: Report, req: Request, collected: Collection.Report) {
    && Collection.IsReport(req.caps, req.collectors, req.window, collected)
    && r.target == req.target && r.collectedAt == req.collectedAt && r.capabilities == req.capabilities
    && r.observations == collected.observations && r.deltas == collected.deltas && r.findings == req.findings(collected)
    && (r.warnings == collected.warnings || r.warnings == collected.warnings + [SKIPPED] || r.warnings == collected.warnings + [FAILED])
  }

  method Run<P(!new, ==)>(planner: Collection.Planner, store: Store<P>, req: Request, fault: SqliteStore.Fault) returns (r: Result<Report>)
    requires store.Valid()
    modifies store.Footprint()
    ensures store.Valid()
    ensures Step(old(store.History()), req, store.History())
    ensures r.Err? <==> Collection.RunError(req.caps, req.collectors, req.window, req.cancellation).Some?
    ensures r.Ok? && store.History() != old(store.History()) ==> r.value.warnings == []
    ensures r.Ok? ==> exists collected :: Shows(r.value, req, collected)
    ensures r.Ok? && r.value.warnings == [] ==> SnapshotOf(store.Hash(), r.value, req.adapterVersion).Ok?
    ensures r.Ok? && r.value.warnings == [] ==>
      store.History() == Record(old(store.History()), SnapshotOf(store.Hash(), r.value, req.adapterVersion).value)
  {
    var collected := planner.Run(req.caps, req.collectors, req.window, req.cancellation);
    if collected.Err? {
      return Err(collected.message);
    }
    var c := collected.value;
    var report := Report(req.collectedAt, req.target, req.capabilities, c.observations, c.deltas, req.findings(c), c.warnings);
    ghost var before := store.History();
    var warning := PersistHistory(Some(store), report, req.adapterVersion, fault);
    if warning.None? {
      CompleteStep(store.Hash(), before, req, report, c, store.History());
    } else {
      report := report.(warnings := report.warnings + [warning.value]);
    }
    assert Shows(report, req, c);
    return Ok(report);
  }

  // ---- every history ---------------------------------------------------------------------------

  /** The histories after each of a sequence of inspections. */
  ghost predicate IsTrace(hs: seq<set<Snapshot>>, reqs: seq<Request>) {
    && |hs| == |reqs| + 1 && hs[0] == {}
    && forall i | 0 <= i < |reqs| :: Step(hs[i], reqs[i], hs[i + 1])
  }

  ghost predicate HasCompleteRun(s: Snapshot, reqs: seq<Request>) {
    exists i, collected :: 0 <= i < |reqs| && FromCompleteRun(s, reqs[i], collected)
  }

  /** Every snapshot that ever enters history comes from a complete run. */
  lemma {:induction false} OnlyCompleteRunsEnterHistory(hs: seq<set<Snapshot>>, reqs: seq<Request>)
    requires IsTrace(hs, reqs)
    ensures forall s | s in hs[|reqs|] :: HasCompleteRun(s, reqs)
  {
    if reqs != [] {
      var n := |reqs| - 1;
      OnlyCompleteRunsEnterHistory(hs[..n + 1], reqs[..n]);
      assert Step(hs[n], reqs[n], hs[n + 1]);
      forall s | s in hs[n + 1] ensures HasCompleteRun(s, reqs) {
        if s in hs[n] {
          assert HasCompleteRun(s, reqs[..n]);
          var i, collected :| 0 <= i < n && FromCompleteRun(s, reqs[..n][i], collected);
          assert FromCompleteRun(s, reqs[i], collected);
        } else {
          var r, collected :| FromCompleteRun(r, reqs[n], collected) && hs[n + 1] == Record(hs[n], r);
          assert s == r;
        }
      }
    }
  }

  /** And none of them holds a negative delta. */
  lemma HistoryHasNoNegativeDeltas(hs: seq<set<Snapshot>>, reqs: seq<Request>)
    requires IsTrace(hs, reqs)
    ensures forall s, d | s in hs[|reqs|] && d in s.deltas :: d.delta >= 0.0
  {
    OnlyCompleteRunsEnterHistory(hs, reqs);
    forall s, d | s in hs[|reqs|] && d in s.deltas ensures d.delta >= 0.0 {
      var i, collected :| 0 <= i < |reqs| && FromCompleteRun(s, reqs[i], collected);
      Collection.DeltasNeverNegative(reqs[i].caps, reqs[i].collectors, reqs[i].window, collected);
    }
  }

  lemma TraceOneMore(hs: seq<set<Snapshot>>, reqs: seq<Request>, i: nat, h: set<Snapshot>)
    requires i < |reqs| && IsTrace(hs, reqs[..i]) && Step(hs[i], reqs[i], h)
    ensures IsTrace(hs + [h], reqs[..i + 1])
  {
  }

  /** Any number of inspections, starting with an empty history: the histories they leave are a trace, so
      what the store holds at the end comes from complete runs only. */
  method RunEach<P(!new, ==)>(planner: Collection.Planner, store: Store<P>, reqs: seq<Request>, faults: seq<SqliteStore.Fault>)
    returns (ghost hs: seq<set<Snapshot>>)
    requires store.Valid() && store.History() == {} && |faults| == |reqs|
    modifies store.Footprint()
    ensures store.Valid()
    ensures IsTrace(hs, reqs) && hs[|reqs|] == store.History()
    ensures forall s | s in store.History() :: HasCompleteRun(s, reqs)
    ensures forall s, d | s in store.History() && d in s.deltas :: d.delta >= 0.0
  {
    hs := [{}];
    for i := 0 to |reqs|
      invariant store.Valid()
      invariant IsTrace(hs, reqs[..i]) && hs[i] == store.History()
    {
      var r := Run(planner, store, reqs[i], faults[i]);
      TraceOneMore(hs, reqs, i, store.History());
      hs := hs + [store.History()];
    }
    assert reqs[..|reqs|] == reqs;
    OnlyCompleteRunsEnterHistory(hs, reqs);
    HistoryHasNoNegativeDeltas(hs, reqs);
  }
}
