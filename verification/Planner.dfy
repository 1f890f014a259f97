/**
  The collection planner: snapshot collectors once, counter collectors twice around a waiting
  window, and the join of the two samples into deltas.

  `collect` gives what a collector returns in a phase.  `RunPool` runs the transition system of
  module WorkerPool under an arbitrary scheduler.
 */
module Collection {
  import opened Lists
  import opened Ordering
  import opened Signal
  import Text
  import Sorting
  import WorkerPool

  datatype Phase = Single | SampleA | SampleB

  const STRATEGY_SNAPSHOT := "snapshot"
  const STRATEGY_COUNTER := "counter"

  datatype Descriptor = Descriptor(id: string, capabilities: seq<string>, strategy: string)

  /** A collector may return observations and an error at once. */
  datatype Sample = Sample(observed: seq<Observation>, err: Option<string>)

  datatype Collector = Collector(descriptor: Descriptor, collect: Phase -> Sample)

  datatype Warning = Warning(collector: string, reason: string)

  datatype Report = Report(observations: seq<Observation>, deltas: seq<Delta>, warnings: seq<Warning>)

  datatype BatchResult = BatchResult(descriptor: Descriptor, sample: Sample)

  /** Which of the blocking calls of a run the context cancels. */
  datatype Cancellation = Cancellation(single: bool, sampleA: bool, wait: bool, sampleB: bool)

  const CANCELED := "context canceled"
  const WINDOW_REQUIRED := "sample window must be positive for counter collectors"
  const UNSUPPORTED := "unsupported collection strategy"

  // ---- what is collected --------------------------------------------------------------------

  predicate Eligible(caps: set<string>, c: Collector) {
    forall need | need in c.descriptor.capabilities :: need in caps
  }

  predicate Supported(c: Collector) {
    c.descriptor.strategy == STRATEGY_SNAPSHOT || c.descriptor.strategy == STRATEGY_COUNTER
  }

  /** The eligible collectors of one strategy, in their order. */
  function Select(cs: seq<Collector>, caps: set<string>, strategy: string): seq<Collector> {
    FilterMap(cs, Chosen(caps, strategy))
  }

  function Chosen(caps: set<string>, strategy: string): Collector -> Option<Collector> {
    (c: Collector) => if Eligible(caps, c) && c.descriptor.strategy == strategy then Some(c) else None
  }

  function UnsupportedWarnings(cs: seq<Collector>, caps: set<string>): seq<Warning> {
    FilterMap(cs, UnsupportedWarning(caps))
  }

  function UnsupportedWarning(caps: set<string>): Collector -> Option<Warning> {
    (c: Collector) => if Eligible(caps, c) && !Supported(c) then Some(Warning(c.descriptor.id, UNSUPPORTED)) else None
  }

  /** What each collector returns in a phase. */
  function Batch(cs: seq<Collector>, phase: Phase): (results: seq<BatchResult>)
    ensures |results| == |cs|
    ensures forall i | 0 <= i < |cs| :: results[i].descriptor == cs[i].descriptor && results[i].sample == cs[i].collect(phase)
  {
    seq(|cs|, i requires 0 <= i < |cs| => BatchResult(cs[i].descriptor, cs[i].collect(phase)))
  }

  function Observed(batch: seq<BatchResult>): seq<Observation> {
    FlatMap(batch, ObservedBy)
  }

  function ObservedBy(r: BatchResult): seq<Observation> {
    r.sample.observed
  }

  function Failures(batch: seq<BatchResult>): seq<Warning> {
    FilterMap(batch, Failure)
  }

  function Failure(r: BatchResult): Option<Warning> {
    if r.sample.err.Some? then Some(Warning(r.descriptor.id, r.sample.err.value)) else None
  }

  // ---- the two-phase join -------------------------------------------------------------------

  /** An observation with the collector that made it. */
  datatype Sighting = Sighting(collector: string, o: Observation)

  function SightingsOf(collector: string, observed: seq<Observation>): (r: seq<Sighting>) {
    seq(|observed|, i requires 0 <= i < |observed| => Sighting(collector, observed[i]))
  }

  function Sightings(batch: seq<BatchResult>): seq<Sighting> {
    FlatMap(batch, SightingsIn)
  }

  function SightingsIn(r: BatchResult): seq<Sighting> {
    SightingsOf(r.descriptor.id, r.sample.observed)
  }

  function JoinKey(s: Sighting): string {
    s.collector + "|" + Identity(s.o)
  }

  /** What the map of first samples holds for a key after all of `a` was written to it. */
  function LastWritten(a: seq<Sighting>, key: string): Option<Observation> {
    if a == [] then None
    else if JoinKey(a[|a| - 1]) == key then Some(a[|a| - 1].o)
    else LastWritten(a[..|a| - 1], key)
  }

  function Seconds(window: int): real {
    window as real / 1_000_000_000.0
  }

  function ResetReason(o: Observation): string {
    "counter reset detected for " + Identity(o)
  }

  /** Both numbers, first sample first, when the join pairs b with a first sample. */
  function Paired(a: seq<Sighting>, b: Sighting): Option<(real, real)> {
    var previous := LastWritten(a, JoinKey(b));
    if previous.Some? && previous.value.number.Some? && b.o.number.Some?
    then Some((previous.value.number.value, b.o.number.value))
    else None
  }

  function DeltaOf(a: seq<Sighting>, window: int, b: Sighting): Option<Delta>
    requires window > 0
  {
    match Paired(a, b)
    case None => None
    case Some((x, y)) =>
      if y < x then None
      else Some(Delta(b.o.key, b.o.obj, b.o.unit, y - x, (y - x) / Seconds(window), Seconds(window), EXACTNESS_SAMPLED))
  }

  function ResetOf(a: seq<Sighting>, b: Sighting): Option<Warning> {
    match Paired(a, b)
    case None => None
    case Some((x, y)) => if y < x then Some(Warning(b.collector, ResetReason(b.o))) else None
  }

  function DeltaRule(a: seq<Sighting>, window: int): Sighting -> Option<Delta>
    requires window > 0
  {
    (b: Sighting) => DeltaOf(a, window, b)
  }

  function ResetRule(a: seq<Sighting>): Sighting -> Option<Warning> {
    (b: Sighting) => ResetOf(a, b)
  }

  function Deltas(a: seq<Sighting>, bs: seq<Sighting>, window: int): seq<Delta>
    requires window > 0
  {
    FilterMap(bs, DeltaRule(a, window))
  }

  function Resets(a: seq<Sighting>, bs: seq<Sighting>): seq<Warning> {
    FilterMap(bs, ResetRule(a))
  }

  /** a[m] is the last sighting in `a` with b's key, and both carry a number. */
  ghost predicate Pairs(a: seq<Sighting>, m: nat, b: Sighting) {
    && m < |a| && JoinKey(a[m]) == JoinKey(b)
    && (forall k | m < k < |a| :: JoinKey(a[k]) != JoinKey(b))
    && a[m].o.number.Some? && b.o.number.Some?
  }

  lemma {:induction false} LastWrittenIsLast(a: seq<Sighting>, key: string) returns (m: nat)
    ensures LastWritten(a, key).Some? ==>
      m < |a| && JoinKey(a[m]) == key && LastWritten(a, key).value == a[m].o &&
      forall k | m < k < |a| :: JoinKey(a[k]) != key
    ensures LastWritten(a, key).None? ==> forall k | 0 <= k < |a| :: JoinKey(a[k]) != key
  {
    m := 0;
    if a != [] {
      if JoinKey(a[|a| - 1]) == key {
        m := |a| - 1;
      } else {
        m := LastWrittenIsLast(a[..|a| - 1], key);
      }
    }
  }

  /** The delta tells how far the counter went from x, and its rate over the window gives it back. */
  ghost predicate Measures(d: Delta, x: real, b: Observation, window: int) {
    && d.key == b.key && d.obj == b.obj && d.unit == b.unit && d.exactness == EXACTNESS_SAMPLED
    && b.number.Some? && d.delta == b.number.value - x >= 0.0
    && d.windowSeconds * 1_000_000_000.0 == window as real && d.ratePerSecond * d.windowSeconds == d.delta
  }

  ghost predicate Grows(a: seq<Sighting>, b: Sighting) {
    exists m: nat :: Pairs(a, m, b) && a[m].o.number.value <= b.o.number.value
  }

  ghost predicate Shrinks(a: seq<Sighting>, b: Sighting) {
    exists m: nat :: Pairs(a, m, b) && b.o.number.value < a[m].o.number.value
  }

  ghost predicate IsDeltaOf(d: Delta, a: seq<Sighting>, b: Sighting, window: int) {
    exists m: nat :: Pairs(a, m, b) && Measures(d, a[m].o.number.value, b.o, window)
  }

  lemma RateTimesWindow(d: real, seconds: real)
    requires seconds > 0.0
    ensures d / seconds * seconds == d
  {
  }

  /** A second sample is judged against its partner in the first sample, and only if it has one. */
  lemma JudgeMeaning(a: seq<Sighting>, b: Sighting, window: int)
    requires window > 0
    ensures DeltaOf(a, window, b).Some? <==> Grows(a, b)
    ensures ResetOf(a, b).Some? <==> Shrinks(a, b)
    ensures DeltaOf(a, window, b).Some? ==> IsDeltaOf(DeltaOf(a, window, b).value, a, b, window)
  {
    var last := LastWrittenIsLast(a, JoinKey(b));
    forall m: nat | Pairs(a, m, b) ensures m == last && LastWritten(a, JoinKey(b)) == Some(a[m].o) {
    }
    if Paired(a, b).Some? {
      assert Pairs(a, last, b);
    }
    if DeltaOf(a, window, b).Some? {
      RateTimesWindow(DeltaOf(a, window, b).value.delta, Seconds(window));
    }
  }

  /** The deltas are, in order, those of exactly the second samples that have a partner they did not
      fall behind. */
  lemma DeltasAreExact(a: seq<Sighting>, bs: seq<Sighting>, window: int) returns (at: seq<nat>)
    requires window > 0
    ensures Positions(at, |bs|) && |at| == |Deltas(a, bs, window)|
    ensures forall j | 0 <= j < |bs| :: j in at <==> Grows(a, bs[j])
    ensures forall i | 0 <= i < |at| :: IsDeltaOf(Deltas(a, bs, window)[i], a, bs[at[i]], window)
  {
    at := FilterMapPositions(bs, DeltaRule(a, window));
    forall j | 0 <= j < |bs| ensures j in at <==> Grows(a, bs[j]) {
      JudgeMeaning(a, bs[j], window);
    }
    forall i | 0 <= i < |at| ensures IsDeltaOf(Deltas(a, bs, window)[i], a, bs[at[i]], window) {
      JudgeMeaning(a, bs[at[i]], window);
    }
  }

  /** The reset warnings are, in order, those of exactly the second samples that fell behind theirs. */
  lemma ResetsAreExact(a: seq<Sighting>, bs: seq<Sighting>) returns (at: seq<nat>)
    ensures Positions(at, |bs|) && |at| == |Resets(a, bs)|
    ensures forall j | 0 <= j < |bs| :: j in at <==> Shrinks(a, bs[j])
    ensures forall i | 0 <= i < |at| ::
      var b := bs[at[i]];
      Resets(a, bs)[i] == Warning(b.collector, "counter reset detected for " + (b.o.key + "|" + b.o.obj.kind + "|" + b.o.obj.id))
  {
    at := FilterMapPositions(bs, ResetRule(a));
    forall j | 0 <= j < |bs| ensures j in at <==> Shrinks(a, bs[j]) {
      JudgeMeaning(a, bs[j], 1);
    }
  }

  /** The join compares strings, yet joins the same signal of the same collector, provided collector
      ids, keys and kinds do not contain the separator. */
  lemma JoinKeyInjective(s: Sighting, t: Sighting)
    requires '|' !in s.collector && '|' !in t.collector
    requires '|' !in s.o.key && '|' !in t.o.key && '|' !in s.o.obj.kind && '|' !in t.o.obj.kind
    ensures JoinKey(s) == JoinKey(t) <==> s.collector == t.collector && s.o.key == t.o.key && s.o.obj == t.o.obj
  {
    if JoinKey(s) == JoinKey(t) {
      Text.SplitFirst(s.collector, Identity(s.o), t.collector, Identity(t.o), '|');
    }
    SignalIdentityInjective(s.o.key, s.o.obj, t.o.key, t.o.obj);
  }

  // ---- one run --------------------------------------------------------------------------------

  function Snapshots(caps: set<string>, cs: seq<Collector>): seq<Collector> {
    Select(cs, caps, STRATEGY_SNAPSHOT)
  }

  function Counters(caps: set<string>, cs: seq<Collector>): seq<Collector> {
    Select(cs, caps, STRATEGY_COUNTER)
  }

  /** The error a run ends with, if any. */
  function RunError(caps: set<string>, cs: seq<Collector>, window: int, cancellation: Cancellation): Option<string> {
    if Snapshots(caps, cs) != [] && cancellation.single then Some(CANCELED)
    else if Counters(caps, cs) == [] then None
    else if window <= 0 then Some(WINDOW_REQUIRED)
    else if cancellation.sampleA || cancellation.wait || cancellation.sampleB then Some(CANCELED)
    else None
  }

  function AllObservations(caps: set<string>, cs: seq<Collector>): seq<Observation> {
    Observed(Batch(Snapshots(caps, cs), Single)) + Observed(Batch(Counters(caps, cs), SampleB))
  }

  function AllDeltas(caps: set<string>, cs: seq<Collector>, window: int): seq<Delta> {
    var counters := Counters(caps, cs);
    if window <= 0 then []
    else Deltas(Sightings(Batch(counters, SampleA)), Sightings(Batch(counters, SampleB)), window)
  }

  function AllWarnings(caps: set<string>, cs: seq<Collector>): seq<Warning> {
    var counters := Counters(caps, cs);
    UnsupportedWarnings(cs, caps) + Failures(Batch(Snapshots(caps, cs), Single)) +
    (Failures(Batch(counters, SampleA)) + Failures(Batch(counters, SampleB)) +
     Resets(Sightings(Batch(counters, SampleA)), Sightings(Batch(counters, SampleB))))
  }

  function DeltaIdentity(d: Delta): string {
    SignalIdentity(d.key, d.obj)
  }

  function WarningCollector(w: Warning): string {
    w.collector
  }

  function WarningReason(w: Warning): string {
    w.reason
  }

  function WarningOrder(): (Warning, Warning) -> bool {
    ThenBy(WarningCollector, KeyOrder(WarningReason))
  }

  /** A report holds a sorted permutation of what was collected, joined and warned about. */
  ghost predicate IsReport(caps: set<string>, cs: seq<Collector>, window: int, r: Report) {
    && multiset(r.observations) == multiset(AllObservations(caps, cs))
    && Sorting.SortedBy(r.observations, KeyOrder(Identity))
    && multiset(r.deltas) == multiset(AllDeltas(caps, cs, window))
    && Sorting.SortedBy(r.deltas, KeyOrder(DeltaIdentity))
    && multiset(r.warnings) == multiset(AllWarnings(caps, cs))
    && Sorting.SortedBy(r.warnings, WarningOrder())
  }

  /** The pool that one batch runs on. */
  function Pool(jobs: seq<Collector>, phase: Phase, maxConcurrency: int): WorkerPool.Config<BatchResult> {
    WorkerPool.Config(|jobs|, maxConcurrency,
      (j: nat, r: BatchResult) => j < |jobs| && r == BatchResult(jobs[j].descriptor, jobs[j].collect(phase)))
  }

  type PoolState = WorkerPool.State<BatchResult>
  type PoolAction = WorkerPool.Action<BatchResult>

  /** The context is cancelled in this run, if at all, before the caller looks. */
  predicate InTime(a: PoolAction, s: PoolState, cancelled: bool) {
    (a.Cancel? ==> cancelled) && (a.CallerReturns? && cancelled ==> s.cancelled)
  }

  predicate HasReturned(s: PoolState) {
    s.caller.ReturnedError? || s.caller.Returned?
  }

  function Outcome(r: WorkerPool.BatchResult<BatchResult>): BatchResult {
    r.outcome
  }

  lemma SomeStepInTime(jobs: seq<Collector>, phase: Phase, maxConcurrency: int, s: PoolState, cancelled: bool) returns (a: PoolAction)
    requires jobs != [] && WorkerPool.Inv(Pool(jobs, phase, maxConcurrency), s) && !HasReturned(s)
    ensures WorkerPool.Enabled(Pool(jobs, phase, maxConcurrency), s, a) && InTime(a, s, cancelled)
  {
    var cfg := Pool(jobs, phase, maxConcurrency);
    forall job: nat | job < cfg.jobs ensures WorkerPool.HasOutcome(cfg, job) {
      assert cfg.allowed(job, Batch(jobs, phase)[job]);
    }
    a := WorkerPool.SomeStepIsEnabled(cfg, s);
    if a.CallerReturns? && cancelled && !s.cancelled {
      a := WorkerPool.Cancel;
    }
  }

  lemma StepInTime(cfg: WorkerPool.Config<BatchResult>, s: PoolState, a: PoolAction, cancelled: bool)
    requires WorkerPool.Enabled(cfg, s, a) && InTime(a, s, cancelled) && !HasReturned(s) && (s.cancelled ==> cancelled)
    ensures var t := WorkerPool.Apply(cfg, s, a);
      && (t.cancelled ==> cancelled)
      && (HasReturned(t) ==> (t.caller.ReturnedError? <==> cancelled))
  {
    match a
    case CallerReturns(_) =>
    case _ => assert WorkerPool.Apply(cfg, s, a).cancelled ==> s.cancelled || a.Cancel?;
  }

  /** Planners with this setting never have more than n collectors of a batch in flight. */
  ghost predicate AtMost(maxConcurrency: int, n: int) {
    forall jobs: seq<Collector>, phase, states: seq<PoolState>, actions: seq<PoolAction>, i: nat |
      jobs != [] && WorkerPool.IsRun(Pool(jobs, phase, maxConcurrency), states, actions) && i < |states| ::
      WorkerPool.InFlight(states[i]) <= n
  }

  lemma LimitHolds(maxConcurrency: int)
    ensures AtMost(maxConcurrency, if maxConcurrency < 1 then 1 else maxConcurrency)
  {
    forall jobs: seq<Collector>, phase, states: seq<PoolState>, actions: seq<PoolAction>, i: nat |
      jobs != [] && WorkerPool.IsRun(Pool(jobs, phase, maxConcurrency), states, actions) && i < |states|
      ensures WorkerPool.InFlight(states[i]) <= if maxConcurrency < 1 then 1 else maxConcurrency
    {
      WorkerPool.Safety(Pool(jobs, phase, maxConcurrency), states, actions, i);
    }
  }

  /** Whatever the schedule of the pool, the batch it returns is `Batch`. */
  lemma EveryScheduleReturnsTheBatch(jobs: seq<Collector>, phase: Phase, maxConcurrency: int,
      states: seq<PoolState>, actions: seq<PoolAction>, i: nat)
    requires jobs != [] && WorkerPool.IsRun(Pool(jobs, phase, maxConcurrency), states, actions)
    requires i < |states| && states[i].caller.Returned?
    ensures var results := states[i].caller.results;
      Map(results, Outcome) == Batch(jobs, phase)
  {
    WorkerPool.RunInv(Pool(jobs, phase, maxConcurrency), states, actions);
  }

  // ---- what a run reports, collector by collector --------------------------------------------

  /** The collector has every capability it needs. */
  predicate Equipped(c: Collector, caps: set<string>) {
    forall i | 0 <= i < |c.descriptor.capabilities| :: c.descriptor.capabilities[i] in caps
  }

  /** Snapshot collectors report what they see once, counter collectors what they see in the second sample. */
  ghost function Reported(cs: seq<Collector>, caps: set<string>): multiset<Observation> {
    if cs == [] then multiset{} else
      var c := cs[|cs| - 1];
      Reported(cs[..|cs| - 1], caps) +
      (if !Equipped(c, caps) then multiset{}
       else if c.descriptor.strategy == "snapshot" then multiset(c.collect(Single).observed)
       else if c.descriptor.strategy == "counter" then multiset(c.collect(SampleB).observed)
       else multiset{})
  }

  /** What the counter collectors see in a phase, in order. */
  ghost function Seen(cs: seq<Collector>, caps: set<string>, phase: Phase): seq<Sighting> {
    if cs == [] then [] else
      var c := cs[|cs| - 1];
      var observed := c.collect(phase).observed;
      Seen(cs[..|cs| - 1], caps, phase) +
      (if Equipped(c, caps) && c.descriptor.strategy == "counter"
       then seq(|observed|, i requires 0 <= i < |observed| => Sighting(c.descriptor.id, observed[i]))
       else [])
  }

  ghost function FailedIn(c: Collector, phase: Phase): multiset<Warning> {
    var err := c.collect(phase).err;
    if err.Some? then multiset{Warning(c.descriptor.id, err.value)} else multiset{}
  }

  /** The warnings about collectors: unsupported ones, and every failure in a phase that runs. */
  ghost function Warned(cs: seq<Collector>, caps: set<string>): multiset<Warning> {
    if cs == [] then multiset{} else
      var c := cs[|cs| - 1];
      Warned(cs[..|cs| - 1], caps) +
      (if !Equipped(c, caps) then multiset{}
       else if c.descriptor.strategy == "snapshot" then FailedIn(c, Single)
       else if c.descriptor.strategy == "counter" then FailedIn(c, SampleA) + FailedIn(c, SampleB)
       else multiset{Warning(c.descriptor.id, "unsupported collection strategy")})
  }

  lemma EquippedIsEligible(c: Collector, caps: set<string>)
    ensures Equipped(c, caps) <==> Eligible(caps, c)
  {
  }

  /** One collector more: it is selected by its strategy or not at all. */
  lemma SelectStep(cs: seq<Collector>, caps: set<string>, strategy: string)
    requires cs != []
    ensures var front, c := cs[..|cs| - 1], cs[|cs| - 1];
      Select(cs, caps, strategy) ==
        Select(front, caps, strategy) + (if Equipped(c, caps) && c.descriptor.strategy == strategy then [c] else [])
  {
    EquippedIsEligible(cs[|cs| - 1], caps);
  }

  lemma BatchPush(cs: seq<Collector>, c: Collector, phase: Phase)
    ensures Batch(cs + [c], phase) == Batch(cs, phase) + [BatchResult(c.descriptor, c.collect(phase))]
  {
  }

  lemma PushParts(batch: seq<BatchResult>, r: BatchResult)
    ensures Observed(batch + [r]) == Observed(batch) + r.sample.observed
    ensures Failures(batch + [r]) == Failures(batch) + (if r.sample.err.Some? then [Warning(r.descriptor.id, r.sample.err.value)] else [])
    ensures Sightings(batch + [r]) == Sightings(batch) + SightingsOf(r.descriptor.id, r.sample.observed)
  {
    assert (batch + [r])[..|batch|] == batch;
  }

  /** What one more collector adds to the batch of a phase. */
  lemma BatchOfSelected(cs: seq<Collector>, caps: set<string>, strategy: string, phase: Phase)
    requires cs != []
    ensures var front, c := cs[..|cs| - 1], cs[|cs| - 1];
      var before, after := Batch(Select(front, caps, strategy), phase), Batch(Select(cs, caps, strategy), phase);
      if Equipped(c, caps) && c.descriptor.strategy == strategy then
        && Observed(after) == Observed(before) + c.collect(phase).observed
        && multiset(Failures(after)) == multiset(Failures(before)) + FailedIn(c, phase)
        && Sightings(after) == Sightings(before) + SightingsOf(c.descriptor.id, c.collect(phase).observed)
      else after == before
  {
    var front, c := cs[..|cs| - 1], cs[|cs| - 1];
    SelectStep(cs, caps, strategy);
    BatchPush(Select(front, caps, strategy), c, phase);
    PushParts(Batch(Select(front, caps, strategy), phase), BatchResult(c.descriptor, c.collect(phase)));
  }

  lemma {:induction false} SightingsAreSeen(cs: seq<Collector>, caps: set<string>, phase: Phase)
    ensures Sightings(Batch(Counters(caps, cs), phase)) == Seen(cs, caps, phase)
  {
    if cs != [] {
      SightingsAreSeen(cs[..|cs| - 1], caps, phase);
      BatchOfSelected(cs, caps, STRATEGY_COUNTER, phase);
    }
  }

  lemma {:induction false} ObservationsAreReported(cs: seq<Collector>, caps: set<string>)
    ensures multiset(AllObservations(caps, cs)) == Reported(cs, caps)
  {
    if cs != [] {
      ObservationsAreReported(cs[..|cs| - 1], caps);
      BatchOfSelected(cs, caps, STRATEGY_SNAPSHOT, Single);
      BatchOfSelected(cs, caps, STRATEGY_COUNTER, SampleB);
    }
  }

  lemma UnsupportedStep(cs: seq<Collector>, caps: set<string>)
    requires cs != []
    ensures var front, c := cs[..|cs| - 1], cs[|cs| - 1];
      multiset(UnsupportedWarnings(cs, caps)) == multiset(UnsupportedWarnings(front, caps)) +
        (if Equipped(c, caps) && c.descriptor.strategy != "snapshot" && c.descriptor.strategy != "counter"
         then multiset{Warning(c.descriptor.id, "unsupported collection strategy")} else multiset{})
  {
    EquippedIsEligible(cs[|cs| - 1], caps);
  }

  lemma {:induction false} WarningsAreWarned(cs: seq<Collector>, caps: set<string>)
    ensures multiset(UnsupportedWarnings(cs, caps)) + multiset(Failures(Batch(Snapshots(caps, cs), Single)))
      + multiset(Failures(Batch(Counters(caps, cs), SampleA))) + multiset(Failures(Batch(Counters(caps, cs), SampleB)))
      == Warned(cs, caps)
  {
    if cs != [] {
      WarningsAreWarned(cs[..|cs| - 1], caps);
      UnsupportedStep(cs, caps);
      BatchOfSelected(cs, caps, STRATEGY_SNAPSHOT, Single);
      BatchOfSelected(cs, caps, STRATEGY_COUNTER, SampleA);
      BatchOfSelected(cs, caps, STRATEGY_COUNTER, SampleB);
    }
  }

  /** A report holds, the right number of times, what the equipped collectors returned: snapshot collectors
      once, counter collectors in their second sample; warnings about every failure and unsupported strategy
      and about every reset; and all of it in order. */
  lemma ReportMeaning(caps: set<string>, cs: seq<Collector>, window: int, r: Report)
    requires IsReport(caps, cs, window, r)
    ensures multiset(r.observations) == Reported(cs, caps)
    ensures multiset(r.warnings) == Warned(cs, caps) + multiset(Resets(Seen(cs, caps, SampleA), Seen(cs, caps, SampleB)))
    ensures forall i, j | 0 <= i < j < |r.observations| ::
      var x, y := r.observations[i], r.observations[j];
      !Text.Less(y.key + "|" + y.obj.kind + "|" + y.obj.id, x.key + "|" + x.obj.kind + "|" + x.obj.id)
    ensures forall i, j | 0 <= i < j < |r.deltas| ::
      var x, y := r.deltas[i], r.deltas[j];
      !Text.Less(y.key + "|" + y.obj.kind + "|" + y.obj.id, x.key + "|" + x.obj.kind + "|" + x.obj.id)
    ensures forall i, j | 0 <= i < j < |r.warnings| ::
      var x, y := r.warnings[i], r.warnings[j];
      !Text.Less(y.collector, x.collector) && (x.collector == y.collector ==> !Text.Less(y.reason, x.reason))
  {
    ObservationsAreReported(cs, caps);
    WarningsAreWarned(cs, caps);
    SightingsAreSeen(cs, caps, SampleA);
    SightingsAreSeen(cs, caps, SampleB);
    ReportOrder(caps, cs, window, r);
  }

  lemma ReportOrder(caps: set<string>, cs: seq<Collector>, window: int, r: Report)
    requires IsReport(caps, cs, window, r)
    ensures forall i, j | 0 <= i < j < |r.observations| :: !Text.Less(Identity(r.observations[j]), Identity(r.observations[i]))
    ensures forall i, j | 0 <= i < j < |r.deltas| :: !Text.Less(DeltaIdentity(r.deltas[j]), DeltaIdentity(r.deltas[i]))
    ensures forall i, j | 0 <= i < j < |r.warnings| ::
      var x, y := r.warnings[i], r.warnings[j];
      !Text.Less(y.collector, x.collector) && (x.collector == y.collector ==> !Text.Less(y.reason, x.reason))
  {
    SortedByKey(r.observations, Identity);
    SortedByKey(r.deltas, DeltaIdentity);
    SortedByTwoKeys(r.warnings, WarningCollector, WarningReason);
    forall i, j | 0 <= i < j < |r.warnings|
      ensures var x, y := r.warnings[i], r.warnings[j];
        !Text.Less(y.collector, x.collector) && (x.collector == y.collector ==> !Text.Less(y.reason, x.reason))
    {
      assert WarningCollector(r.warnings[i]) == r.warnings[i].collector;
    }
  }

  /** The deltas of a report are those of exactly the second samples, in the order the collectors gave them,
      that have a numeric last first sample of the same key and did not fall behind it: what was gained, and
      at which rate. */
  lemma ReportedDeltas(caps: set<string>, cs: seq<Collector>, window: int, r: Report) returns (deltas: seq<Delta>, at: seq<nat>)
    requires IsReport(caps, cs, window, r) && window > 0
    ensures multiset(r.deltas) == multiset(deltas) && Positions(at, |Seen(cs, caps, SampleB)|) && |at| == |deltas|
    ensures forall j | 0 <= j < |Seen(cs, caps, SampleB)| ::
      j in at <==> Grows(Seen(cs, caps, SampleA), Seen(cs, caps, SampleB)[j])
    ensures forall i | 0 <= i < |at| ::
      IsDeltaOf(deltas[i], Seen(cs, caps, SampleA), Seen(cs, caps, SampleB)[at[i]], window)
  {
    var a, b := Seen(cs, caps, SampleA), Seen(cs, caps, SampleB);
    SightingsAreSeen(cs, caps, SampleA);
    SightingsAreSeen(cs, caps, SampleB);
    deltas := Deltas(a, b, window);
    at := DeltasAreExact(a, b, window);
  }

  // ---- what an empty list of warnings means ---------------------------------------------------

  ghost predicate RanClean(c: Collector) {
    if c.descriptor.strategy == STRATEGY_SNAPSHOT then c.collect(Single).err.None?
    else c.descriptor.strategy == STRATEGY_COUNTER && c.collect(SampleA).err.None? && c.collect(SampleB).err.None?
  }

  /** Every eligible collector is supported and failed in no phase, and no paired counter fell. */
  ghost predicate Complete(caps: set<string>, cs: seq<Collector>) {
    && (forall c | c in cs && Eligible(caps, c) :: RanClean(c))
    && forall s | s in Seen(cs, caps, SampleB) :: !Shrinks(Seen(cs, caps, SampleA), s)
  }

  lemma SelectMembers(cs: seq<Collector>, caps: set<string>, strategy: string)
    ensures forall c :: c in Select(cs, caps, strategy) <==> c in cs && Eligible(caps, c) && c.descriptor.strategy == strategy
  {
    FilterMapMembers(cs, Chosen(caps, strategy));
    forall c ensures c in Select(cs, caps, strategy) <==> c in cs && Eligible(caps, c) && c.descriptor.strategy == strategy {
      if c in cs && Eligible(caps, c) && c.descriptor.strategy == strategy {
        var i :| 0 <= i < |cs| && cs[i] == c;
        assert Chosen(caps, strategy)(cs[i]) == Some(c);
      }
    }
  }

  lemma NoFailures(cs: seq<Collector>, phase: Phase)
    ensures Failures(Batch(cs, phase)) == [] <==> forall c | c in cs :: c.collect(phase).err.None?
  {
    var batch := Batch(cs, phase);
    FilterMapMembers(batch, Failure);
    if Failures(batch) == [] {
      forall c | c in cs ensures c.collect(phase).err.None? {
        var i :| 0 <= i < |cs| && cs[i] == c;
        assert Failure(batch[i]).None?;
      }
    }
  }

  lemma NoUnsupported(cs: seq<Collector>, caps: set<string>)
    ensures UnsupportedWarnings(cs, caps) == [] <==> forall c | c in cs && Eligible(caps, c) :: Supported(c)
  {
    FilterMapMembers(cs, UnsupportedWarning(caps));
    if UnsupportedWarnings(cs, caps) == [] {
      forall c | c in cs && Eligible(caps, c) ensures Supported(c) {
        var i :| 0 <= i < |cs| && cs[i] == c;
        assert UnsupportedWarning(caps)(cs[i]).None?;
      }
    }
  }

  lemma NoResets(a: seq<Sighting>, bs: seq<Sighting>)
    ensures Resets(a, bs) == [] <==> forall s | s in bs :: !Shrinks(a, s)
  {
    FilterMapMembers(bs, ResetRule(a));
    forall i | 0 <= i < |bs| ensures ResetRule(a)(bs[i]).None? <==> !Shrinks(a, bs[i]) {
      JudgeMeaning(a, bs[i], 1);
    }
  }

  /** A run is free of warnings exactly when its evidence is complete. */
  lemma WarningFreeIffComplete(caps: set<string>, cs: seq<Collector>, window: int, r: Report)
    requires IsReport(caps, cs, window, r)
    ensures r.warnings == [] <==> Complete(caps, cs)
  {
    Sorting.SameElements(r.warnings, AllWarnings(caps, cs));
    SightingsAreSeen(cs, caps, SampleA);
    SightingsAreSeen(cs, caps, SampleB);
    var counters := Counters(caps, cs);
    NoUnsupported(cs, caps);
    NoFailures(Snapshots(caps, cs), Single);
    NoFailures(counters, SampleA);
    NoFailures(counters, SampleB);
    NoResets(Sightings(Batch(counters, SampleA)), Sightings(Batch(counters, SampleB)));
    SelectMembers(cs, caps, STRATEGY_SNAPSHOT);
    SelectMembers(cs, caps, STRATEGY_COUNTER);
  }

  /** No run reports a negative delta. */
  lemma DeltasNeverNegative(caps: set<string>, cs: seq<Collector>, window: int, r: Report)
    requires IsReport(caps, cs, window, r)
    ensures forall d | d in r.deltas :: d.delta >= 0.0
  {
    Sorting.SameElements(r.deltas, AllDeltas(caps, cs, window));
    if window > 0 {
      var a, b := Sightings(Batch(Counters(caps, cs), SampleA)), Sightings(Batch(Counters(caps, cs), SampleB));
      var at := DeltasAreExact(a, b, window);
      forall d | d in r.deltas ensures d.delta >= 0.0 {
        assert d in Deltas(a, b, window);
        var i :| 0 <= i < |Deltas(a, b, window)| && Deltas(a, b, window)[i] == d;
        assert IsDeltaOf(d, a, b[at[i]], window);
      }
    }
  }

  method AppendBatch(observations: seq<Observation>, warnings: seq<Warning>, batch: seq<BatchResult>)
    returns (allObservations: seq<Observation>, allWarnings: seq<Warning>)
    ensures allObservations == observations + Observed(batch)
    ensures allWarnings == warnings + Failures(batch)
  {
    allObservations, allWarnings := observations, warnings;
    for i := 0 to |batch|
      invariant allObservations == observations + Observed(batch[..i])
      invariant allWarnings == warnings + Failures(batch[..i])
    {
      FlatMapStep(batch, i, ObservedBy);
      FilterMapStep(batch, i, Failure);
      allObservations := allObservations + batch[i].sample.observed;
      if batch[i].sample.err.Some? {
        allWarnings := allWarnings + [Warning(batch[i].descriptor.id, batch[i].sample.err.value)];
      }
    }
    assert batch[..|batch|] == batch;
  }

  /** The map holds, for every key, what was written to it last. */
  ghost predicate Remembers(m: map<string, Observation>, a: seq<Sighting>) {
    forall key :: if key in m then LastWritten(a, key) == Some(m[key]) else LastWritten(a, key) == None
  }

  lemma RememberOneMore(m: map<string, Observation>, a: seq<Sighting>, s: Sighting)
    requires Remembers(m, a)
    ensures Remembers(m[JoinKey(s) := s.o], a + [s])
  {
    assert (a + [s])[..|a|] == a;
  }

  lemma SightingsStep(batch: seq<BatchResult>, i: nat, j: nat)
    requires i < |batch| && j < |batch[i].sample.observed|
    ensures var o, id := batch[i].sample.observed, batch[i].descriptor.id;
      SightingsOf(id, o[..j + 1]) == SightingsOf(id, o[..j]) + [Sighting(id, o[j])]
  {
  }

  method RememberFirst(batch: seq<BatchResult>, warnings: seq<Warning>)
    returns (firstSamples: map<string, Observation>, allWarnings: seq<Warning>)
    ensures Remembers(firstSamples, Sightings(batch))
    ensures allWarnings == warnings + Failures(batch)
  {
    firstSamples, allWarnings := map[], warnings;
    for i := 0 to |batch|
      invariant Remembers(firstSamples, Sightings(batch[..i]))
      invariant allWarnings == warnings + Failures(batch[..i])
    {
      FlatMapStep(batch, i, SightingsIn);
      FilterMapStep(batch, i, Failure);
      var id, observed := batch[i].descriptor.id, batch[i].sample.observed;
      if batch[i].sample.err.Some? {
        allWarnings := allWarnings + [Warning(id, batch[i].sample.err.value)];
      }
      ghost var before := Sightings(batch[..i]);
      assert before + SightingsOf(id, observed[..0]) == before;
      for j := 0 to |observed|
        invariant Remembers(firstSamples, before + SightingsOf(id, observed[..j]))
      {
        var s := Sighting(id, observed[j]);
        SightingsStep(batch, i, j);
        RememberOneMore(firstSamples, before + SightingsOf(id, observed[..j]), s);
        assert before + SightingsOf(id, observed[..j]) + [s] == before + SightingsOf(id, observed[..j + 1]);
        firstSamples := firstSamples[JoinKey(s) := observed[j]];
      }
      assert observed[..|observed|] == observed;
    }
    assert batch[..|batch|] == batch;
  }

  method JoinResult(firstSamples: map<string, Observation>, ghost a: seq<Sighting>, result: BatchResult, window: int)
    returns (deltas: seq<Delta>, resets: seq<Warning>)
    requires window > 0 && Remembers(firstSamples, a)
    ensures deltas == Deltas(a, SightingsIn(result), window)
    ensures resets == Resets(a, SightingsIn(result))
  {
    deltas, resets := [], [];
    var id, observed := result.descriptor.id, result.sample.observed;
    ghost var all := SightingsIn(result);
    for j := 0 to |observed|
      invariant deltas == Deltas(a, all[..j], window)
      invariant resets == Resets(a, all[..j])
    {
      var s := Sighting(id, observed[j]);
      FilterMapStep(all, j, DeltaRule(a, window));
      FilterMapStep(all, j, ResetRule(a));
      var key := JoinKey(s);
      if key in firstSamples && firstSamples[key].number.Some? && s.o.number.Some? {
        var x, y := firstSamples[key].number.value, s.o.number.value;
        if y < x {
          resets := resets + [Warning(id, ResetReason(s.o))];
        } else {
          deltas := deltas + [Delta(s.o.key, s.o.obj, s.o.unit, y - x, (y - x) / Seconds(window), Seconds(window), EXACTNESS_SAMPLED)];
        }
      }
    }
    assert all[..|observed|] == all;
  }

  method Join(firstSamples: map<string, Observation>, ghost a: seq<Sighting>, batch: seq<BatchResult>, window: int)
    returns (deltas: seq<Delta>, resets: seq<Warning>)
    requires window > 0 && Remembers(firstSamples, a)
    ensures deltas == Deltas(a, Sightings(batch), window)
    ensures resets == Resets(a, Sightings(batch))
  {
    deltas, resets := [], [];
    for i := 0 to |batch|
      invariant deltas == Deltas(a, Sightings(batch[..i]), window)
      invariant resets == Resets(a, Sightings(batch[..i]))
    {
      FlatMapStep(batch, i, SightingsIn);
      FilterMapAppend(Sightings(batch[..i]), SightingsIn(batch[i]), DeltaRule(a, window));
      FilterMapAppend(Sightings(batch[..i]), SightingsIn(batch[i]), ResetRule(a));
      var ds, ws := JoinResult(firstSamples, a, batch[i], window);
      deltas, resets := deltas + ds, resets + ws;
    }
    assert batch[..|batch|] == batch;
  }

  method Partition(caps: set<string>, cs: seq<Collector>)
    returns (snapshots: seq<Collector>, counters: seq<Collector>, warnings: seq<Warning>)
    ensures snapshots == Snapshots(caps, cs) && counters == Counters(caps, cs)
    ensures warnings == UnsupportedWarnings(cs, caps)
  {
    snapshots, counters, warnings := [], [], [];
    for i := 0 to |cs|
      invariant snapshots == Snapshots(caps, cs[..i])
      invariant counters == Counters(caps, cs[..i])
      invariant warnings == UnsupportedWarnings(cs[..i], caps)
    {
      FilterMapStep(cs, i, Chosen(caps, STRATEGY_SNAPSHOT));
      FilterMapStep(cs, i, Chosen(caps, STRATEGY_COUNTER));
      FilterMapStep(cs, i, UnsupportedWarning(caps));
      var c := cs[i];
      if Eligible(caps, c) {
        if c.descriptor.strategy == STRATEGY_SNAPSHOT {
          snapshots := snapshots + [c];
        } else if c.descriptor.strategy == STRATEGY_COUNTER {
          counters := counters + [c];
        } else {
          warnings := warnings + [Warning(c.descriptor.id, UNSUPPORTED)];
        }
      }
    }
    assert cs[..|cs|] == cs;
  }

  method SortReport(observations: seq<Observation>, deltas: seq<Delta>, warnings: seq<Warning>) returns (r: Report)
    ensures multiset(r.observations) == multiset(observations) && Sorting.SortedBy(r.observations, KeyOrder(Identity))
    ensures multiset(r.deltas) == multiset(deltas) && Sorting.SortedBy(r.deltas, KeyOrder(DeltaIdentity))
    ensures multiset(r.warnings) == multiset(warnings) && Sorting.SortedBy(r.warnings, WarningOrder())
  {
    KeyOrderIsWeakOrder(Identity);
    KeyOrderIsWeakOrder(DeltaIdentity);
    KeyOrderIsWeakOrder(WarningReason);
    ThenByIsWeakOrder(WarningCollector, KeyOrder(WarningReason));
    var os := Sorting.Sort(observations, KeyOrder(Identity));
    var ds := Sorting.Sort(deltas, KeyOrder(DeltaIdentity));
    var ws := Sorting.Sort(warnings, WarningOrder());
    r := Report(os, ds, ws);
  }

  lemma ReportParts(caps: set<string>, cs: seq<Collector>, window: int,
      observations: seq<Observation>, deltas: seq<Delta>, warnings: seq<Warning>)
    requires var snapshots, counters := Snapshots(caps, cs), Counters(caps, cs);
      var single, a, b := Batch(snapshots, Single), Batch(counters, SampleA), Batch(counters, SampleB);
      if counters == [] then
        observations == Observed(single) && deltas == [] && warnings == UnsupportedWarnings(cs, caps) + Failures(single)
      else
        && window > 0
        && observations == Observed(single) + Observed(b)
        && deltas == Deltas(Sightings(a), Sightings(b), window)
        && warnings == UnsupportedWarnings(cs, caps) + Failures(single) +
             (Failures(a) + Failures(b) + Resets(Sightings(a), Sightings(b)))
    ensures observations == AllObservations(caps, cs)
    ensures deltas == AllDeltas(caps, cs, window)
    ensures warnings == AllWarnings(caps, cs)
  {
    var counters := Counters(caps, cs);
    if counters == [] {
      assert Batch(counters, SampleA) == [] && Batch(counters, SampleB) == [];
    }
  }

  class Planner {
    var maxConcurrency: int

    constructor ()
      ensures maxConcurrency == 4 && AtMost(maxConcurrency, 4)
    {
      maxConcurrency := 4;
      new;
      LimitHolds(4);
    }

    method WithMaxConcurrency(value: int)
      modifies this
      ensures maxConcurrency == (if value < 1 then 1 else value) && AtMost(maxConcurrency, if value < 1 then 1 else value)
    {
      maxConcurrency := if value < 1 then 1 else value;
      LimitHolds(maxConcurrency);
    }

    /** The pool at work: producer, workers and context take whatever step they can, in any order, until the
        caller returns.  `cancelled` says whether the context is cancelled before the caller looks. */
    method RunPool(jobs: seq<Collector>, phase: Phase, cancelled: bool)
      returns (s: PoolState, ghost states: seq<PoolState>, ghost actions: seq<PoolAction>)
      requires jobs != []
      ensures WorkerPool.IsRun(Pool(jobs, phase, maxConcurrency), states, actions) && states[|actions|] == s
      ensures HasReturned(s) && (s.caller.ReturnedError? <==> cancelled)
    {
      var cfg := Pool(jobs, phase, maxConcurrency);
      s := WorkerPool.Init(cfg);
      states, actions := [s], [];
      WorkerPool.InitInv(cfg);
      while !HasReturned(s)
        invariant WorkerPool.IsRun(cfg, states, actions) && states[|actions|] == s
        invariant WorkerPool.Inv(cfg, s)
        invariant (s.cancelled ==> cancelled) && (HasReturned(s) ==> (s.caller.ReturnedError? <==> cancelled))
        decreases WorkerPool.Measure(cfg, s)
      {
        ghost var possible := SomeStepInTime(jobs, phase, maxConcurrency, s, cancelled);
        var a :| WorkerPool.Enabled(cfg, s, a) && InTime(a, s, cancelled);
        WorkerPool.StepDecreases(cfg, s, a);
        WorkerPool.StepInv(cfg, s, a);
        StepInTime(cfg, s, a, cancelled);
        s := WorkerPool.Apply(cfg, s, a);
        states, actions := states + [s], actions + [a];
      }
    }

    /** Whatever the schedule, a batch is cancelled or gives one result per job, in job order. */
    method RunBatch(jobs: seq<Collector>, phase: Phase, cancelled: bool) returns (r: Result<seq<BatchResult>>)
      ensures r == if cancelled && jobs != [] then Err(CANCELED) else Ok(Batch(jobs, phase))
      ensures r.Ok? ==> |r.value| == |jobs|
      ensures r.Ok? ==> forall i | 0 <= i < |jobs| ::
        r.value[i].descriptor == jobs[i].descriptor && r.value[i].sample == jobs[i].collect(phase)
    {
      if |jobs| == 0 {
        assert Batch(jobs, phase) == [];
        return Ok([]);
      }
      var s, states, actions := RunPool(jobs, phase, cancelled);
      if s.caller.ReturnedError? {
        return Err(CANCELED);
      }
      EveryScheduleReturnsTheBatch(jobs, phase, maxConcurrency, states, actions, |actions|);
      return Ok(Map(s.caller.results, Outcome));
    }

    /** Both samples of the counter collectors, with the window between them. */
    method SampleCounters(counters: seq<Collector>, window: int, cancellation: Cancellation) returns (r: Result<Report>)
      requires counters != []
      ensures r.Err? <==> window <= 0 || cancellation.sampleA || cancellation.wait || cancellation.sampleB
      ensures r.Err? ==> r.message == if window <= 0 then WINDOW_REQUIRED else CANCELED
      ensures r.Ok? ==>
        var a, b := Batch(counters, SampleA), Batch(counters, SampleB);
        && r.value.observations == Observed(b)
        && r.value.deltas == Deltas(Sightings(a), Sightings(b), window)
        && r.value.warnings == Failures(a) + Failures(b) + Resets(Sightings(a), Sightings(b))
    {
      if window <= 0 {
        return Err(WINDOW_REQUIRED);
      }
      var first := RunBatch(counters, SampleA, cancellation.sampleA);
      if first.Err? {
        return Err(first.message);
      }
      var firstSamples, warnings := RememberFirst(first.value, []);
      if cancellation.wait {
        return Err(CANCELED);
      }
      var second := RunBatch(counters, SampleB, cancellation.sampleB);
      if second.Err? {
        return Err(second.message);
      }
      var observations;
      observations, warnings := AppendBatch([], warnings, second.value);
      var deltas, resets := Join(firstSamples, Sightings(first.value), second.value, window);
      return Ok(Report(observations, deltas, warnings + resets));
    }

    method Run(caps: set<string>, cs: seq<Collector>, window: int, cancellation: Cancellation) returns (r: Result<Report>)
      ensures r.Err? <==> RunError(caps, cs, window, cancellation).Some?
      ensures r.Err? ==> r.message == RunError(caps, cs, window, cancellation).value
      ensures r.Ok? ==> IsReport(caps, cs, window, r.value)
    {
      var snapshots, counters, warnings := Partition(caps, cs);
      var single := RunBatch(snapshots, Single, cancellation.single);
      if single.Err? {
        return Err(single.message);
      }
      var observations, deltas := [], [];
      observations, warnings := AppendBatch(observations, warnings, single.value);
      if |counters| > 0 {
        var sampled := SampleCounters(counters, window, cancellation);
        if sampled.Err? {
          return Err(sampled.message);
        }
        observations := observations + sampled.value.observations;
        deltas := sampled.value.deltas;
        warnings := warnings + sampled.value.warnings;
      }
      ReportParts(caps, cs, window, observations, deltas, warnings);
      var report := SortReport(observations, deltas, warnings);
      r := Ok(report);
    }
  }
}
