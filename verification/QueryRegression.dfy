/** Queries whose mean latency rose between two sampled windows. */
module QueryRegression {
  import opened Lists
  import opened Ordering
  import opened Signal
  import opened Snapshot
  import Sorting
  import Text

  datatype MetricPair = MetricPair(callsKey: string, latencyKey: string)

  datatype Policy = Policy(
    minimumCurrentCalls: real,
    minimumPreviousCalls: real,
    minimumAbsoluteIncrease: real,
    minimumRatio: real)

  const DEFAULT_POLICY := Policy(10.0, 5.0, 5.0, 2.0)

  datatype Regression = Regression(
    obj: Ref,
    previousMean: real,
    currentMean: real,
    ratio: real,
    addedLatency: real,
    currentCalls: real)

  // ---- sampled windows ------------------------------------------------------------------------

  datatype Window = Window(obj: Ref, calls: Option<real>, latency: Option<real>)

  /** A delta that a window is built from. */
  predicate Counts(d: Delta, pair: MetricPair) {
    d.exactness == EXACTNESS_SAMPLED && (d.key == pair.callsKey || d.key == pair.latencyKey) && d.delta >= 0.0
  }

  predicate IsCalls(d: Delta, pair: MetricPair) {
    Counts(d, pair) && d.key == pair.callsKey
  }

  predicate IsLatency(d: Delta, pair: MetricPair) {
    Counts(d, pair) && d.key != pair.callsKey
  }

  /** The last delta of an object that satisfies a condition. */
  ghost function LastDelta(deltas: seq<Delta>, id: string, p: Delta -> bool): Option<Delta> {
    if deltas == [] then None
    else
      var d := deltas[|deltas| - 1];
      if ObjectIdentity(d.obj) == id && p(d) then Some(d) else LastDelta(deltas[..|deltas| - 1], id, p)
  }

  ghost function CallsOf(pair: MetricPair): Delta -> bool {
    (d: Delta) => IsCalls(d, pair)
  }

  ghost function LatencyOf(pair: MetricPair): Delta -> bool {
    (d: Delta) => IsLatency(d, pair)
  }

  ghost function EitherOf(pair: MetricPair): Delta -> bool {
    (d: Delta) => Counts(d, pair)
  }

  function Amount(d: Option<Delta>): Option<real> {
    if d.Some? then Some(d.value.delta) else None
  }

  /** A window holds the object's last calls and last latency, and the object as last seen. */
  ghost predicate IsWindow(w: Window, deltas: seq<Delta>, pair: MetricPair, id: string) {
    && w.calls == Amount(LastDelta(deltas, id, CallsOf(pair)))
    && w.latency == Amount(LastDelta(deltas, id, LatencyOf(pair)))
    && LastDelta(deltas, id, EitherOf(pair)).Some? && w.obj == LastDelta(deltas, id, EitherOf(pair)).value.obj
  }

  ghost predicate AreWindows(m: map<string, Window>, deltas: seq<Delta>, pair: MetricPair) {
    forall id :: if id in m then IsWindow(m[id], deltas, pair, id) else LastDelta(deltas, id, EitherOf(pair)).None?
  }

  lemma LastDeltaStep(deltas: seq<Delta>, d: Delta, id: string, p: Delta -> bool)
    ensures LastDelta(deltas + [d], id, p) ==
      if ObjectIdentity(d.obj) == id && p(d) then Some(d) else LastDelta(deltas, id, p)
  {
    assert (deltas + [d])[..|deltas|] == deltas;
  }

  lemma {:induction false} SpecificMeansEither(deltas: seq<Delta>, id: string, pair: MetricPair)
    requires LastDelta(deltas, id, EitherOf(pair)).None?
    ensures LastDelta(deltas, id, CallsOf(pair)).None? && LastDelta(deltas, id, LatencyOf(pair)).None?
  {
    if deltas != [] {
      SpecificMeansEither(deltas[..|deltas| - 1], id, pair);
    }
  }

  function Updated(w: Window, d: Delta, pair: MetricPair): Window {
    if d.key == pair.callsKey then Window(d.obj, Some(d.delta), w.latency) else Window(d.obj, w.calls, Some(d.delta))
  }

  lemma WindowsStep(m: map<string, Window>, deltas: seq<Delta>, d: Delta, pair: MetricPair, next: map<string, Window>)
    requires AreWindows(m, deltas, pair)
    requires next == if !Counts(d, pair) then m else
      m[ObjectIdentity(d.obj) := Updated(if ObjectIdentity(d.obj) in m then m[ObjectIdentity(d.obj)] else Window(d.obj, None, None), d, pair)]
    ensures AreWindows(next, deltas + [d], pair)
  {
    forall id
      ensures if id in next then IsWindow(next[id], deltas + [d], pair, id)
        else LastDelta(deltas + [d], id, EitherOf(pair)).None?
    {
      LastDeltaStep(deltas, d, id, CallsOf(pair));
      LastDeltaStep(deltas, d, id, LatencyOf(pair));
      LastDeltaStep(deltas, d, id, EitherOf(pair));
      if id !in m {
        SpecificMeansEither(deltas, id, pair);
      }
    }
  }

  predicate Full(w: Window) {
    w.calls.Some? && w.latency.Some?
  }

  method CollectWindows(deltas: seq<Delta>, pair: MetricPair) returns (out: map<string, Window>)
    ensures AreWindows(out, deltas, pair)
  {
    out := map[];
    for i := 0 to |deltas|
      invariant AreWindows(out, deltas[..i], pair)
    {
      var d := deltas[i];
      ghost var before := out;
      if Counts(d, pair) {
        var id := ObjectIdentity(d.obj);
        var window := if id in out then out[id] else Window(d.obj, None, None);
        out := out[id := Updated(window, d, pair)];
      }
      WindowsStep(before, deltas[..i], d, pair, out);
      assert deltas[..i + 1] == deltas[..i] + [d];
    }
    assert deltas[..|deltas|] == deltas;
  }

  /** The windows that have both halves, and those still to be looked at. */
  ghost predicate Pruned(out: map<string, Window>, all: map<string, Window>, left: set<string>) {
    forall id :: (id in out <==> id in all && (id in left || Full(all[id]))) && (id in out ==> out[id] == all[id])
  }

  /** Both loops: collect, then delete the windows that lack a half. */
  method SampledMetrics(deltas: seq<Delta>, pair: MetricPair) returns (out: map<string, Window>, ghost all: map<string, Window>)
    ensures AreWindows(all, deltas, pair)
    ensures out == map id | id in all && Full(all[id]) :: all[id]
  {
    out := CollectWindows(deltas, pair);
    all := out;
    out := Prune(out);
  }

  /** Deleting from the map while going through it. */
  method Prune(windows: map<string, Window>) returns (out: map<string, Window>)
    ensures out == map id | id in windows && Full(windows[id]) :: windows[id]
  {
    out := windows;
    var left := out.Keys;
    while left != {}
      invariant left <= windows.Keys && Pruned(out, windows, left)
      decreases left
    {
      var id :| id in left;
      left := left - {id};
      if !Full(out[id]) {
        out := out - {id};
      }
    }
  }

  // ---- detection ------------------------------------------------------------------------------

  /** The regression of one object between two full windows, if the policy calls it one. */
  function RegressionBetween(before: Window, after: Window, policy: Policy): Option<Regression>
    requires Full(before) && Full(after)
  {
    var beforeCalls, afterCalls := before.calls.value, after.calls.value;
    if afterCalls < policy.minimumCurrentCalls || beforeCalls < policy.minimumPreviousCalls ||
       afterCalls <= 0.0 || beforeCalls <= 0.0 then None
    else
      var previousMean := before.latency.value / beforeCalls;
      var currentMean := after.latency.value / afterCalls;
      var increase := currentMean - previousMean;
      if previousMean <= 0.0 || increase < policy.minimumAbsoluteIncrease then None
      else if currentMean / previousMean < policy.minimumRatio then None
      else Some(Regression(after.obj, previousMean, currentMean, currentMean / previousMean, afterCalls * increase, afterCalls))
  }

  /** The object has last sampled calls and a last sampled latency. */
  ghost predicate Sampled(deltas: seq<Delta>, pair: MetricPair, id: string) {
    LastDelta(deltas, id, CallsOf(pair)).Some? && LastDelta(deltas, id, LatencyOf(pair)).Some?
  }

  ghost function WindowAt(deltas: seq<Delta>, pair: MetricPair, id: string): Window
    requires Sampled(deltas, pair, id)
  {
    var either := LastDelta(deltas, id, EitherOf(pair));
    Window(if either.Some? then either.value.obj else Ref("", ""),
      Amount(LastDelta(deltas, id, CallsOf(pair))), Amount(LastDelta(deltas, id, LatencyOf(pair))))
  }

  /** What an object's last sampled deltas in both snapshots amount to. */
  ghost function RegressionAt(previous: seq<Delta>, current: seq<Delta>, pair: MetricPair, policy: Policy, id: string): Option<Regression> {
    if Sampled(previous, pair, id) && Sampled(current, pair, id)
    then RegressionBetween(WindowAt(previous, pair, id), WindowAt(current, pair, id), policy)
    else None
  }

  /** Most added latency first, then by object. */
  function RegressionOrder(): (Regression, Regression) -> bool {
    (a: Regression, b: Regression) =>
      if a.addedLatency == b.addedLatency then Text.Less(ObjectIdentity(a.obj), ObjectIdentity(b.obj))
      else a.addedLatency > b.addedLatency
  }

  lemma RegressionOrderIsWeakOrder()
    ensures Sorting.WeakOrder(RegressionOrder())
  {
    var less := RegressionOrder();
    forall x: Regression, y: Regression ensures less(x, y) ==> !less(y, x) {
      Text.LessAsymmetric(ObjectIdentity(x.obj), ObjectIdentity(y.obj));
    }
    forall x: Regression, y: Regression, z: Regression | !less(y, x) && !less(z, y) ensures !less(z, x) {
      if x.addedLatency == y.addedLatency == z.addedLatency {
        Text.LessTransitive(ObjectIdentity(x.obj), ObjectIdentity(y.obj), ObjectIdentity(z.obj));
      }
    }
  }

  /** Strictly ordered, and exactly the regressions of all objects. */
  ghost predicate IsReport(previous: seq<Delta>, current: seq<Delta>, pair: MetricPair, policy: Policy, out: seq<Regression>) {
    && (forall i, j | 0 <= i < j < |out| :: RegressionOrder()(out[i], out[j]))
    && (forall r | r in out :: RegressionAt(previous, current, pair, policy, ObjectIdentity(r.obj)) == Some(r))
    && (forall id | RegressionAt(previous, current, pair, policy, id).Some? ::
          RegressionAt(previous, current, pair, policy, id).value in out)
  }

  lemma {:induction false} LastDeltaIsOfObject(deltas: seq<Delta>, id: string, p: Delta -> bool)
    ensures LastDelta(deltas, id, p).Some? ==> ObjectIdentity(LastDelta(deltas, id, p).value.obj) == id
  {
    if deltas != [] {
      LastDeltaIsOfObject(deltas[..|deltas| - 1], id, p);
    }
  }

  lemma FullWindow(m: map<string, Window>, deltas: seq<Delta>, pair: MetricPair, id: string)
    requires AreWindows(m, deltas, pair)
    ensures id in m && Full(m[id]) <==> Sampled(deltas, pair, id)
    ensures Sampled(deltas, pair, id) ==> m[id] == WindowAt(deltas, pair, id) && ObjectIdentity(m[id].obj) == id
  {
    LastDeltaIsOfObject(deltas, id, EitherOf(pair));
    if id !in m {
      SpecificMeansEither(deltas, id, pair);
    }
  }

  /** A regression is reported for the object it was computed for. */
  lemma RegressionNamesItsObject(previous: seq<Delta>, current: seq<Delta>, pair: MetricPair, policy: Policy, id: string)
    requires RegressionAt(previous, current, pair, policy, id).Some?
    ensures ObjectIdentity(RegressionAt(previous, current, pair, policy, id).value.obj) == id
  {
    LastDeltaIsOfObject(current, id, EitherOf(pair));
    if LastDelta(current, id, EitherOf(pair)).None? {
      SpecificMeansEither(current, id, pair);
    }
  }

  /** Only one sequence is the report, so the order in which objects are looked at cannot show. */
  lemma ReportIsUnique(previous: seq<Delta>, current: seq<Delta>, pair: MetricPair, policy: Policy, x: seq<Regression>, y: seq<Regression>)
    requires IsReport(previous, current, pair, policy, x) && IsReport(previous, current, pair, policy, y)
    ensures x == y
  {
    RegressionOrderIsWeakOrder();
    StrictIsSorted(x);
    StrictIsSorted(y);
    Sorting.DistinctMultiplicity(x);
    Sorting.DistinctMultiplicity(y);
    forall r ensures multiset(x)[r] == multiset(y)[r] {
      assert (r in multiset(x) <==> r in x) && (r in multiset(y) <==> r in y);
    }
    assert multiset(x) == multiset(y);
    Sorting.SortedUnique(x, y, RegressionOrder());
  }

  lemma StrictIsSorted(xs: seq<Regression>)
    requires Sorting.WeakOrder(RegressionOrder())
    requires forall i, j | 0 <= i < j < |xs| :: RegressionOrder()(xs[i], xs[j])
    ensures Sorting.SortedBy(xs, RegressionOrder()) && Sorting.Decided(xs, RegressionOrder())
    ensures forall i, j | 0 <= i < j < |xs| :: xs[i] != xs[j]
  {
    forall i, j | 0 <= i < j < |xs| ensures xs[i] != xs[j] && !RegressionOrder()(xs[j], xs[i]) {
      assert RegressionOrder()(xs[i], xs[j]);
    }
  }

  /** The regressions found so far, one for each object in `seen`. */
  ghost predicate Found(previous: seq<Delta>, current: seq<Delta>, pair: MetricPair, policy: Policy, seen: set<string>, out: seq<Regression>) {
    && (forall r | r in out ::
          ObjectIdentity(r.obj) in seen && RegressionAt(previous, current, pair, policy, ObjectIdentity(r.obj)) == Some(r))
    && (forall i, j | 0 <= i < j < |out| :: out[i] != out[j])
    && (forall id | id in seen && RegressionAt(previous, current, pair, policy, id).Some? ::
          RegressionAt(previous, current, pair, policy, id).value in out)
  }

  lemma FoundOneMore(previous: seq<Delta>, current: seq<Delta>, pair: MetricPair, policy: Policy, seen: set<string>, out: seq<Regression>, id: string)
    requires Found(previous, current, pair, policy, seen, out) && id !in seen
    ensures var r := RegressionAt(previous, current, pair, policy, id);
      Found(previous, current, pair, policy, seen + {id}, if r.Some? then out + [r.value] else out)
  {
    if RegressionAt(previous, current, pair, policy, id).Some? {
      RegressionNamesItsObject(previous, current, pair, policy, id);
    }
  }

  lemma SortedFoundIsReport(previous: seq<Delta>, current: seq<Delta>, pair: MetricPair, policy: Policy, seen: set<string>, found: seq<Regression>, out: seq<Regression>)
    requires Found(previous, current, pair, policy, seen, found)
    requires forall id | RegressionAt(previous, current, pair, policy, id).Some? :: id in seen
    requires multiset(out) == multiset(found) && Sorting.SortedBy(out, RegressionOrder())
    ensures IsReport(previous, current, pair, policy, out)
  {
    Sorting.SameElements(out, found);
    Sorting.DistinctPermutation(found, out);
    forall i, j | 0 <= i < j < |out| ensures RegressionOrder()(out[i], out[j]) {
      assert !RegressionOrder()(out[j], out[i]) && out[i] in found && out[j] in found;
      Text.LessTotal(ObjectIdentity(out[i].obj), ObjectIdentity(out[j].obj));
    }
  }

  /** Exactly the objects whose last sampled calls and latency in both snapshots meet the policy, in a
      strict order; nothing for different targets or missing metric names. */
  method DetectQueryRegressions(previous: Snapshot, current: Snapshot, pair: MetricPair, policy: Policy) returns (out: seq<Regression>)
    ensures
      if previous.target == "" || previous.target != current.target || pair.callsKey == "" || pair.latencyKey == ""
      then out == []
      else IsReport(previous.deltas, current.deltas, pair, policy, out)
  {
    if previous.target == "" || previous.target != current.target || pair.callsKey == "" || pair.latencyKey == "" {
      return [];
    }
    var a, b := previous.deltas, current.deltas;
    var previousMetrics, allPrevious := SampledMetrics(a, pair);
    var currentMetrics, allCurrent := SampledMetrics(b, pair);
    var found: seq<Regression> := [];
    var seen, left := {}, currentMetrics.Keys;
    while left != {}
      invariant seen !! left && seen + left == currentMetrics.Keys
      invariant Found(a, b, pair, policy, seen, found)
      decreases left
    {
      var id :| id in left;
      FullWindow(allPrevious, a, pair, id);
      FullWindow(allCurrent, b, pair, id);
      FoundOneMore(a, b, pair, policy, seen, found, id);
      if id in previousMetrics {
        var r := RegressionBetween(previousMetrics[id], currentMetrics[id], policy);
        if r.Some? {
          found := found + [r.value];
        }
      }
      seen, left := seen + {id}, left - {id};
    }
    forall id | RegressionAt(a, b, pair, policy, id).Some? ensures id in seen {
      FullWindow(allCurrent, b, pair, id);
    }
    RegressionOrderIsWeakOrder();
    out := Sorting.Sort(found, RegressionOrder());
    SortedFoundIsReport(a, b, pair, policy, seen, found, out);
  }

  // ---- what a reported number means -----------------------------------------------------------

  lemma Mean(total: real, count: real)
    requires count > 0.0
    ensures count * (total / count) == total
  {
  }

  lemma Product(x: real, y: real, a: real, b: real)
    requires x >= a >= 0.0 && y >= b >= 0.0
    ensures x * y >= a * b
  {
    assert x * y >= a * y;
    assert a * y >= a * b;
  }

  /** The added latency is what the current calls took beyond the previous mean, and with thresholds that
      are not negative it is at least the least calls times the least increase. */
  lemma AddedLatencyMeaning(before: Window, after: Window, policy: Policy)
    requires Full(before) && Full(after) && RegressionBetween(before, after, policy).Some?
    ensures var r := RegressionBetween(before, after, policy).value;
      && r.addedLatency == after.latency.value - r.previousMean * r.currentCalls
      && (policy.minimumCurrentCalls >= 0.0 && policy.minimumAbsoluteIncrease >= 0.0 ==>
            r.addedLatency >= policy.minimumCurrentCalls * policy.minimumAbsoluteIncrease)
      && r.currentMean >= policy.minimumRatio * r.previousMean
  {
    var r := RegressionBetween(before, after, policy).value;
    var calls, increase := after.calls.value, r.currentMean - r.previousMean;
    Mean(after.latency.value, calls);
    assert calls * increase == calls * r.currentMean - calls * r.previousMean;
    if policy.minimumCurrentCalls >= 0.0 && policy.minimumAbsoluteIncrease >= 0.0 {
      Product(calls, increase, policy.minimumCurrentCalls, policy.minimumAbsoluteIncrease);
    }
    Mean(r.currentMean, r.previousMean);
    RatioBound(r.currentMean / r.previousMean, policy.minimumRatio, r.previousMean);
  }

  lemma RatioBound(ratio: real, least: real, mean: real)
    requires ratio >= least && mean > 0.0
    ensures mean * ratio >= least * mean
  {
  }

  // ---- what is reported, in terms of the deltas -----------------------------------------------

  /** A sampled, not negative delta of an object under a key. */
  predicate SampledUnder(d: Delta, id: string, key: string) {
    d.exactness == "sampled" && d.delta >= 0.0 && d.key == key && d.obj.kind + "|" + d.obj.id == id
  }

  /** The i-th delta is the last such delta, and x its amount. */
  ghost predicate LastAmountAt(deltas: seq<Delta>, i: nat, id: string, key: string, x: real) {
    && i < |deltas| && SampledUnder(deltas[i], id, key) && deltas[i].delta == x
    && forall k | i < k < |deltas| :: !SampledUnder(deltas[k], id, key)
  }

  ghost predicate LastAmount(deltas: seq<Delta>, id: string, key: string, x: real) {
    exists i: nat :: LastAmountAt(deltas, i, id, key, x)
  }

  /** The calls and the total latency that an object was last sampled with in a snapshot. */
  ghost predicate LastSample(deltas: seq<Delta>, id: string, pair: MetricPair, calls: real, latency: real) {
    LastAmount(deltas, id, pair.callsKey, calls) && LastAmount(deltas, id, pair.latencyKey, latency)
  }

  /** Enough calls in both windows, and a mean latency that rose by enough, absolutely and relatively. */
  predicate Regressed(policy: Policy, c0: real, l0: real, c1: real, l1: real) {
    && c0 >= policy.minimumPreviousCalls && c0 > 0.0 && c1 >= policy.minimumCurrentCalls && c1 > 0.0
    && l0 / c0 > 0.0
    && l1 / c1 - l0 / c0 >= policy.minimumAbsoluteIncrease
    && (l1 / c1) / (l0 / c0) >= policy.minimumRatio
  }

  ghost predicate SaysSo(r: Regression, id: string, c0: real, l0: real, c1: real, l1: real)
    requires c0 > 0.0 && c1 > 0.0 && l0 / c0 > 0.0
  {
    && r.obj.kind + "|" + r.obj.id == id && r.currentCalls == c1
    && r.previousMean == l0 / c0 && r.currentMean == l1 / c1 && r.ratio == r.currentMean / r.previousMean
    && r.addedLatency == c1 * (r.currentMean - r.previousMean)
  }

  lemma {:induction false} LastDeltaIsLast(deltas: seq<Delta>, id: string, key: string, p: Delta -> bool, x: real)
    requires forall d: Delta | ObjectIdentity(d.obj) == id :: p(d) <==> SampledUnder(d, id, key)
    ensures LastAmount(deltas, id, key, x) <==> LastDelta(deltas, id, p).Some? && LastDelta(deltas, id, p).value.delta == x
  {
    if deltas != [] {
      var n := |deltas| - 1;
      var front := deltas[..n];
      LastDeltaIsLast(front, id, key, p, x);
      if SampledUnder(deltas[n], id, key) {
        assert LastAmountAt(deltas, n, id, key, deltas[n].delta);
      } else {
        assert forall i: nat | LastAmountAt(deltas, i, id, key, x) :: LastAmountAt(front, i, id, key, x);
        assert forall i: nat | LastAmountAt(front, i, id, key, x) :: LastAmountAt(deltas, i, id, key, x);
      }
    }
  }

  lemma SampleMeaning(deltas: seq<Delta>, pair: MetricPair, id: string, calls: real, latency: real)
    requires pair.callsKey != pair.latencyKey
    ensures LastSample(deltas, id, pair, calls, latency) <==>
      && Sampled(deltas, pair, id)
      && WindowAt(deltas, pair, id).calls == Some(calls) && WindowAt(deltas, pair, id).latency == Some(latency)
  {
    LastDeltaIsLast(deltas, id, pair.callsKey, CallsOf(pair), calls);
    LastDeltaIsLast(deltas, id, pair.latencyKey, LatencyOf(pair), latency);
  }

  lemma BetweenMeaning(before: Window, after: Window, policy: Policy)
    requires Full(before) && Full(after)
    ensures var c0, l0, c1, l1 := before.calls.value, before.latency.value, after.calls.value, after.latency.value;
      && (RegressionBetween(before, after, policy).Some? <==> Regressed(policy, c0, l0, c1, l1))
      && (RegressionBetween(before, after, policy).Some? ==>
            SaysSo(RegressionBetween(before, after, policy).value, ObjectIdentity(after.obj), c0, l0, c1, l1))
  {
  }

  /** An object is reported exactly when its last samples in the two snapshots say that it regressed, and
      then with their numbers. */
  lemma ReportedIffRegressed(previous: seq<Delta>, current: seq<Delta>, pair: MetricPair, policy: Policy, out: seq<Regression>,
      id: string, c0: real, l0: real, c1: real, l1: real)
    requires pair.callsKey != pair.latencyKey && IsReport(previous, current, pair, policy, out)
    requires LastSample(previous, id, pair, c0, l0) && LastSample(current, id, pair, c1, l1)
    ensures Regressed(policy, c0, l0, c1, l1) <==> exists r :: r in out && ObjectIdentity(r.obj) == id
    ensures Regressed(policy, c0, l0, c1, l1) ==> forall r | r in out && ObjectIdentity(r.obj) == id :: SaysSo(r, id, c0, l0, c1, l1)
  {
    SampleMeaning(previous, pair, id, c0, l0);
    SampleMeaning(current, pair, id, c1, l1);
    BetweenMeaning(WindowAt(previous, pair, id), WindowAt(current, pair, id), policy);
    if RegressionAt(previous, current, pair, policy, id).Some? {
      RegressionNamesItsObject(previous, current, pair, policy, id);
    }
  }

  /** With one key for both, no object has a latency, and nothing is reported. */
  lemma OneKeyReportsNothing(previous: seq<Delta>, current: seq<Delta>, pair: MetricPair, policy: Policy, out: seq<Regression>)
    requires pair.callsKey == pair.latencyKey && IsReport(previous, current, pair, policy, out)
    ensures out == []
  {
    if out != [] {
      assert out[0] in out;
      NoLatency(current, pair, ObjectIdentity(out[0].obj));
    }
  }

  lemma {:induction false} NoLatency(deltas: seq<Delta>, pair: MetricPair, id: string)
    requires pair.callsKey == pair.latencyKey
    ensures LastDelta(deltas, id, LatencyOf(pair)).None?
  {
    if deltas != [] {
      NoLatency(deltas[..|deltas| - 1], pair, id);
    }
  }

  /** No other object is reported, and the order is by added latency, the greatest first, then by object. */
  lemma OnlySampledReported(previous: seq<Delta>, current: seq<Delta>, pair: MetricPair, policy: Policy, out: seq<Regression>)
    requires pair.callsKey != pair.latencyKey && IsReport(previous, current, pair, policy, out)
    ensures forall r | r in out :: exists c0, l0, c1, l1 ::
      LastSample(previous, ObjectIdentity(r.obj), pair, c0, l0) && LastSample(current, ObjectIdentity(r.obj), pair, c1, l1)
    ensures forall i, j | 0 <= i < j < |out| ::
      out[i].addedLatency > out[j].addedLatency ||
      (out[i].addedLatency == out[j].addedLatency && Text.Less(ObjectIdentity(out[i].obj), ObjectIdentity(out[j].obj)))
  {
    forall r | r in out ensures exists c0, l0, c1, l1 ::
      LastSample(previous, ObjectIdentity(r.obj), pair, c0, l0) && LastSample(current, ObjectIdentity(r.obj), pair, c1, l1)
    {
      var id := ObjectIdentity(r.obj);
      assert RegressionAt(previous, current, pair, policy, id).Some?;
      var v, w := WindowAt(previous, pair, id), WindowAt(current, pair, id);
      SampleMeaning(previous, pair, id, v.calls.value, v.latency.value);
      SampleMeaning(current, pair, id, w.calls.value, w.latency.value);
    }
    forall i, j | 0 <= i < j < |out|
      ensures out[i].addedLatency > out[j].addedLatency ||
        (out[i].addedLatency == out[j].addedLatency && Text.Less(ObjectIdentity(out[i].obj), ObjectIdentity(out[j].obj)))
    {
      assert RegressionOrder()(out[i], out[j]);
    }
  }
}
