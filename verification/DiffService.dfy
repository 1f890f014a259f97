/** The diff use case: the two newest snapshots of a target, compared. */
module DiffService {
  import opened Lists
  import opened Signal
  import opened Snapshot
  import opened Listing = History
  import opened BaselineStore
  import Clock
  import QueryRegression
  import SnapshotDiff

  datatype Report = Report(
    target: string,
    previousId: string,
    currentId: string,
    previousAt: Clock.Time,
    currentAt: Clock.Time,
    changes: seq<SnapshotDiff.Change>,
    regressions: seq<QueryRegression.Regression>)

  /** What a report on two snapshots says. */
  ghost predicate Reports(r: Report, previous: Snapshot, current: Snapshot, metrics: Option<QueryRegression.MetricPair>) {
    && r.target == current.target && r.previousId == previous.id && r.currentId == current.id
    && r.previousAt == previous.collectedAt && r.currentAt == current.collectedAt
    && r.changes == SnapshotDiff.Changes(previous.observations, current.observations)
    && (metrics.None? ==> r.regressions == [])
    && (metrics.Some? && metrics.value.callsKey != "" && metrics.value.latencyKey != "" ==>
          QueryRegression.IsReport(previous.deltas, current.deltas, metrics.value, QueryRegression.DEFAULT_POLICY, r.regressions))
  }

  class Service<P(!new, ==)> {
    const store: Store<P>

    constructor (store: Store<P>)
      ensures this.store == store
    {
      this.store := store;
    }

    /** The second newest and the newest snapshot of the target; not found with fewer than two. */
    method NewestPair(target: string) returns (pair: Result<(Snapshot, Snapshot)>)
      requires store.Valid() && target != ""
      ensures store.Ordered(target) ==> forall listing | IsListing(store.History(), target, listing) :: IsNewestPair(pair, target, listing)
    {
      var current := store.Latest(target);
      if current.Err? {
        return Err(current.message);
      }
      var previous := store.Previous(target, current.value.collectedAt);
      if store.Ordered(target) {
        forall listing: seq<Snapshot> | IsListing(store.History(), target, listing)
          ensures |listing| > 0 && current.value == listing[0]
          ensures previous == if |listing| < 2 then Err(NOT_FOUND) else Ok(listing[1])
          ensures |listing| > 1 ==> listing[1].target == target && listing[0].target == target
        {
          NewestTwo(store, target, listing, current.value, previous);
        }
      }
      if previous.Err? {
        return Err(previous.message);
      }
      return Ok((previous.value, current.value));
    }

    /** The second newest and the newest snapshot of the target are compared, at strictly increasing times;
        with fewer than two there is no report. */
    method Run(target: string, metrics: Option<QueryRegression.MetricPair>) returns (r: Result<Report>)
      requires store.Valid()
      ensures target == "" ==> r.Err?
      ensures target != "" && store.Ordered(target) ==>
        forall listing | IsListing(store.History(), target, listing) :: IsAnswer(r, listing, metrics)
    {
      if target == "" {
        return Err("target fingerprint is required");
      }
      var pair := NewestPair(target);
      r := ReportOn(target, pair, metrics);
    }
  }

  /** Not found with fewer than two snapshots; else a report on the newest two, at increasing times. */
  ghost predicate IsAnswer(r: Result<Report>, listing: seq<Snapshot>, metrics: Option<QueryRegression.MetricPair>) {
    if |listing| < 2 then r == Err(NOT_FOUND)
    else r.Ok? && Reports(r.value, listing[1], listing[0], metrics) && Clock.Before(r.value.previousAt, r.value.currentAt)
  }

  ghost predicate IsNewestPair(pair: Result<(Snapshot, Snapshot)>, target: string, listing: seq<Snapshot>) {
    if |listing| < 2 then pair == Err(NOT_FOUND)
    else
      && pair == Ok((listing[1], listing[0]))
      && listing[1].target == target && listing[0].target == target
      && Clock.Before(listing[1].collectedAt, listing[0].collectedAt)
  }

  /** The report on two snapshots. */
  method Compared(target: string, previous: Snapshot, current: Snapshot, metrics: Option<QueryRegression.MetricPair>)
    returns (r: Result<Report>)
    ensures target != "" && previous.target == target && current.target == target ==>
      r.Ok? && Reports(r.value, previous, current, metrics)
  {
    var diff := SnapshotDiff.Compare(previous, current);
    if diff.Err? {
      return Err(diff.message);
    }
    var regressions := [];
    if metrics.Some? {
      regressions := QueryRegression.DetectQueryRegressions(previous, current, metrics.value, QueryRegression.DEFAULT_POLICY);
    }
    return Ok(Report(target, diff.value.previousId, diff.value.currentId,
      previous.collectedAt, current.collectedAt, diff.value.changes, regressions));
  }

  /** The report on what the queries gave. */
  method ReportOn(target: string, pair: Result<(Snapshot, Snapshot)>, metrics: Option<QueryRegression.MetricPair>)
    returns (r: Result<Report>)
    requires target != ""
    ensures forall listing | IsNewestPair(pair, target, listing) :: IsAnswer(r, listing, metrics)
  {
    if pair.Err? {
      return Err(pair.message);
    }
    r := Compared(target, pair.value.0, pair.value.1, metrics);
  }

  lemma NewestTwo<P(!new)>(store: Store<P>, target: string, listing: seq<Snapshot>, current: Snapshot, previous: Result<Snapshot>)
    requires store.Valid() && store.Ordered(target) && IsListing(store.History(), target, listing)
    requires Ok(current) == Listing.Latest(listing)
    requires store.Splits(target, current.collectedAt) ==> previous == Listing.Previous(listing, current.collectedAt)
    ensures |listing| > 0 && current == listing[0]
    ensures previous == if |listing| < 2 then Err(NOT_FOUND) else Ok(listing[1])
    ensures |listing| > 1 ==> listing[1].target == target && listing[0].target == target
  {
    assert listing[0] in listing && (|listing| > 1 ==> listing[1] in listing);
    assert current in store.History() && current.target == target;
    StoredTimeSplits(store, current);
    PreviousOfLatest(listing);
  }
}
