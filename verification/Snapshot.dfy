/** Snapshots in normal form: what history stores, sends through JSON and compares. */
module Snapshot {
  import opened Lists
  import opened Ordering
  import opened Signal
  import Clock
  import Sorting
  import Text

  const SCHEMA_VERSION := "dbprobe.snapshot/v1alpha1"

  datatype Finding = Finding(
    id: string,
    title: string,
    severity: string,
    obj: Ref,
    evidence: seq<Observation>,
    summary: string,
    guidance: string,
    confidence: real)

  datatype SnapshotInput = SnapshotInput(
    target: string,
    engine: string,
    adapterId: string,
    adapterVersion: string,
    collectedAt: Clock.Time,
    capabilities: seq<string>,
    observations: seq<Observation>,
    deltas: seq<Delta>,
    findings: seq<Finding>)

  datatype Snapshot = Snapshot(
    schemaVersion: string,
    id: string,
    target: string,
    engine: string,
    adapterId: string,
    adapterVersion: string,
    collectedAt: Clock.Time,
    capabilities: seq<string>,
    observations: seq<Observation>,
    deltas: seq<Delta>,
    findings: seq<Finding>)

  // ---- the parts of a snapshot ----------------------------------------------------------------

  function Distinct(values: seq<string>): (r: seq<string>)
    ensures forall x :: x in r <==> x in values
    ensures forall i, j | 0 <= i < j < |r| :: r[i] != r[j]
  {
    if values == [] then [] else
      var front, last := values[..|values| - 1], values[|values| - 1];
      assert values == front + [last];
      if last in front then Distinct(front) else Distinct(front) + [last]
  }

  /** The set of capabilities, in increasing order. */
  function Normalized(values: seq<string>): (r: seq<string>)
    ensures Increasing(r)
    ensures forall x :: x in r <==> x in values
  {
    KeyOrderIsWeakOrder(Self);
    var distinct := Distinct(values);
    var r := Sorting.Sorted(distinct, StringOrder());
    Sorting.SameElements(r, distinct);
    Sorting.DistinctPermutation(distinct, r);
    SortedDistinctIsIncreasing(r);
    r
  }

  /** Query text never enters a snapshot. */
  function Publishable(o: Observation): Option<Observation> {
    if o.sensitivity == SENSITIVITY_QUERY_TEXT then None else Some(o)
  }

  function Cloned(values: seq<Observation>): seq<Observation> {
    FilterMap(values, Publishable)
  }

  function ClonedFinding(f: Finding): Finding {
    f.(evidence := Cloned(f.evidence))
  }

  function Seed(target: string, at: Clock.Time): string {
    target + "|" + Clock.Format(at)
  }

  /** temporal.NewSnapshot; `hash` stands for the first 16 bytes of SHA-256, in hex. */
  function NewSnapshot(hash: string -> string, input: SnapshotInput): Result<Snapshot> {
    if input.target == "" then Err("snapshot target fingerprint is required")
    else if input.engine == "" then Err("snapshot engine is required")
    else if input.adapterId == "" then Err("snapshot adapter ID is required")
    else if input.collectedAt == Clock.ZERO then Err("snapshot collection time is required")
    else Ok(Snapshot(
      SCHEMA_VERSION,
      hash(Seed(input.target, input.collectedAt)),
      input.target,
      input.engine,
      input.adapterId,
      input.adapterVersion,
      input.collectedAt,
      Normalized(input.capabilities),
      Cloned(input.observations),
      input.deltas,
      Map(input.findings, ClonedFinding)))
  }

  function InputOf(s: Snapshot): SnapshotInput {
    SnapshotInput(s.target, s.engine, s.adapterId, s.adapterVersion, s.collectedAt,
      s.capabilities, s.observations, s.deltas, s.findings)
  }

  // ---- the loops that build it ----------------------------------------------------------------

  method NormalizeCapabilities(values: seq<string>) returns (out: seq<string>)
    ensures out == Normalized(values)
  {
    var seen: set<string> := {};
    for i := 0 to |values|
      invariant seen == set x | x in values[..i]
    {
      assert values[..i + 1] == values[..i] + [values[i]];
      seen := seen + {values[i]};
    }
    assert values[..|values|] == values;
    out := SortedKeys(seen);
    IncreasingUnique(out, Normalized(values));
  }

  method CloneObservations(values: seq<Observation>) returns (out: seq<Observation>)
    ensures out == Cloned(values)
  {
    out := [];
    for i := 0 to |values|
      invariant out == Cloned(values[..i])
    {
      FilterMapStep(values, i, Publishable);
      if values[i].sensitivity != SENSITIVITY_QUERY_TEXT {
        out := out + [values[i]];
      }
    }
    assert values[..|values|] == values;
  }

  method CloneFindings(values: seq<Finding>) returns (out: seq<Finding>)
    ensures out == Map(values, ClonedFinding)
  {
    out := [];
    for i := 0 to |values|
      invariant out == Map(values, ClonedFinding)[..i]
    {
      var evidence := CloneObservations(values[i].evidence);
      out := out + [values[i].(evidence := evidence)];
    }
  }

  method BuildSnapshot(hash: string -> string, input: SnapshotInput) returns (r: Result<Snapshot>)
    ensures r == NewSnapshot(hash, input)
  {
    if input.target == "" {
      return Err("snapshot target fingerprint is required");
    }
    if input.engine == "" {
      return Err("snapshot engine is required");
    }
    if input.adapterId == "" {
      return Err("snapshot adapter ID is required");
    }
    if input.collectedAt == Clock.ZERO {
      return Err("snapshot collection time is required");
    }
    var capabilities := NormalizeCapabilities(input.capabilities);
    var observations := CloneObservations(input.observations);
    var findings := CloneFindings(input.findings);
    return Ok(Snapshot(SCHEMA_VERSION, hash(Seed(input.target, input.collectedAt)), input.target, input.engine,
      input.adapterId, input.adapterVersion, input.collectedAt, capabilities, observations, input.deltas, findings));
  }

  // ---- normal form ----------------------------------------------------------------------------

  /** A snapshot that NewSnapshot gives back unchanged. */
  ghost predicate Normal(hash: string -> string, s: Snapshot) {
    NewSnapshot(hash, InputOf(s)) == Ok(s)
  }

  lemma {:induction false} ClonedTwice(values: seq<Observation>)
    ensures Cloned(Cloned(values)) == Cloned(values)
    ensures forall o | o in Cloned(values) :: o.sensitivity != SENSITIVITY_QUERY_TEXT
  {
    if values != [] {
      var front, last := values[..|values| - 1], values[|values| - 1];
      ClonedTwice(front);
      if Publishable(last).Some? {
        FilterMapAppend(Cloned(front), [last], Publishable);
        assert [last][..0] == [];
        assert FilterMap([last], Publishable) == [last];
        assert Cloned(values) == Cloned(front) + [last];
        assert Cloned(Cloned(values)) == Cloned(Cloned(front)) + [last];
      } else {
        assert Cloned(values) == Cloned(front);
      }
    }
  }

  /** Cloning keeps, in order, exactly the observations that are not query text: those at the positions of
      `at`, and each as often as it was there. */
  lemma ClonedKeeps(values: seq<Observation>) returns (at: seq<nat>)
    ensures Positions(at, |values|) && |at| == |Cloned(values)|
    ensures forall j | 0 <= j < |values| :: j in at <==> values[j].sensitivity != "query_text"
    ensures forall i | 0 <= i < |at| :: Cloned(values)[i] == values[at[i]]
    ensures forall o :: multiset(Cloned(values))[o] == if o.sensitivity == "query_text" then 0 else multiset(values)[o]
  {
    at := FilterMapPositions(values, Publishable);
    ClonedCounts(values);
  }

  lemma {:induction false} ClonedCounts(values: seq<Observation>)
    ensures forall o :: multiset(Cloned(values))[o] == if o.sensitivity == "query_text" then 0 else multiset(values)[o]
  {
    if values != [] {
      var n := |values| - 1;
      ClonedCounts(values[..n]);
      assert values == values[..n] + [values[n]];
    }
  }

  lemma NormalizedTwice(values: seq<string>)
    ensures Normalized(Normalized(values)) == Normalized(values)
  {
    IncreasingUnique(Normalized(Normalized(values)), Normalized(values));
  }

  lemma FindingsTwice(values: seq<Finding>)
    ensures Map(Map(values, ClonedFinding), ClonedFinding) == Map(values, ClonedFinding)
  {
    var once := Map(values, ClonedFinding);
    forall i | 0 <= i < |values| ensures Map(once, ClonedFinding)[i] == once[i] {
      ClonedTwice(values[i].evidence);
    }
  }

  lemma FixedParts(hash: string -> string, s: Snapshot)
    requires s.schemaVersion == SCHEMA_VERSION && s.id == hash(Seed(s.target, s.collectedAt))
    requires s.target != "" && s.engine != "" && s.adapterId != "" && s.collectedAt != Clock.ZERO
    requires Normalized(s.capabilities) == s.capabilities && Cloned(s.observations) == s.observations
    requires Map(s.findings, ClonedFinding) == s.findings
    ensures Normal(hash, s)
  {
  }

  /** Building a snapshot from a snapshot gives the same snapshot. */
  lemma NewSnapshotIdempotent(hash: string -> string, input: SnapshotInput, s: Snapshot)
    requires NewSnapshot(hash, input) == Ok(s)
    ensures Normal(hash, s)
  {
    assert Normalized(s.capabilities) == s.capabilities by { NormalizedTwice(input.capabilities); }
    assert Cloned(s.observations) == s.observations by { ClonedTwice(input.observations); }
    assert Map(s.findings, ClonedFinding) == s.findings by { FindingsTwice(input.findings); }
    FixedParts(hash, s);
  }

  /** A snapshot's capabilities strictly increase, and nowhere does it hold query text. */
  lemma NormalForm(hash: string -> string, s: Snapshot)
    requires Normal(hash, s)
    ensures Increasing(s.capabilities)
    ensures forall o | o in s.observations :: o.sensitivity != SENSITIVITY_QUERY_TEXT
    ensures forall f, o | f in s.findings && o in f.evidence :: o.sensitivity != SENSITIVITY_QUERY_TEXT
  {
    ClonedTwice(s.observations);
    forall f, o | f in s.findings && o in f.evidence ensures o.sensitivity != SENSITIVITY_QUERY_TEXT {
      var i :| 0 <= i < |s.findings| && s.findings[i] == f;
      assert Map(s.findings, ClonedFinding)[i] == f;
      ClonedTwice(f.evidence);
    }
  }

  lemma NormalHasTime(hash: string -> string, s: Snapshot)
    requires Normal(hash, s)
    ensures s.target != "" && s.collectedAt != Clock.ZERO
  {
  }

  /** Target and time can be read off the text that is hashed into the id. */
  lemma SeedInjective(t: string, a: Clock.Time, u: string, b: Clock.Time)
    ensures Seed(t, a) == Seed(u, b) <==> t == u && a == b
  {
    if Seed(t, a) == Seed(u, b) {
      Clock.FormatHasNoBar(a);
      Clock.FormatHasNoBar(b);
      Text.SplitLast(t, Clock.Format(a), u, Clock.Format(b), '|');
      Clock.FormatInjective(a, b);
    }
  }

  /** The ideal hash: digests are not empty and no two texts share one. */
  ghost predicate Ideal(hash: string -> string) {
    && (forall a :: hash(a) != "")
    && (forall a, b :: hash(a) == hash(b) ==> a == b)
  }

  /** Then the id of a snapshot stands for its target and its instant. */
  lemma IdIsTargetAndTime(hash: string -> string, s: Snapshot, t: Snapshot)
    requires Ideal(hash) && Normal(hash, s) && Normal(hash, t)
    ensures s.id == t.id <==> s.target == t.target && s.collectedAt == t.collectedAt
    ensures s.id != t.id && s.target == t.target ==> Clock.Nanos(s.collectedAt) != Clock.Nanos(t.collectedAt)
  {
    assert s.id == t.id <==> s.target == t.target && s.collectedAt == t.collectedAt by {
      SeedInjective(s.target, s.collectedAt, t.target, t.collectedAt);
    }
    if Clock.Nanos(s.collectedAt) == Clock.Nanos(t.collectedAt) {
      Clock.NanosInjective(s.collectedAt, t.collectedAt);
    }
  }
}
