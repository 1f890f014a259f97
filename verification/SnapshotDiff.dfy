/** The difference of two snapshots' observations, identity by identity. */
module SnapshotDiff {
  import opened Lists
  import opened Ordering
  import opened Signal
  import opened Snapshot
  import Text

  datatype ChangeKind = Added | Removed | Changed | Reset

  datatype Change = Change(
    kind: ChangeKind,
    key: string,
    obj: Ref,
    before: Option<Observation>,
    after: Option<Observation>,
    numericDelta: Option<real>)

  datatype Diff = Diff(previousId: string, currentId: string, changes: seq<Change>)

  /** Equal in everything but the time of collection. */
  predicate Equivalent(a: Observation, b: Observation) {
    a.(collectedAt := b.collectedAt) == b
  }

  // ---- what is at an identity -----------------------------------------------------------------

  /** How many observations share an identity. */
  function Occurrences(values: seq<Observation>, id: string): nat {
    if values == [] then 0
    else Occurrences(values[..|values| - 1], id) + (if Identity(values[|values| - 1]) == id then 1 else 0)
  }

  function LastAt(values: seq<Observation>, id: string): Option<Observation> {
    if values == [] then None
    else if Identity(values[|values| - 1]) == id then Some(values[|values| - 1])
    else LastAt(values[..|values| - 1], id)
  }

  lemma {:induction false} LastAtMeaning(values: seq<Observation>, id: string)
    ensures LastAt(values, id).Some? <==> Occurrences(values, id) > 0
    ensures LastAt(values, id).Some? <==> id in Map(values, Identity)
    ensures LastAt(values, id).Some? ==> Identity(LastAt(values, id).value) == id && LastAt(values, id).value in values
  {
    if values != [] {
      var n := |values| - 1;
      LastAtMeaning(values[..n], id);
      assert Map(values, Identity) == Map(values[..n], Identity) + [Identity(values[n])];
    }
  }

  /** Neither snapshot has the identity twice. */
  predicate Clear(previous: seq<Observation>, current: seq<Observation>, id: string) {
    Occurrences(previous, id) <= 1 && Occurrences(current, id) <= 1
  }

  /** The change from one observation, if any, to another. */
  function ChangeBetween(before: Option<Observation>, after: Option<Observation>): Option<Change> {
    match (before, after)
    case (None, None) => None
    case (None, Some(a)) => Some(Change(Added, a.key, a.obj, None, after, None))
    case (Some(b), None) => Some(Change(Removed, b.key, b.obj, before, None, None))
    case (Some(b), Some(a)) =>
      if Equivalent(b, a) then None
      else if b.number.None? || a.number.None? then Some(Change(Changed, a.key, a.obj, before, after, None))
      else if b.exactness == EXACTNESS_CUMULATIVE && a.exactness == EXACTNESS_CUMULATIVE && a.number.value < b.number.value then
        Some(Change(Reset, a.key, a.obj, before, after, None))
      else Some(Change(Changed, a.key, a.obj, before, after, Some(a.number.value - b.number.value)))
  }

  function ChangeAt(previous: seq<Observation>, current: seq<Observation>, id: string): Option<Change> {
    if Clear(previous, current, id) then ChangeBetween(LastAt(previous, id), LastAt(current, id)) else None
  }

  function ChangeRule(previous: seq<Observation>, current: seq<Observation>): string -> Option<Change> {
    (id: string) => ChangeAt(previous, current, id)
  }

  /** Every identity of either side, in order. */
  function Identities(previous: seq<Observation>, current: seq<Observation>): seq<string> {
    Normalized(Map(previous, Identity) + Map(current, Identity))
  }

  function Changes(previous: seq<Observation>, current: seq<Observation>): seq<Change> {
    FilterMap(Identities(previous, current), ChangeRule(previous, current))
  }

  function ChangeIdentity(c: Change): string {
    SignalIdentity(c.key, c.obj)
  }

  // ---- Compare --------------------------------------------------------------------------------

  ghost predicate MapsLast(values: seq<Observation>, m: map<string, Observation>, ambiguous: set<string>) {
    && (forall id :: if id in m then LastAt(values, id) == Some(m[id]) else LastAt(values, id) == None)
    && (forall id :: id in ambiguous <==> Occurrences(values, id) > 1)
  }

  method ObservationMap(values: seq<Observation>) returns (m: map<string, Observation>, ambiguous: set<string>)
    ensures MapsLast(values, m, ambiguous)
  {
    m, ambiguous := map[], {};
    for i := 0 to |values|
      invariant MapsLast(values[..i], m, ambiguous)
    {
      var id := Identity(values[i]);
      assert values[..i + 1][..i] == values[..i];
      LastAtMeaning(values[..i], id);
      if id in m {
        ambiguous := ambiguous + {id};
      }
      m := m[id := values[i]];
    }
    assert values[..|values|] == values;
  }

  method Compare(previous: Snapshot, current: Snapshot) returns (r: Result<Diff>)
    ensures r.Ok? <==> previous.target != "" && previous.target == current.target
    ensures r.Ok? ==> r.value == Diff(previous.id, current.id, Changes(previous.observations, current.observations))
  {
    if previous.target == "" || current.target == "" || previous.target != current.target {
      return Err("cannot compare snapshots from different targets");
    }
    var a, b := previous.observations, current.observations;
    var prev, prevAmbiguous := ObservationMap(a);
    var cur, curAmbiguous := ObservationMap(b);
    var ordered := SortedKeys(prev.Keys + cur.Keys);
    AllIdentities(a, b, prev, cur, ordered);
    var changes := [];
    for i := 0 to |ordered|
      invariant changes == FilterMap(ordered[..i], ChangeRule(a, b))
    {
      FilterMapStep(ordered, i, ChangeRule(a, b));
      var id := ordered[i];
      if id !in prevAmbiguous && id !in curAmbiguous {
        var change := ChangeBetween(if id in prev then Some(prev[id]) else None, if id in cur then Some(cur[id]) else None);
        if change.Some? {
          changes := changes + [change.value];
        }
      }
    }
    assert ordered[..|ordered|] == ordered;
    return Ok(Diff(previous.id, current.id, changes));
  }

  lemma AllIdentities(a: seq<Observation>, b: seq<Observation>, prev: map<string, Observation>, cur: map<string, Observation>, ordered: seq<string>)
    requires forall id :: id in prev <==> LastAt(a, id).Some?
    requires forall id :: id in cur <==> LastAt(b, id).Some?
    requires Increasing(ordered) && forall id :: id in ordered <==> id in prev.Keys + cur.Keys
    ensures ordered == Identities(a, b)
  {
    forall id ensures id in ordered <==> id in Identities(a, b) {
      LastAtMeaning(a, id);
      LastAtMeaning(b, id);
    }
    IncreasingUnique(ordered, Identities(a, b));
  }

  // ---- the changes are exact ------------------------------------------------------------------

  ghost predicate Differ(before: Option<Observation>, after: Option<Observation>) {
    !(before.None? && after.None?) && !(before.Some? && after.Some? && Equivalent(before.value, after.value))
  }

  lemma ChangeAtMeaning(a: seq<Observation>, b: seq<Observation>, id: string)
    ensures ChangeAt(a, b, id).Some? <==> Clear(a, b, id) && Differ(LastAt(a, id), LastAt(b, id))
    ensures ChangeAt(a, b, id).Some? ==>
      && ChangeIdentity(ChangeAt(a, b, id).value) == id
      && ChangeAt(a, b, id).value.before == LastAt(a, id)
      && ChangeAt(a, b, id).value.after == LastAt(b, id)
      && id in Identities(a, b)
  {
    LastAtMeaning(a, id);
    LastAtMeaning(b, id);
  }

  /** One change for each clear identity whose observations differ, in strictly increasing order. */
  lemma ChangesAreExact(a: seq<Observation>, b: seq<Observation>)
    ensures forall i, j | 0 <= i < j < |Changes(a, b)| ::
      Text.Less(ChangeIdentity(Changes(a, b)[i]), ChangeIdentity(Changes(a, b)[j]))
    ensures forall c | c in Changes(a, b) :: ChangeAt(a, b, ChangeIdentity(c)) == Some(c)
    ensures forall id :: (exists c :: c in Changes(a, b) && ChangeIdentity(c) == id) <==>
      Clear(a, b, id) && Differ(LastAt(a, id), LastAt(b, id))
  {
    var ids, rule := Identities(a, b), ChangeRule(a, b);
    var at := FilterMapPositions(ids, rule);
    FilterMapMembers(ids, rule);
    forall i | 0 <= i < |at| ensures ChangeIdentity(Changes(a, b)[i]) == ids[at[i]] {
      ChangeAtMeaning(a, b, ids[at[i]]);
    }
    forall c | c in Changes(a, b) ensures ChangeAt(a, b, ChangeIdentity(c)) == Some(c) {
      var i :| 0 <= i < |ids| && rule(ids[i]) == Some(c);
      ChangeAtMeaning(a, b, ids[i]);
    }
    forall id ensures (exists c :: c in Changes(a, b) && ChangeIdentity(c) == id) <==>
      Clear(a, b, id) && Differ(LastAt(a, id), LastAt(b, id))
    {
      ChangeAtMeaning(a, b, id);
      if ChangeAt(a, b, id).Some? {
        var i :| 0 <= i < |ids| && ids[i] == id;
        assert rule(ids[i]) == Some(ChangeAt(a, b, id).value);
        assert ChangeAt(a, b, id).value in Changes(a, b);
      }
    }
  }

  /** The two observations differ in something other than the time of collection. */
  predicate DifferInContent(a: Observation, b: Observation) {
    || a.key != b.key || a.obj != b.obj || a.unit != b.unit || a.exactness != b.exactness
    || a.number != b.number || a.text != b.text || a.boolean != b.boolean
    || a.sensitivity != b.sensitivity || a.source != b.source || a.reason != b.reason
  }

  /** Both ends are numbers of a counter, and it fell. */
  predicate Fell(before: Option<Observation>, after: Option<Observation>) {
    && before.Some? && before.value.exactness == "cumulative" && before.value.number.Some?
    && after.Some? && after.value.exactness == "cumulative" && after.value.number.Some?
    && after.value.number.value < before.value.number.value
  }

  /** What a change says of its two ends. */
  ghost predicate Describes(c: Change) {
    && (c.before.Some? || c.after.Some?)
    && (c.kind == Added <==> c.before.None?)
    && (c.kind == Removed <==> c.after.None?)
    && (c.kind == Reset <==> Fell(c.before, c.after))
    && (c.before.Some? && c.after.Some? ==> DifferInContent(c.before.value, c.after.value))
    && (c.after.Some? ==> c.key == c.after.value.key && c.obj == c.after.value.obj)
    && (c.after.None? ==> c.key == c.before.value.key && c.obj == c.before.value.obj)
    && c.numericDelta ==
         if c.before.Some? && c.after.Some? && c.before.value.number.Some? && c.after.value.number.Some? && c.kind != Reset
         then Some(c.after.value.number.value - c.before.value.number.value) else None
  }

  lemma SameSignal(a: Observation, b: Observation)
    requires '|' !in a.key && '|' !in b.key && '|' !in a.obj.kind && '|' !in b.obj.kind
    ensures Identity(a) == Identity(b) <==> a.key == b.key && a.obj == b.obj
  {
    SignalIdentityInjective(a.key, a.obj, b.key, b.obj);
  }

  ghost predicate NoBars(values: seq<Observation>) {
    forall o | o in values :: '|' !in o.key && '|' !in o.obj.kind
  }

  lemma ChangeDescribes(a: seq<Observation>, b: seq<Observation>, id: string)
    requires ChangeAt(a, b, id).Some?
    ensures Describes(ChangeAt(a, b, id).value)
  {
  }

  /** Every change describes its ends: what the last observations at its identity are in either snapshot. */
  lemma ChangesDescribe(a: seq<Observation>, b: seq<Observation>)
    ensures forall c | c in Changes(a, b) ::
      Describes(c) && c.before == LastAt(a, ChangeIdentity(c)) && c.after == LastAt(b, ChangeIdentity(c))
  {
    ChangesAreExact(a, b);
    forall c | c in Changes(a, b)
      ensures Describes(c) && c.before == LastAt(a, ChangeIdentity(c)) && c.after == LastAt(b, ChangeIdentity(c))
    {
      ChangeDescribes(a, b, ChangeIdentity(c));
      ChangeAtMeaning(a, b, ChangeIdentity(c));
    }
  }

  /** And the ends are of one signal, as long as keys and kinds do not contain the separator. */
  lemma EndsAreOneSignal(a: seq<Observation>, b: seq<Observation>, c: Change)
    requires NoBars(a) && NoBars(b) && c in Changes(a, b) && c.before.Some? && c.after.Some?
    ensures c.before.value.key == c.after.value.key && c.before.value.obj == c.after.value.obj
  {
    ChangesDescribe(a, b);
    LastAtMeaning(a, ChangeIdentity(c));
    LastAtMeaning(b, ChangeIdentity(c));
    SameSignal(c.before.value, c.after.value);
  }

  /** There is a change at an identity exactly when each snapshot has it at most once and they differ there:
      in having it at all, or in anything but the time of collection. */
  lemma ChangedIffDifferent(a: seq<Observation>, b: seq<Observation>, id: string)
    ensures (exists c :: c in Changes(a, b) && ChangeIdentity(c) == id) <==>
      && Occurrences(a, id) <= 1 && Occurrences(b, id) <= 1
      && (LastAt(a, id).Some? != LastAt(b, id).Some? ||
          (LastAt(a, id).Some? && LastAt(b, id).Some? && DifferInContent(LastAt(a, id).value, LastAt(b, id).value)))
  {
    ChangesAreExact(a, b);
  }

  // ---- the changes are a patch ----------------------------------------------------------------

  /** The observations of `values` at the clear identities. */
  ghost function ClearPart(a: seq<Observation>, b: seq<Observation>, values: seq<Observation>): map<string, Observation> {
    map id | id in Identities(a, b) && Clear(a, b, id) && LastAt(values, id).Some? :: LastAt(values, id).value
  }

  ghost function ApplyOne(m: map<string, Observation>, c: Change): map<string, Observation> {
    if c.after.Some? then m[ChangeIdentity(c) := c.after.value] else m - {ChangeIdentity(c)}
  }

  ghost function Apply(m: map<string, Observation>, changes: seq<Change>): map<string, Observation> {
    if changes == [] then m else ApplyOne(Apply(m, changes[..|changes| - 1]), changes[|changes| - 1])
  }

  lemma {:induction false} ApplyChanges(m: map<string, Observation>, changes: seq<Change>, id: string)
    requires forall i, j | 0 <= i < j < |changes| :: ChangeIdentity(changes[i]) != ChangeIdentity(changes[j])
    ensures (forall i | 0 <= i < |changes| :: ChangeIdentity(changes[i]) != id) ==>
      (id in Apply(m, changes) <==> id in m) && (id in m ==> Apply(m, changes)[id] == m[id])
    ensures forall i | 0 <= i < |changes| && ChangeIdentity(changes[i]) == id ::
      (id in Apply(m, changes) <==> changes[i].after.Some?) &&
      (changes[i].after.Some? ==> Apply(m, changes)[id] == changes[i].after.value)
  {
    if changes != [] {
      ApplyChanges(m, changes[..|changes| - 1], id);
    }
  }

  /** Applied to the clear part of the previous snapshot, the changes give the clear part of the current
      one, up to the times of collection. */
  lemma ChangesPatch(a: seq<Observation>, b: seq<Observation>)
    ensures Apply(ClearPart(a, b, a), Changes(a, b)).Keys == ClearPart(a, b, b).Keys
    ensures forall id | id in ClearPart(a, b, b) ::
      Equivalent(Apply(ClearPart(a, b, a), Changes(a, b))[id], ClearPart(a, b, b)[id])
  {
    var changes, result := Changes(a, b), Apply(ClearPart(a, b, a), Changes(a, b));
    ChangesAreExact(a, b);
    forall i, j | 0 <= i < j < |changes| ensures ChangeIdentity(changes[i]) != ChangeIdentity(changes[j]) {
      Text.LessAsymmetric(ChangeIdentity(changes[i]), ChangeIdentity(changes[j]));
    }
    forall id
      ensures id in result <==> id in ClearPart(a, b, b)
      ensures id in result ==> Equivalent(result[id], ClearPart(a, b, b)[id])
    {
      ApplyChanges(ClearPart(a, b, a), changes, id);
      ChangeAtMeaning(a, b, id);
      LastAtMeaning(b, id);
      if i :| 0 <= i < |changes| && ChangeIdentity(changes[i]) == id {
        assert changes[i] in changes;
      } else {
        assert !(Clear(a, b, id) && Differ(LastAt(a, id), LastAt(b, id)));
      }
    }
  }

  // ---- the other way round --------------------------------------------------------------------

  /** d undoes c: ends swapped, numeric deltas negated, and a reset is a gain when read backwards. */
  ghost predicate Mirrors(c: Change, d: Change) {
    && d.before == c.after && d.after == c.before
    && (c.kind == Added <==> d.kind == Removed) && (c.kind == Removed <==> d.kind == Added)
    && (c.kind == Reset ==> d.kind == Changed && d.numericDelta.Some? && d.numericDelta.value > 0.0)
    && (d.kind == Reset ==> c.kind == Changed && c.numericDelta.Some? && c.numericDelta.value > 0.0)
    && (c.kind == Changed && d.kind == Changed ==>
          if c.numericDelta.Some? then d.numericDelta == Some(-c.numericDelta.value) else d.numericDelta.None?)
  }

  lemma SwapOne(a: seq<Observation>, b: seq<Observation>, id: string)
    ensures ChangeAt(a, b, id).Some? <==> ChangeAt(b, a, id).Some?
    ensures ChangeAt(a, b, id).Some? ==> Mirrors(ChangeAt(a, b, id).value, ChangeAt(b, a, id).value)
  {
  }

  lemma SwapIdentities(a: seq<Observation>, b: seq<Observation>)
    ensures Identities(a, b) == Identities(b, a)
  {
    IncreasingUnique(Identities(a, b), Identities(b, a));
  }

  lemma {:induction false} SwapAlong(a: seq<Observation>, b: seq<Observation>, ids: seq<string>)
    ensures var x, y := FilterMap(ids, ChangeRule(a, b)), FilterMap(ids, ChangeRule(b, a));
      |x| == |y| && forall i | 0 <= i < |x| :: Mirrors(x[i], y[i])
  {
    if ids != [] {
      SwapAlong(a, b, ids[..|ids| - 1]);
      SwapOne(a, b, ids[|ids| - 1]);
    }
  }

  /** Comparing the other way round gives the mirrored changes in the same order. */
  lemma SwappedChanges(a: seq<Observation>, b: seq<Observation>)
    ensures |Changes(a, b)| == |Changes(b, a)|
    ensures forall i | 0 <= i < |Changes(a, b)| :: Mirrors(Changes(a, b)[i], Changes(b, a)[i])
  {
    SwapIdentities(a, b);
    SwapAlong(a, b, Identities(a, b));
  }
}
