/** The in-memory baseline store. */
module MemoryStore {
  import opened Lists
  import opened Signal
  import opened Snapshot
  import opened History
  import Clock
  import Sorting

  type Targets = map<string, map<string, Snapshot>>

  /** Everything stored, wherever it is filed. */
  ghost function Contents(targets: Targets): set<Snapshot> {
    set t, id | t in targets && id in targets[t] :: targets[t][id]
  }

  /** Every snapshot is good and filed under its own target and id. */
  ghost predicate Filed(good: Snapshot -> bool, targets: Targets) {
    forall t, id | t in targets && id in targets[t] ::
      good(targets[t][id]) && targets[t][id].target == t && targets[t][id].id == id
  }

  /** Whether a target has a snapshot under an id. */
  predicate Has(targets: Targets, t: string, id: string) {
    t in targets && id in targets[t]
  }

  /** The map after saving `stored` under the target and id of `s`. */
  function Saved(targets: Targets, s: Snapshot, stored: Snapshot): Targets {
    if Has(targets, s.target, s.id) then targets
    else targets[s.target := (if s.target in targets then targets[s.target] else map[])[s.id := stored]]
  }

  lemma FiledIsProper(good: Snapshot -> bool, targets: Targets)
    requires Identifies(good) && Filed(good, targets)
    ensures Proper(good, Contents(targets))
  {
    forall r, s | r in Contents(targets) && s in Contents(targets) && r.id == s.id ensures r == s {
      assert good(r) && good(s);
    }
  }

  lemma SavedContents(targets: Targets, s: Snapshot)
    requires !Has(targets, s.target, s.id)
    ensures Contents(Saved(targets, s, s)) == Contents(targets) + {s}
  {
    var after := Saved(targets, s, s);
    assert after[s.target][s.id] == s;
    forall r ensures r in Contents(after) <==> r in Contents(targets) || r == s {
      if r in Contents(targets) {
        var t, id :| t in targets && id in targets[t] && targets[t][id] == r;
        assert after[t][id] == r;
      }
      if r in Contents(after) {
        var t, id :| t in after && id in after[t] && after[t][id] == r;
        assert r == s || (t in targets && id in targets[t] && targets[t][id] == r);
      }
    }
  }

  /** Saving a good snapshot files it and records it in the history. */
  lemma SavedRecords(good: Snapshot -> bool, targets: Targets, s: Snapshot)
    requires Identifies(good) && Filed(good, targets) && good(s)
    ensures Filed(good, Saved(targets, s, s))
    ensures Contents(Saved(targets, s, s)) == Record(Contents(targets), s)
  {
    if Has(targets, s.target, s.id) {
      assert targets[s.target][s.id] in Contents(targets);
    } else {
      SavedContents(targets, s);
      forall r | r in Contents(targets) ensures r.id != s.id {
        assert good(r) && Has(targets, r.target, r.id);
      }
    }
  }

  class Memory {
    const hash: string -> string
    var targets: Targets

    constructor (hash: string -> string)
      ensures this.hash == hash && targets == map[]
      ensures Ideal(hash) ==> Valid() && Contents(targets) == {}
    {
      this.hash := hash;
      targets := map[];
    }

    ghost predicate Valid()
      reads this
    {
      Ideal(hash) && Filed(NormalOf(hash), targets)
    }

    method File(s: Snapshot, copy: Snapshot)
      modifies this
      ensures targets == Saved(old(targets), s, copy)
    {
      if s.target !in targets {
        targets := targets[s.target := map[]];
      }
      if s.id !in targets[s.target] {
        targets := targets[s.target := targets[s.target][s.id := copy]];
      }
    }

    /** The snapshot is stored as a copy in normal form, unless its target already has its id. */
    method Save(s: Snapshot) returns (err: Option<string>)
      modifies this
      ensures err.Some? <==> s.id == "" || NewSnapshot(hash, InputOf(s)).Err?
      ensures err.Some? ==> targets == old(targets)
      ensures err.None? ==> targets == Saved(old(targets), s, NewSnapshot(hash, InputOf(s)).value)
      ensures old(Valid()) && Normal(hash, s) ==>
        err.None? && Valid() && Contents(targets) == Record(old(Contents(targets)), s)
    {
      ghost var before := targets;
      if s.id == "" || s.target == "" || s.collectedAt == Clock.ZERO {
        RefusedIsNotNormal(hash, s);
        return Some("invalid snapshot");
      }
      var copy := BuildSnapshot(hash, InputOf(s));
      if copy.Err? {
        return Some(copy.message);
      }
      File(s, copy.value);
      if old(Valid()) && Normal(hash, s) {
        assert NormalOf(hash)(s);
        NormalIdentifies(hash);
        SavedRecords(NormalOf(hash), before, s);
      }
      return None;
    }

    /** The stored snapshots of a target, newest first. */
    method Sorted(target: string) returns (r: Result<seq<Snapshot>>)
      requires Valid()
      ensures r.Err? ==> r.message == NOT_FOUND && IsListing(Contents(targets), target, [])
      ensures r.Ok? ==> r.value != [] && IsListing(Contents(targets), target, r.value)
    {
      NormalIdentifies(hash);
      if target !in targets || |targets[target]| == 0 {
        NothingFiled(NormalOf(hash), targets, target);
        return Err(NOT_FOUND);
      }
      var out := Values(targets[target]);
      NewerFirstIsWeakOrder();
      var sorted := Sorting.Sort(out, NewerFirst());
      SortedValues(NormalOf(hash), targets, target, out, sorted);
      return Ok(sorted);
    }

    /** A copy of a stored snapshot is the snapshot. */
    method Clone(s: Snapshot) returns (copy: Result<Snapshot>)
      ensures Normal(hash, s) ==> copy == Ok(s)
    {
      copy := BuildSnapshot(hash, InputOf(s));
    }

    method Latest(target: string) returns (r: Result<Snapshot>)
      requires Valid()
      ensures forall listing | IsListing(Contents(targets), target, listing) :: r == History.Latest(listing)
    {
      var items := Sorted(target);
      OnlyListing(Contents(targets), target, if items.Ok? then items.value else []);
      if items.Err? {
        return Err(items.message);
      }
      StoredIsNormal(hash, targets, target, items.value, 0);
      r := Clone(items.value[0]);
    }

    method Previous(target: string, before: Clock.Time) returns (r: Result<Snapshot>)
      requires Valid()
      ensures forall listing | IsListing(Contents(targets), target, listing) :: r == History.Previous(listing, before)
    {
      var items := Sorted(target);
      OnlyListing(Contents(targets), target, if items.Ok? then items.value else []);
      if items.Err? {
        return Err(items.message);
      }
      var i := FirstBefore(items.value, before);
      if i == |items.value| {
        return Err(NOT_FOUND);
      }
      StoredIsNormal(hash, targets, target, items.value, i);
      r := Clone(items.value[i]);
    }

    method List(target: string, limit: int) returns (r: Result<seq<Snapshot>>)
      requires Valid()
      ensures forall listing | IsListing(Contents(targets), target, listing) :: r == History.List(listing, limit)
    {
      var items := Sorted(target);
      OnlyListing(Contents(targets), target, if items.Ok? then items.value else []);
      if items.Err? {
        return Err(items.message);
      }
      var count := if limit <= 0 || limit > |items.value| then |items.value| else limit;
      var out := [];
      for i := 0 to count
        invariant out == items.value[..i]
      {
        StoredIsNormal(hash, targets, target, items.value, i);
        var copy := Clone(items.value[i]);
        if copy.Err? {
          assert false;   // a stored snapshot can be copied
        }
        out := out + [copy.value];
      }
      assert items.value[..|items.value|] == items.value;
      return Ok(out);
    }
  }

  /** The first snapshot of a listing that is older than `before`; the length if there is none. */
  method FirstBefore(items: seq<Snapshot>, before: Clock.Time) returns (i: nat)
    ensures i <= |items|
    ensures History.Previous(items, before) == if i < |items| then Ok(items[i]) else Err(NOT_FOUND)
  {
    i := 0;
    while i < |items| && !Clock.Before(items[i].collectedAt, before)
      invariant i <= |items|
      invariant History.Previous(items, before) == History.Previous(items[i..], before)
    {
      assert items[i..][1..] == items[i + 1..];
      i := i + 1;
    }
  }

  /** The values of a map, in any order. */
  method Values(byId: map<string, Snapshot>) returns (out: seq<Snapshot>)
    requires forall id | id in byId :: byId[id].id == id
    ensures forall s :: s in out <==> exists id :: id in byId && byId[id] == s
    ensures forall i, j | 0 <= i < j < |out| :: out[i] != out[j]
  {
    out := [];
    var seen, left := {}, byId.Keys;
    while left != {}
      invariant seen !! left && seen + left == byId.Keys
      invariant forall s | s in out :: s.id in seen && byId[s.id] == s
      invariant forall id | id in seen :: byId[id] in out
      invariant forall i, j | 0 <= i < j < |out| :: out[i] != out[j]
      decreases left
    {
      var id :| id in left;
      assert byId[id] !in out;
      out := out + [byId[id]];
      seen, left := seen + {id}, left - {id};
    }
  }

  lemma StoredIsNormal(hash: string -> string, targets: Targets, target: string, listing: seq<Snapshot>, i: nat)
    requires Filed(NormalOf(hash), targets) && IsListing(Contents(targets), target, listing) && i < |listing|
    ensures Normal(hash, listing[i])
  {
    assert listing[i] in listing;
    var t, id :| t in targets && id in targets[t] && targets[t][id] == listing[i];
    assert NormalOf(hash)(targets[t][id]);
  }

  lemma RefusedIsNotNormal(hash: string -> string, s: Snapshot)
    requires s.id == "" || s.target == "" || s.collectedAt == Clock.ZERO
    ensures s.id == "" || NewSnapshot(hash, InputOf(s)).Err?
    ensures Ideal(hash) ==> !Normal(hash, s)
  {
  }

  lemma NothingFiled(good: Snapshot -> bool, targets: Targets, target: string)
    requires Filed(good, targets) && (target !in targets || |targets[target]| == 0)
    ensures IsListing(Contents(targets), target, [])
  {
    forall s | s in Contents(targets) ensures s.target != target {
      var t, id :| t in targets && id in targets[t] && targets[t][id] == s;
    }
  }

  lemma SortedValues(good: Snapshot -> bool, targets: Targets, target: string, out: seq<Snapshot>, sorted: seq<Snapshot>)
    requires Identifies(good) && Filed(good, targets) && target in targets && |targets[target]| > 0
    requires forall s :: s in out <==> exists id :: id in targets[target] && targets[target][id] == s
    requires forall i, j | 0 <= i < j < |out| :: out[i] != out[j]
    requires multiset(sorted) == multiset(out) && Sorting.SortedBy(sorted, NewerFirst())
    ensures sorted != [] && IsListing(Contents(targets), target, sorted)
  {
    Sorting.SameElements(sorted, out);
    Sorting.DistinctPermutation(out, sorted);
    FiledIsProper(good, targets);
    forall s ensures s in sorted <==> s in Contents(targets) && s.target == target {
      if s in Contents(targets) && s.target == target {
        var t, id :| t in targets && id in targets[t] && targets[t][id] == s;
      }
    }
    var id :| id in targets[target];
    assert targets[target][id] in out;
    forall i, j | 0 <= i < j < |sorted| ensures Clock.Nanos(sorted[j].collectedAt) <= Clock.Nanos(sorted[i].collectedAt) {
      assert !NewerFirst()(sorted[j], sorted[i]);
    }
    SortedIsListing(good, Contents(targets), target, sorted);
  }
}
