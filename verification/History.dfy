/**
  The history both stores implement: a set of snapshots in normal form, read per target from the
  newest to the oldest.
 */
module History {
  import opened Lists
  import opened Signal
  import opened Snapshot
  import Clock
  import Sorting
  import Text

  const NOT_FOUND := "snapshot not found"

  /** Saving keeps what is there: the first snapshot of a target and time wins. */
  ghost function Record(h: set<Snapshot>, s: Snapshot): set<Snapshot> {
    if exists r :: r in h && r.id == s.id then h else h + {s}
  }

  /** The snapshots in normal form. */
  ghost function NormalOf(hash: string -> string): Snapshot -> bool {
    (s: Snapshot) => Normal(hash, s)
  }

  /** Among good snapshots an id stands for a target and an instant. */
  ghost predicate Identifies(good: Snapshot -> bool) {
    forall r, s | good(r) && good(s) ::
      r.id == s.id <==> r.target == s.target && Clock.Nanos(r.collectedAt) == Clock.Nanos(s.collectedAt)
  }

  lemma NormalIdentifies(hash: string -> string)
    requires Ideal(hash)
    ensures Identifies(NormalOf(hash))
  {
    forall r, s | NormalOf(hash)(r) && NormalOf(hash)(s)
      ensures r.id == s.id <==> r.target == s.target && Clock.Nanos(r.collectedAt) == Clock.Nanos(s.collectedAt)
    {
      IdIsTargetAndTime(hash, r, s);
    }
  }

  /** All good, none twice under one id. */
  ghost predicate Proper(good: Snapshot -> bool, h: set<Snapshot>) {
    && (forall s | s in h :: good(s))
    && (forall r, s | r in h && s in h && r.id == s.id :: r == s)
  }

  /** Newer first. */
  function NewerFirst(): (Snapshot, Snapshot) -> bool {
    (a: Snapshot, b: Snapshot) =>
      if Clock.Nanos(a.collectedAt) == Clock.Nanos(b.collectedAt) then Text.Less(b.id, a.id)
      else Clock.Before(b.collectedAt, a.collectedAt)
  }

  lemma NewerFirstIsWeakOrder()
    ensures Sorting.WeakOrder(NewerFirst())
  {
    var less := NewerFirst();
    forall x: Snapshot, y: Snapshot ensures less(x, y) ==> !less(y, x) {
      Text.LessAsymmetric(x.id, y.id);
    }
    forall x: Snapshot, y: Snapshot, z: Snapshot | !less(y, x) && !less(z, y) ensures !less(z, x) {
      if Clock.Nanos(x.collectedAt) == Clock.Nanos(y.collectedAt) == Clock.Nanos(z.collectedAt) {
        Text.LessTransitive(z.id, y.id, x.id);
      }
    }
  }

  ghost predicate StrictlyNewerFirst(out: seq<Snapshot>) {
    forall i, j | 0 <= i < j < |out| :: Clock.Before(out[j].collectedAt, out[i].collectedAt)
  }

  /** A target's snapshots, strictly from the newest to the oldest. */
  ghost predicate IsListing(h: set<Snapshot>, target: string, out: seq<Snapshot>) {
    && StrictlyNewerFirst(out)
    && forall s :: s in out <==> s in h && s.target == target
  }

  lemma ListingIsSorted(h: set<Snapshot>, target: string, out: seq<Snapshot>)
    requires IsListing(h, target, out)
    ensures Sorting.SortedBy(out, NewerFirst()) && Sorting.Decided(out, NewerFirst())
    ensures forall i, j | 0 <= i < j < |out| :: out[i] != out[j]
  {
    forall i, j | 0 <= i < |out| && 0 <= j < |out|
      ensures out[i] == out[j] || NewerFirst()(out[i], out[j]) || NewerFirst()(out[j], out[i])
    {
      assert i < j ==> Clock.Before(out[j].collectedAt, out[i].collectedAt);
      assert j < i ==> Clock.Before(out[i].collectedAt, out[j].collectedAt);
    }
  }

  /** There is one listing. */
  lemma ListingUnique(h: set<Snapshot>, target: string, x: seq<Snapshot>, y: seq<Snapshot>)
    requires IsListing(h, target, x) && IsListing(h, target, y)
    ensures x == y
  {
    ListingIsSorted(h, target, x);
    ListingIsSorted(h, target, y);
    Sorting.DistinctMultiplicity(x);
    Sorting.DistinctMultiplicity(y);
    forall s ensures multiset(x)[s] == multiset(y)[s] {
      assert (s in multiset(x) <==> s in x) && (s in multiset(y) <==> s in y);
    }
    assert multiset(x) == multiset(y);
    Sorting.SortedUnique(x, y, NewerFirst());
  }

  /** What holds of one listing holds of every listing. */
  lemma OnlyListing(h: set<Snapshot>, target: string, items: seq<Snapshot>)
    requires IsListing(h, target, items)
    ensures forall listing | IsListing(h, target, listing) :: listing == items
  {
    forall listing | IsListing(h, target, listing) ensures listing == items {
      ListingUnique(h, target, listing, items);
    }
  }

  /** A sorted enumeration of a target's snapshots is strict, since no two of them share an instant. */
  lemma SortedIsListing(good: Snapshot -> bool, h: set<Snapshot>, target: string, out: seq<Snapshot>)
    requires Identifies(good) && Proper(good, h)
    requires forall s :: s in out <==> s in h && s.target == target
    requires forall i, j | 0 <= i < j < |out| :: out[i] != out[j]
    requires forall i, j | 0 <= i < j < |out| :: Clock.Nanos(out[j].collectedAt) <= Clock.Nanos(out[i].collectedAt)
    ensures IsListing(h, target, out)
  {
    forall i, j | 0 <= i < j < |out| ensures Clock.Before(out[j].collectedAt, out[i].collectedAt) {
      assert out[i] in out && out[j] in out;
      assert good(out[i]) && good(out[j]);
    }
  }

  // ---- the three queries ----------------------------------------------------------------------

  function Latest(listing: seq<Snapshot>): Result<Snapshot> {
    if listing == [] then Err(NOT_FOUND) else Ok(listing[0])
  }

  function Previous(listing: seq<Snapshot>, before: Clock.Time): Result<Snapshot> {
    if listing == [] then Err(NOT_FOUND)
    else if Clock.Before(listing[0].collectedAt, before) then Ok(listing[0])
    else Previous(listing[1..], before)
  }

  function List(listing: seq<Snapshot>, limit: int): Result<seq<Snapshot>> {
    if listing == [] then Err(NOT_FOUND)
    else if limit <= 0 || limit > |listing| then Ok(listing)
    else Ok(listing[..limit])
  }

  /** The snapshot before the newest is the second newest. */
  lemma PreviousOfLatest(listing: seq<Snapshot>)
    requires StrictlyNewerFirst(listing) && listing != []
    ensures Previous(listing, listing[0].collectedAt) ==
      if |listing| == 1 then Err(NOT_FOUND) else Ok(listing[1])
  {
    if |listing| > 1 {
      assert listing[1..][0] == listing[1];
    }
  }

  /** The newest snapshot older than `before`, wherever in the listing it is. */
  lemma {:induction false} PreviousMeaning(listing: seq<Snapshot>, before: Clock.Time)
    requires StrictlyNewerFirst(listing)
    ensures Previous(listing, before).Err? <==> forall s | s in listing :: !Clock.Before(s.collectedAt, before)
    ensures Previous(listing, before).Err? ==> Previous(listing, before).message == NOT_FOUND
    ensures Previous(listing, before).Ok? ==>
      var p := Previous(listing, before).value;
      p in listing && Clock.Before(p.collectedAt, before) &&
      forall s | s in listing && Clock.Before(s.collectedAt, before) :: s == p || Clock.Before(s.collectedAt, p.collectedAt)
  {
    if listing != [] {
      if Clock.Before(listing[0].collectedAt, before) {
        forall s | s in listing ensures s == listing[0] || Clock.Before(s.collectedAt, listing[0].collectedAt) {
          var i :| 0 <= i < |listing| && listing[i] == s;
        }
      } else {
        var tail := listing[1..];
        assert forall i | 0 <= i < |tail| :: tail[i] == listing[i + 1];
        PreviousMeaning(tail, before);
        assert forall s :: s in listing <==> s == listing[0] || s in tail;
      }
    }
  }
}
