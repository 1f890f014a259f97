/** The store that the use cases are given: either implementation behind one interface. */
module BaselineStore {
  import opened Lists
  import opened Signal
  import opened Snapshot
  import opened Listing = History
  import opened Codec
  import opened MemoryStore
  import opened SqliteStore
  import Clock

  datatype Store<P(!new, ==)> = OnDisk(sqlite: Sqlite<P>) | InMemory(memory: Memory) {

    ghost function Footprint(): set<object> {
      match this
      case OnDisk(sqlite) => {sqlite}
      case InMemory(memory) => {memory}
    }

    ghost predicate Valid()
      reads Footprint()
    {
      match this
      case OnDisk(sqlite) => sqlite.Valid()
      case InMemory(memory) => memory.Valid()
    }

    ghost function History(): set<Snapshot>
      reads Footprint()
    {
      match this
      case OnDisk(sqlite) => sqlite.History()
      case InMemory(memory) => MemoryStore.Contents(memory.targets)
    }

    function Hash(): string -> string {
      match this
      case OnDisk(sqlite) => sqlite.lib.hash
      case InMemory(memory) => memory.hash
    }

    /** The store's queries order a target's snapshots by time: always in memory, and on disk as far as
        their stamps do. */
    ghost predicate Ordered(target: string)
      reads Footprint()
    {
      OnDisk? ==> KeepsOrder(History(), target)
    }

    /** And a bound cuts them where it should. */
    ghost predicate Splits(target: string, before: Clock.Time)
      reads Footprint()
    {
      OnDisk? ==> before != Clock.ZERO && SplitsAt(History(), target, before)
    }

    /** Whether the store would refuse a snapshot in normal form. */
    ghost predicate Refuses(s: Snapshot, fault: Fault)
      reads Footprint()
    {
      OnDisk? && SaveFails(sqlite.lib, sqlite.snapshots, s, fault)
    }

    /** A snapshot in normal form is recorded, or refused with the history as it was. */
    method Save(s: Snapshot, fault: Fault) returns (err: Option<string>)
      requires Valid() && Normal(Hash(), s)
      modifies Footprint()
      ensures Valid()
      ensures err.Some? <==> old(Refuses(s, fault))
      ensures History() == if err.Some? then old(History()) else Record(old(History()), s)
    {
      match this {
        case OnDisk(sqlite) =>
          ValidateNormal(sqlite.lib, s);
          err := sqlite.Save(s, fault);
        case InMemory(memory) =>
          err := memory.Save(s);
      }
    }

    method Latest(target: string) returns (r: Result<Snapshot>)
      requires Valid() && target != ""
      ensures Ordered(target) ==> forall listing | IsListing(History(), target, listing) :: r == Listing.Latest(listing)
    {
      match this {
        case OnDisk(sqlite) => r := sqlite.Latest(target);
        case InMemory(memory) => r := memory.Latest(target);
      }
    }

    method Previous(target: string, before: Clock.Time) returns (r: Result<Snapshot>)
      requires Valid() && target != ""
      ensures Ordered(target) && Splits(target, before) ==>
        forall listing | IsListing(History(), target, listing) :: r == Listing.Previous(listing, before)
    {
      match this {
        case OnDisk(sqlite) => r := sqlite.Previous(target, before);
        case InMemory(memory) => r := memory.Previous(target, before);
      }
    }

    method List(target: string, limit: int) returns (r: Result<seq<Snapshot>>)
      requires Valid() && target != ""
      ensures Ordered(target) ==> forall listing | IsListing(History(), target, listing) :: r == Listing.List(listing, limit)
    {
      match this {
        case OnDisk(sqlite) => r := sqlite.List(target, limit);
        case InMemory(memory) => r := memory.List(target, limit);
      }
    }
  }

  lemma StoredIsNormal<P(!new)>(store: Store<P>, s: Snapshot)
    requires store.Valid() && s in store.History()
    ensures Normal(store.Hash(), s)
  {
    match store
    case OnDisk(sqlite) =>
      ReaderAgrees(sqlite.lib);
      ContentsAreProper(Reader(sqlite.lib), NormalOf(sqlite.lib.hash), sqlite.snapshots, sqlite.trends);
      assert NormalOf(sqlite.lib.hash)(s);
    case InMemory(memory) =>
      var t, id :| t in memory.targets && id in memory.targets[t] && memory.targets[t][id] == s;
      assert NormalOf(memory.hash)(s);
  }

  /** A stored time is a bound that cuts its target's snapshots where it should. */
  lemma StoredTimeSplits<P(!new)>(store: Store<P>, s: Snapshot)
    requires store.Valid() && s in store.History() && store.Ordered(s.target)
    ensures store.Splits(s.target, s.collectedAt)
  {
    StoredIsNormal(store, s);
    NormalHasTime(store.Hash(), s);
    if store.OnDisk? {
      OrderSplits(store.History(), s);
    }
  }

  lemma OrderSplits(h: set<Snapshot>, s: Snapshot)
    requires s in h && KeepsOrder(h, s.target)
    ensures SplitsAt(h, s.target, s.collectedAt)
  {
  }
}
