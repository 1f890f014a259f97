/** The two baseline stores, fed the same snapshots, cannot be told apart by their queries. */
module StoreAgreement {
  import opened Lists
  import opened Signal
  import opened Snapshot
  import opened Listing = History
  import opened Codec
  import opened MemoryStore
  import opened SqliteStore
  import Clock

  /** A snapshot both stores accept: in normal form and within the limits of the codec. */
  ghost predicate Storable<P>(lib: Library<P>, s: Snapshot) {
    Normal(lib.hash, s) && Encodable(lib, s) && |TrendRows(s)| <= MAX_TREND_ROWS
  }

  /** With a library that encodes every snapshot, every target has a storable snapshot at every time. */
  lemma StorableExists<P>(lib: Library<P>, target: string, at: Clock.Time) returns (s: Snapshot)
    requires (forall s :: Encodable(lib, s)) && target != "" && at != Clock.ZERO
    ensures Storable(lib, s) && s.target == target && s.collectedAt == at
  {
    var input := SnapshotInput(target, "mysql", "mysql", "", at, [], [], [], []);
    s := NewSnapshot(lib.hash, input).value;
    NewSnapshotIdempotent(lib.hash, input, s);
    assert Cloned([]) == [] && TrendRows(s) == [];
  }

  lemma StoringFailsWithoutFault<P>(lib: Library<P>, snapshots: Table<P>, s: Snapshot)
    requires Encodable(lib, s) && |TrendRows(s)| <= MAX_TREND_ROWS
    ensures StoringFails(lib, snapshots, s, NoFault) <==> s.id in snapshots && snapshots[s.id].payload != lib.marshal(s).value
  {
  }

  lemma StorableFails<P>(lib: Library<P>, snapshots: Table<P>, s: Snapshot)
    requires Storable(lib, s)
    ensures SaveFails(lib, snapshots, s, NoFault) <==> StoringFails(lib, snapshots, s, NoFault)
  {
    assert ValidateSnapshot(lib, s) == Ok(s) by { ValidateNormal(lib, s); }
  }

  lemma RecordedAlready<P(!new)>(read: Row<P> -> Option<Snapshot>, good: Snapshot -> bool, snapshots: Table<P>, trends: seq<TrendMetric>, s: Snapshot)
    requires Agrees(read, good) && Consistent(read, snapshots, trends) && s.id in snapshots
    ensures Record(SqliteStore.Contents(read, snapshots), s) == SqliteStore.Contents(read, snapshots)
  {
    ContentsAreProper(read, good, snapshots, trends);
  }

  /** Without a failing statement, such a snapshot is refused only because another one has its id. */
  lemma RefusedOnlyAsDuplicate<P(!new)>(lib: Library<P>, snapshots: Table<P>, trends: seq<TrendMetric>, s: Snapshot)
    requires Faithful(lib) && Consistent(Reader(lib), snapshots, trends) && Storable(lib, s)
    ensures SaveFails(lib, snapshots, s, NoFault) <==>
      s.id in snapshots && Reader(lib)(snapshots[s.id]) != Some(s)
    ensures SaveFails(lib, snapshots, s, NoFault) ==>
      Record(SqliteStore.Contents(Reader(lib), snapshots), s) == SqliteStore.Contents(Reader(lib), snapshots)
  {
    StorableFails(lib, snapshots, s);
    StoringFailsWithoutFault(lib, snapshots, s);
    if s.id in snapshots {
      ConflictIffDifferent(lib, snapshots, trends, s);
      ReaderAgrees(lib);
      RecordedAlready(Reader(lib), NormalOf(lib.hash), snapshots, trends, s);
    }
  }

  ghost function RecordAll(h: set<Snapshot>, ss: seq<Snapshot>): set<Snapshot> {
    if ss == [] then h else Record(RecordAll(h, ss[..|ss| - 1]), ss[|ss| - 1])
  }

  /** One snapshot saved in both stores: both record it, and SQLite says so when its id was another's. */
  method SaveBoth<P(!new, ==)>(s: Snapshot, memory: Memory, sqlite: Sqlite<P>) returns (err: Option<string>)
    requires memory.Valid() && sqlite.Valid() && memory.hash == sqlite.lib.hash
    requires MemoryStore.Contents(memory.targets) == sqlite.History() && Storable(sqlite.lib, s)
    modifies memory, sqlite
    ensures memory.Valid() && sqlite.Valid()
    ensures MemoryStore.Contents(memory.targets) == Record(old(sqlite.History()), s)
    ensures sqlite.History() == Record(old(sqlite.History()), s)
    ensures err.Some? <==> s.id in old(sqlite.snapshots) && old(Reader(sqlite.lib)(sqlite.snapshots[s.id])) != Some(s)
  {
    assert ValidateSnapshot(sqlite.lib, s) == Ok(s) by { ValidateNormal(sqlite.lib, s); }
    RefusedOnlyAsDuplicate(sqlite.lib, sqlite.snapshots, sqlite.trends, s);
    var ignored := memory.Save(s);
    err := sqlite.Save(s, NoFault);
  }

  /** Saving the same snapshots in both keeps both histories equal; on a duplicate both keep the first,
      the one silently and the other with an error. */
  method SaveAll<P(!new, ==)>(ss: seq<Snapshot>, memory: Memory, sqlite: Sqlite<P>)
    requires memory.Valid() && sqlite.Valid() && memory.hash == sqlite.lib.hash
    requires MemoryStore.Contents(memory.targets) == sqlite.History()
    requires forall s | s in ss :: Storable(sqlite.lib, s)
    modifies memory, sqlite
    ensures memory.Valid() && sqlite.Valid()
    ensures MemoryStore.Contents(memory.targets) == sqlite.History() == RecordAll(old(sqlite.History()), ss)
  {
    ghost var h := sqlite.History();
    for i := 0 to |ss|
      invariant memory.Valid() && sqlite.Valid()
      invariant MemoryStore.Contents(memory.targets) == sqlite.History()
      invariant sqlite.History() == RecordAll(h, ss[..i])
    {
      RecordAllStep(h, ss, i);
      var err := SaveBoth(ss[i], memory, sqlite);
    }
    assert ss[..|ss|] == ss;
  }

  lemma RecordAllStep(h: set<Snapshot>, ss: seq<Snapshot>, i: nat)
    requires i < |ss|
    ensures RecordAll(h, ss[..i + 1]) == Record(RecordAll(h, ss[..i]), ss[i])
    ensures ss[i] in ss
  {
    assert ss[..i + 1][..i] == ss[..i];
  }

  /** Equal histories answer every query alike, where stamps order them as time does. */
  method QueryBoth<P(!new, ==)>(memory: Memory, sqlite: Sqlite<P>, target: string, before: Clock.Time, limit: int)
    returns (latest: (Result<Snapshot>, Result<Snapshot>), previous: (Result<Snapshot>, Result<Snapshot>),
             list: (Result<seq<Snapshot>>, Result<seq<Snapshot>>))
    requires memory.Valid() && sqlite.Valid()
    requires MemoryStore.Contents(memory.targets) == sqlite.History()
    requires target != "" && before != Clock.ZERO
    requires KeepsOrder(sqlite.History(), target) && SplitsAt(sqlite.History(), target, before)
    ensures latest.0 == latest.1 && previous.0 == previous.1 && list.0 == list.1
  {
    var items := memory.Sorted(target);
    ghost var listing := if items.Ok? then items.value else [];
    assert IsListing(sqlite.History(), target, listing);
    var a := memory.Latest(target);
    var b := sqlite.Latest(target);
    latest := (a, b);
    a := memory.Previous(target, before);
    b := sqlite.Previous(target, before);
    previous := (a, b);
    var c := memory.List(target, limit);
    var d := sqlite.List(target, limit);
    list := (c, d);
  }
}
