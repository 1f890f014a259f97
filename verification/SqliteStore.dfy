/**
  The SQLite baseline store: two tables, a transaction per save, and queries that check every row
  against its payload.  Any statement of a save may fail; a failed commit leaves nothing behind.
 */
module SqliteStore {
  import opened Lists
  import opened Signal
  import opened Snapshot
  import opened History
  import Listing = History
  import opened Codec
  import Clock
  import Sorting
  import Text

  /** P is the type of a payload's bytes. */
  datatype Row<P(==)> = Row(
    id: string,
    target: string,
    engine: string,
    adapterId: string,
    adapterVersion: string,
    schemaVersion: string,
    collectedAtNs: int,
    payload: P)

  function RowOf<P(==)>(s: Snapshot, payload: P): Row<P> {
    Row(s.id, s.target, s.engine, s.adapterId, s.adapterVersion, s.schemaVersion, Clock.UnixNano(s.collectedAt), payload)
  }

  /** The statement of a save that fails, if it is reached. */
  datatype Fault = NoFault | AtBegin | AtInsertSnapshot | AtRowsAffected | AtVerify | AtInsertTrend(i: nat) | AtCommit

  /** A stored row is read back: its payload is decoded and must agree with every column. */
  function ScanStoredSnapshot<P(==)>(lib: Library<P>, row: Row<P>, expectedTarget: string): Result<Snapshot> {
    var s := DecodeSnapshot(lib, row.payload);
    if s.Err? then Err(s.message)
    else if row.target != expectedTarget || RowOf(s.value, row.payload) != row then
      Err("SQLite snapshot envelope does not match payload")
    else s
  }

  /** A row reads exactly if it is under the target asked for, its payload decodes, and every column agrees
      with the snapshot in it. */
  lemma EnvelopeIsExact<P>(lib: Library<P>, row: Row<P>, expectedTarget: string)
    ensures ScanStoredSnapshot(lib, row, expectedTarget).Ok? <==>
      && row.target == expectedTarget && DecodeSnapshot(lib, row.payload).Ok?
      && var s := DecodeSnapshot(lib, row.payload).value;
         && s.id == row.id && s.target == row.target && s.engine == row.engine
         && s.adapterId == row.adapterId && s.adapterVersion == row.adapterVersion
         && s.schemaVersion == row.schemaVersion && Clock.UnixNano(s.collectedAt) == row.collectedAtNs
    ensures ScanStoredSnapshot(lib, row, expectedTarget).Ok? ==>
      ScanStoredSnapshot(lib, row, expectedTarget) == DecodeSnapshot(lib, row.payload)
  {
  }

  // ---- the tables -----------------------------------------------------------------------------

  type Table<P(==)> = map<string, Row<P>>

  /** The trend rows of one snapshot, in insertion order. */
  function TrendsOf(trends: seq<TrendMetric>, id: string): seq<TrendMetric> {
    FilterMap(trends, WithId(id))
  }

  function WithId(id: string): TrendMetric -> Option<TrendMetric> {
    (t: TrendMetric) => if t.snapshotId == id then Some(t) else None
  }

  /** How a row reads: the snapshot it holds, provided it is one that Save could have written. */
  ghost function Reader<P(!new)>(lib: Library<P>): Row<P> -> Option<Snapshot> {
    (row: Row<P>) =>
      var s := ScanStoredSnapshot(lib, row, row.target);
      if s.Ok? && Normal(lib.hash, s.value) && lib.marshal(s.value) == Some(row.payload) then Some(s.value) else None
  }

  /** A row that reads agrees with its snapshot, which is good. */
  ghost predicate Agrees<P(!new)>(read: Row<P> -> Option<Snapshot>, good: Snapshot -> bool) {
    forall row | read(row).Some? ::
      var s := read(row).value;
      good(s) && s.id == row.id && s.target == row.target && Clock.UnixNano(s.collectedAt) == row.collectedAtNs
  }

  lemma ReaderAgrees<P(!new)>(lib: Library<P>)
    ensures Agrees(Reader(lib), NormalOf(lib.hash))
  {
  }

  /** A row is filed under its id, reads, and its trend rows are those of the snapshot it holds. */
  ghost predicate RowOk<P(!new)>(read: Row<P> -> Option<Snapshot>, id: string, row: Row<P>, trends: seq<TrendMetric>) {
    && row.id == id && read(row).Some?
    && multiset(TrendsOf(trends, id)) == multiset(TrendRows(read(row).value))
  }

  /** Every row is in order and no trend row is an orphan. */
  ghost predicate Consistent<P(!new)>(read: Row<P> -> Option<Snapshot>, snapshots: Table<P>, trends: seq<TrendMetric>) {
    && (forall id | id in snapshots :: RowOk(read, id, snapshots[id], trends))
    && (forall t | t in trends :: t.snapshotId in snapshots)
  }

  ghost function Contents<P(!new)>(read: Row<P> -> Option<Snapshot>, snapshots: Table<P>): set<Snapshot> {
    set id | id in snapshots && read(snapshots[id]).Some? :: read(snapshots[id]).value
  }

  lemma ContentsAreProper<P(!new)>(read: Row<P> -> Option<Snapshot>, good: Snapshot -> bool, snapshots: Table<P>, trends: seq<TrendMetric>)
    requires Agrees(read, good) && Consistent(read, snapshots, trends)
    ensures Proper(good, Contents(read, snapshots))
    ensures forall s | s in Contents(read, snapshots) :: s.id in snapshots && read(snapshots[s.id]) == Some(s)
    ensures forall id | id in snapshots :: exists s :: s in Contents(read, snapshots) && s.id == id
  {
    forall s | s in Contents(read, snapshots) ensures s.id in snapshots && read(snapshots[s.id]) == Some(s) {
      var id :| id in snapshots && read(snapshots[id]) == Some(s);
      assert RowOk(read, id, snapshots[id], trends);
    }
    forall id | id in snapshots ensures exists s :: s in Contents(read, snapshots) && s.id == id {
      assert RowOk(read, id, snapshots[id], trends);
      assert read(snapshots[id]).value in Contents(read, snapshots);
    }
  }

  lemma TrendsUnchanged(trends: seq<TrendMetric>, rows: seq<TrendMetric>, id: string)
    requires forall t | t in rows :: t.snapshotId != id
    ensures TrendsOf(trends + rows, id) == TrendsOf(trends, id)
  {
    FilterMapAppend(trends, rows, WithId(id));
    FilterMapMembers(rows, WithId(id));
    assert TrendsOf(rows, id) == [];
  }

  lemma {:induction false} AllWithId(rows: seq<TrendMetric>, id: string)
    requires forall t | t in rows :: t.snapshotId == id
    ensures TrendsOf(rows, id) == rows
  {
    if rows != [] {
      assert rows == rows[..|rows| - 1] + [rows[|rows| - 1]];
      AllWithId(rows[..|rows| - 1], id);
    }
  }

  lemma TrendsAdded(trends: seq<TrendMetric>, rows: seq<TrendMetric>, id: string)
    requires forall t | t in trends :: t.snapshotId != id
    requires forall t | t in rows :: t.snapshotId == id
    ensures TrendsOf(trends + rows, id) == rows
  {
    FilterMapAppend(trends, rows, WithId(id));
    FilterMapMembers(trends, WithId(id));
    assert TrendsOf(trends, id) == [];
    AllWithId(rows, id);
  }

  lemma InsertAddsContents<P(!new)>(read: Row<P> -> Option<Snapshot>, snapshots: Table<P>, row: Row<P>)
    requires row.id !in snapshots && read(row).Some?
    ensures Contents(read, snapshots[row.id := row]) == Contents(read, snapshots) + {read(row).value}
  {
    var after := snapshots[row.id := row];
    forall s ensures s in Contents(read, after) <==> s in Contents(read, snapshots) || s == read(row).value {
      if s in Contents(read, snapshots) {
        var id :| id in snapshots && read(snapshots[id]) == Some(s);
        assert after[id] == snapshots[id];
      }
      assert after[row.id] == row;
    }
  }

  /** Inserting a row that reads, with its trend rows, keeps the tables consistent and adds its snapshot. */
  lemma InsertKeepsConsistent<P(!new)>(read: Row<P> -> Option<Snapshot>, snapshots: Table<P>, trends: seq<TrendMetric>, row: Row<P>, rows: seq<TrendMetric>)
    requires Consistent(read, snapshots, trends) && row.id !in snapshots && read(row).Some?
    requires multiset(rows) == multiset(TrendRows(read(row).value)) && forall t | t in rows :: t.snapshotId == row.id
    ensures Consistent(read, snapshots[row.id := row], trends + rows)
    ensures Contents(read, snapshots[row.id := row]) == Contents(read, snapshots) + {read(row).value}
  {
    InsertAddsContents(read, snapshots, row);
    var after := snapshots[row.id := row];
    forall id | id in after ensures RowOk(read, id, after[id], trends + rows) {
      if id == row.id {
        TrendsAdded(trends, rows, id);
      } else {
        TrendsUnchanged(trends, rows, id);
        assert RowOk(read, id, snapshots[id], trends);
      }
    }
  }

  /** What Save writes reads back as what it was given, in normal form. */
  lemma SavedRowReads<P(!new)>(lib: Library<P>, s: Snapshot)
    requires Faithful(lib) && Normal(lib.hash, s) && Encodable(lib, s)
    ensures Reader(lib)(RowOf(s, lib.marshal(s).value)) == Some(s)
  {
    var row := RowOf(s, lib.marshal(s).value);
    assert DecodeSnapshot(lib, row.payload) == Ok(s) by { NormalRoundTrip(lib, s); }
    assert ScanStoredSnapshot(lib, row, row.target) == Ok(s);
  }

  class Sqlite<P(!new, ==)> {
    const lib: Library<P>
    var snapshots: Table<P>
    var trends: seq<TrendMetric>

    constructor (lib: Library<P>)
      ensures this.lib == lib && snapshots == map[] && trends == []
      ensures Faithful(lib) ==> Valid() && History() == {}
    {
      this.lib := lib;
      snapshots := map[];
      trends := [];
    }

    ghost predicate Valid()
      reads this
    {
      Faithful(lib) && Consistent(Reader(lib), snapshots, trends)
    }

    ghost function History(): set<Snapshot>
      reads this
    {
      Contents(Reader(lib), snapshots)
    }

    /** INSERT OR IGNORE under the primary key; the number of rows inserted. */
    method InsertOrIgnore(row: Row<P>) returns (inserted: nat)
      modifies `snapshots
      ensures inserted == if row.id in old(snapshots) then 0 else 1
      ensures snapshots == if row.id in old(snapshots) then old(snapshots) else old(snapshots)[row.id := row]
    {
      if row.id in snapshots {
        return 0;
      }
      snapshots := snapshots[row.id := row];
      return 1;
    }

    /** The trend inserts, one statement a row. */
    method InsertTrends(rows: seq<TrendMetric>, fault: Fault) returns (err: Option<string>)
      modifies `trends
      ensures err.Some? <==> fault.AtInsertTrend? && fault.i < |rows|
      ensures err.None? ==> trends == old(trends) + rows
    {
      for i := 0 to |rows|
        invariant trends == old(trends) + rows[..i]
        invariant fault.AtInsertTrend? ==> i <= fault.i
      {
        if fault == AtInsertTrend(i) {
          return Some("insert SQLite trend metric");
        }
        trends := trends + [rows[i]];
        assert rows[..i + 1] == rows[..i] + [rows[i]];
      }
      assert rows[..|rows|] == rows;
      return None;
    }

    /** The statements between begin and commit. */
    method Statements(row: Row<P>, rows: seq<TrendMetric>, fault: Fault) returns (err: Option<string>)
      modifies this
      ensures err.Some? <==> StatementsFail(old(snapshots), row, rows, fault)
      ensures err.None? && row.id in old(snapshots) ==> snapshots == old(snapshots) && trends == old(trends)
      ensures err.None? && row.id !in old(snapshots) ==>
        snapshots == old(snapshots)[row.id := row] && trends == old(trends) + rows
    {
      if fault == AtInsertSnapshot {
        return Some("insert SQLite snapshot");
      }
      var inserted := InsertOrIgnore(row);
      if fault == AtRowsAffected {
        return Some("read SQLite snapshot insert result");
      }
      if inserted == 0 {
        if fault == AtVerify {
          return Some("verify existing SQLite snapshot");
        }
        if snapshots[row.id].payload != row.payload {
          return Some("SQLite snapshot identity collision: existing payload differs");
        }
        return None;
      }
      err := InsertTrends(rows, fault);
    }

    /** One transaction: everything the save writes, or nothing. */
    method Transact(row: Row<P>, rows: seq<TrendMetric>, fault: Fault) returns (err: Option<string>)
      modifies this
      ensures err.Some? <==> TransactionFails(old(snapshots), row, rows, fault)
      ensures if err.None? && row.id !in old(snapshots)
        then snapshots == old(snapshots)[row.id := row] && trends == old(trends) + rows
        else snapshots == old(snapshots) && trends == old(trends)
      ensures Kept(old(snapshots), snapshots)
    {
      if fault == AtBegin {
        return Some("begin SQLite snapshot transaction");
      }
      var snapshotsBefore, trendsBefore := snapshots, trends;
      var committed := false;
      err := Statements(row, rows, fault);
      if err.None? {
        if fault == AtCommit {
          err := Some("commit SQLite snapshot transaction");
        } else {
          committed := true;
        }
      }
      if !committed {
        snapshots, trends := snapshotsBefore, trendsBefore;
      }
    }

    /** A save validates, encodes and derives the trend rows, and then runs its transaction.  It keeps the
        tables consistent; when it succeeds the history has recorded the snapshot's normal form, when it
        fails for whatever reason both tables are as before. */
    method Save(s: Snapshot, fault: Fault) returns (err: Option<string>)
      requires Valid()
      modifies this
      ensures Valid()
      ensures err.Some? <==> SaveFails(lib, old(snapshots), s, fault)
      ensures err.Some? ==> snapshots == old(snapshots) && trends == old(trends)
      ensures err.None? ==> History() == Record(old(History()), ValidateSnapshot(lib, s).value)
      ensures Kept(old(snapshots), snapshots)
    {
      var normalized := ValidateSnapshot(lib, s);
      if normalized.Err? {
        return Some(normalized.message);
      }
      assert Normal(lib.hash, normalized.value) by { ValidateNormal(lib, s); }
      var payload := EncodeSnapshot(lib, normalized.value);
      EncodingOfNormal(lib, normalized.value);
      if payload.Err? {
        return Some(payload.message);
      }
      var rows := ExtractTrendMetrics(normalized.value);
      if rows.Err? {
        return Some(rows.message);
      }
      var row := RowOf(normalized.value, payload.value);
      SavedRowReads(lib, normalized.value);
      RowsCarryTheId(normalized.value, rows.value);
      TransactionEffect(lib, snapshots, trends, row, normalized.value, rows.value);
      err := Transact(row, rows.value, fault);
    }

    /** Every run of saves, whichever statements fail: the tables stay consistent, no stored row ever changes
        or disappears, and no snapshot leaves the history. */
    method SaveEach(saves: seq<(Snapshot, Fault)>)
      requires Valid()
      modifies this
      ensures Valid() && Kept(old(snapshots), snapshots) && old(History()) <= History()
    {
      for i := 0 to |saves|
        invariant Valid() && Kept(old(snapshots), snapshots) && old(History()) <= History()
      {
        var err := Save(saves[i].0, saves[i].1);
      }
    }

    /** SELECT ... WHERE target_fingerprint = ? [AND collected_at_ns < ?] ORDER BY collected_at_ns DESC, id DESC */
    method Select(target: string, before: Option<int>) returns (rows: seq<Row<P>>)
      requires forall id | id in snapshots :: snapshots[id].id == id
      ensures IsSelection(snapshots, target, before, rows)
    {
      var found: seq<Row<P>> := [];
      var seen, left := {}, snapshots.Keys;
      while left != {}
        invariant seen !! left && seen + left == snapshots.Keys
        invariant IsFound(snapshots, seen, target, before, found)
        decreases left
      {
        var id :| id in left;
        FoundOneMore(snapshots, seen, target, before, found, id);
        if Selected(snapshots[id], target, before) {
          found := found + [snapshots[id]];
        }
        seen, left := seen + {id}, left - {id};
      }
      RowOrderIsWeakOrder<P>();
      rows := Sorting.Sort(found, RowOrder());
      Sorting.SameElements(rows, found);
      Sorting.DistinctPermutation(found, rows);
      assert seen == snapshots.Keys;
    }

    /** All rows of a target, newest first: each can be scanned, and together they hold its listing. */
    method SelectAll(target: string) returns (rows: seq<Row<P>>, ghost held: seq<Snapshot>)
      requires Valid()
      ensures Scans(Scanner(lib, target), rows, held)
      ensures KeepsOrder(History(), target) ==> forall listing | IsListing(History(), target, listing) :: listing == held
    {
      rows := Select(target, None);
      SelectedRowsScan(lib, snapshots, trends, target, None, rows);
      held := Held(Reader(lib), rows);
      if KeepsOrder(History(), target) {
        OnlyRowsListed(lib, snapshots, trends, target, rows);
      }
    }

    method Latest(target: string) returns (r: Result<Snapshot>)
      requires Valid()
      ensures target == "" ==> r == Err(TARGET_REQUIRED)
      ensures target != "" && KeepsOrder(History(), target) ==>
        forall listing | IsListing(History(), target, listing) :: r == Listing.Latest(listing)
    {
      if target == "" {
        return Err(TARGET_REQUIRED);
      }
      var rows, held := SelectAll(target);
      if |rows| == 0 {
        return Err(NOT_FOUND);
      }
      r := ScanStoredSnapshot(lib, rows[0], target);
    }

    method Previous(target: string, before: Clock.Time) returns (r: Result<Snapshot>)
      requires Valid()
      ensures target == "" ==> r == Err(TARGET_REQUIRED)
      ensures target != "" && before == Clock.ZERO ==> r == Err(TIME_REQUIRED)
      ensures target != "" && before != Clock.ZERO && KeepsOrder(History(), target) && SplitsAt(History(), target, before) ==>
        forall listing | IsListing(History(), target, listing) :: r == Listing.Previous(listing, before)
    {
      if target == "" {
        return Err(TARGET_REQUIRED);
      }
      if before == Clock.ZERO {
        return Err(TIME_REQUIRED);
      }
      var rows := Select(target, Some(Clock.UnixNano(before)));
      SelectedRowsScan(lib, snapshots, trends, target, Some(Clock.UnixNano(before)), rows);
      if KeepsOrder(History(), target) && SplitsAt(History(), target, before) {
        forall listing | IsListing(History(), target, listing)
          ensures Listing.Previous(listing, before) == if rows == [] then Err(NOT_FOUND) else Ok(Held(Reader(lib), rows)[0])
        {
          ReaderAgrees(lib);
          PreviousRow(Reader(lib), NormalOf(lib.hash), snapshots, trends, target, before, rows, listing);
        }
      }
      if |rows| == 0 {
        return Err(NOT_FOUND);
      }
      r := ScanStoredSnapshot(lib, rows[0], target);
    }

    method List(target: string, limit: int) returns (r: Result<seq<Snapshot>>)
      requires Valid()
      ensures target == "" ==> r == Err(TARGET_REQUIRED)
      ensures target != "" && KeepsOrder(History(), target) ==>
        forall listing | IsListing(History(), target, listing) :: r == Listing.List(listing, limit)
    {
      if target == "" {
        return Err(TARGET_REQUIRED);
      }
      var rows, held := SelectAll(target);
      var page := if 0 < limit < |rows| then rows[..limit] else rows;
      r := ScanAll(Scanner(lib, target), page);
      PageIsList(Scanner(lib, target), rows, held, limit, r);
      if r.Ok? && |r.value| == 0 {
        return Err(NOT_FOUND);
      }
    }
  }

  /** Every row of `before` is still there as it was. */
  ghost predicate Kept<P(!new)>(before: Table<P>, after: Table<P>) {
    forall id | id in before :: id in after && after[id] == before[id]
  }

  /** Whether a statement fails, or the id is taken by another payload. */
  predicate StatementsFail<P(==)>(snapshots: Table<P>, row: Row<P>, rows: seq<TrendMetric>, fault: Fault) {
    || fault == AtInsertSnapshot || fault == AtRowsAffected
    || (if row.id in snapshots then fault == AtVerify || snapshots[row.id].payload != row.payload
        else fault.AtInsertTrend? && fault.i < |rows|)
  }

  predicate TransactionFails<P(==)>(snapshots: Table<P>, row: Row<P>, rows: seq<TrendMetric>, fault: Fault) {
    fault == AtBegin || StatementsFail(snapshots, row, rows, fault) || fault == AtCommit
  }

  /** A snapshot that validated cannot be encoded or has too many trend rows, or its transaction fails. */
  predicate StoringFails<P(==)>(lib: Library<P>, snapshots: Table<P>, s: Snapshot, fault: Fault) {
    || !Encodable(lib, s)
    || |TrendRows(s)| > MAX_TREND_ROWS
    || TransactionFails(snapshots, RowOf(s, lib.marshal(s).value), TrendRows(s), fault)
  }

  /** A save fails exactly when the snapshot is not acceptable, or too big, or a statement it reaches fails,
      or its id is taken by another payload. */
  predicate SaveFails<P(==)>(lib: Library<P>, snapshots: Table<P>, s: Snapshot, fault: Fault) {
    var normalized := ValidateSnapshot(lib, s);
    normalized.Err? || StoringFails(lib, snapshots, normalized.value, fault)
  }

  lemma EncodingOfNormal<P(!new)>(lib: Library<P>, s: Snapshot)
    requires Faithful(lib) && Normal(lib.hash, s)
    ensures EncodeSnapshot(lib, s).Ok? <==> Encodable(lib, s)
    ensures EncodeSnapshot(lib, s).Ok? ==> EncodeSnapshot(lib, s) == Ok(lib.marshal(s).value)
  {
    assert ValidateSnapshot(lib, s) == Ok(s) by { ValidateNormal(lib, s); }
  }

  lemma RowsCarryTheId(s: Snapshot, rows: seq<TrendMetric>)
    requires multiset(rows) == multiset(TrendRows(s))
    ensures |rows| == |TrendRows(s)| && forall t | t in rows :: t.snapshotId == s.id
  {
    Sorting.SameElements(rows, TrendRows(s));
    TrendRowsCarryTheId(s);
  }

  /** What a transaction that goes through does to the history. */
  lemma TransactionEffect<P(!new)>(lib: Library<P>, snapshots: Table<P>, trends: seq<TrendMetric>, row: Row<P>, s: Snapshot, rows: seq<TrendMetric>)
    requires Consistent(Reader(lib), snapshots, trends)
    requires lib.marshal(s).Some? && row == RowOf(s, lib.marshal(s).value) && Reader(lib)(row) == Some(s)
    requires multiset(rows) == multiset(TrendRows(s)) && forall t | t in rows :: t.snapshotId == s.id
    ensures if s.id in snapshots then Record(Contents(Reader(lib), snapshots), s) == Contents(Reader(lib), snapshots)
      else
        && Consistent(Reader(lib), snapshots[s.id := row], trends + rows)
        && Contents(Reader(lib), snapshots[s.id := row]) == Record(Contents(Reader(lib), snapshots), s)
  {
    EffectFor(Reader(lib), NormalOf(lib.hash), snapshots, trends, row, s, rows) by { ReaderAgrees(lib); }
  }

  lemma EffectFor<P(!new)>(read: Row<P> -> Option<Snapshot>, good: Snapshot -> bool, snapshots: Table<P>, trends: seq<TrendMetric>, row: Row<P>, s: Snapshot, rows: seq<TrendMetric>)
    requires Agrees(read, good) && Consistent(read, snapshots, trends)
    requires row.id == s.id && read(row) == Some(s)
    requires multiset(rows) == multiset(TrendRows(s)) && forall t | t in rows :: t.snapshotId == s.id
    ensures if s.id in snapshots then Record(Contents(read, snapshots), s) == Contents(read, snapshots)
      else
        && Consistent(read, snapshots[s.id := row], trends + rows)
        && Contents(read, snapshots[s.id := row]) == Record(Contents(read, snapshots), s)
  {
    ContentsAreProper(read, good, snapshots, trends);
    if s.id !in snapshots {
      InsertKeepsConsistent(read, snapshots, trends, row, rows);
    }
  }

  /** A second snapshot under a stored id is refused exactly when it is another snapshot. */
  lemma ConflictIffDifferent<P(!new)>(lib: Library<P>, snapshots: Table<P>, trends: seq<TrendMetric>, s: Snapshot)
    requires Faithful(lib) && Consistent(Reader(lib), snapshots, trends) && s.id in snapshots && lib.marshal(s).Some?
    ensures snapshots[s.id].payload != lib.marshal(s).value <==> Reader(lib)(snapshots[s.id]) != Some(s)
  {
    assert RowOk(Reader(lib), s.id, snapshots[s.id], trends);
    assert lib.unmarshal(lib.marshal(s).value) == Some(s);
  }

  // ---- reading --------------------------------------------------------------------------------

  const TARGET_REQUIRED := "target fingerprint is required"
  const TIME_REQUIRED := "previous snapshot time is required"

  function RowOrder<P(==)>(): (Row<P>, Row<P>) -> bool {
    (a: Row<P>, b: Row<P>) =>
      if a.collectedAtNs == b.collectedAtNs then Text.Less(b.id, a.id) else a.collectedAtNs > b.collectedAtNs
  }

  lemma RowOrderIsWeakOrder<P(!new)>()
    ensures Sorting.WeakOrder(RowOrder<P>())
  {
    var less := RowOrder<P>();
    forall x: Row<P>, y: Row<P> ensures less(x, y) ==> !less(y, x) {
      Text.LessAsymmetric(x.id, y.id);
    }
    forall x: Row<P>, y: Row<P>, z: Row<P> | !less(y, x) && !less(z, y) ensures !less(z, x) {
      if x.collectedAtNs == y.collectedAtNs == z.collectedAtNs {
        Text.LessTransitive(z.id, y.id, x.id);
      }
    }
  }

  predicate Selected<P(==)>(row: Row<P>, target: string, before: Option<int>) {
    row.target == target && (before.Some? ==> row.collectedAtNs < before.value)
  }

  /** The matching rows among those looked at, each once. */
  ghost predicate IsFound<P(!new)>(snapshots: Table<P>, seen: set<string>, target: string, before: Option<int>, rows: seq<Row<P>>) {
    && (forall row | row in rows ::
          row.id in seen && row.id in snapshots && snapshots[row.id] == row && Selected(row, target, before))
    && (forall i, j | 0 <= i < j < |rows| :: rows[i] != rows[j])
    && (forall id | id in seen && id in snapshots && Selected(snapshots[id], target, before) :: snapshots[id] in rows)
  }

  lemma FoundOneMore<P(!new)>(snapshots: Table<P>, seen: set<string>, target: string, before: Option<int>, found: seq<Row<P>>, id: string)
    requires IsFound(snapshots, seen, target, before, found)
    requires id in snapshots && id !in seen && snapshots[id].id == id
    ensures IsFound(snapshots, seen + {id}, target, before,
      if Selected(snapshots[id], target, before) then found + [snapshots[id]] else found)
  {
  }

  /** The matching rows, each once, newest first. */
  ghost predicate IsSelection<P(!new)>(snapshots: Table<P>, target: string, before: Option<int>, rows: seq<Row<P>>) {
    IsFound(snapshots, snapshots.Keys, target, before, rows) && Sorting.SortedBy(rows, RowOrder())
  }

  /** The snapshots that rows hold. */
  ghost function Held<P(!new)>(read: Row<P> -> Option<Snapshot>, rows: seq<Row<P>>): seq<Snapshot>
    requires forall row | row in rows :: read(row).Some?
  {
    seq(|rows|, i requires 0 <= i < |rows| => read(rows[i]).value)
  }

  /** The integer column orders a target's snapshots as time does. */
  ghost predicate KeepsOrder(h: set<Snapshot>, target: string) {
    forall r, s | r in h && s in h && r.target == target && s.target == target ::
      Clock.Before(r.collectedAt, s.collectedAt) <==> Clock.UnixNano(r.collectedAt) < Clock.UnixNano(s.collectedAt)
  }

  /** And it puts them on the side of a bound that they are on. */
  ghost predicate SplitsAt(h: set<Snapshot>, target: string, before: Clock.Time) {
    forall s | s in h && s.target == target ::
      Clock.Before(s.collectedAt, before) <==> Clock.UnixNano(s.collectedAt) < Clock.UnixNano(before)
  }

  /** How a query on a target reads a row. */
  function Scanner<P>(lib: Library<P>, target: string): Row<P> -> Result<Snapshot> {
    (row: Row<P>) => ScanStoredSnapshot(lib, row, target)
  }

  /** Every row passes the scan, as the snapshot at its place. */
  ghost predicate Scans<P>(scan: Row<P> -> Result<Snapshot>, rows: seq<Row<P>>, held: seq<Snapshot>) {
    |held| == |rows| && forall i | 0 <= i < |rows| :: scan(rows[i]) == Ok(held[i])
  }

  /** What scanning the rows gives: a snapshot for every row, or the error of one of them. */
  ghost predicate Scanned<P>(scan: Row<P> -> Result<Snapshot>, rows: seq<Row<P>>, r: Result<seq<Snapshot>>) {
    if r.Ok? then Scans(scan, rows, r.value)
    else exists i :: 0 <= i < |rows| && scan(rows[i]) == Err(r.message)
  }

  /** The scan loop of List: it stops at the first row that does not scan. */
  method ScanAll<P(==)>(scan: Row<P> -> Result<Snapshot>, rows: seq<Row<P>>) returns (r: Result<seq<Snapshot>>)
    ensures Scanned(scan, rows, r)
  {
    var out := [];
    for i := 0 to |rows|
      invariant Scans(scan, rows[..i], out)
    {
      var s := scan(rows[i]);
      if s.Err? {
        return Err(s.message);
      }
      out := out + [s.value];
    }
    assert rows[..|rows|] == rows;
    return Ok(out);
  }

  lemma ScansOnce<P>(scan: Row<P> -> Result<Snapshot>, rows: seq<Row<P>>, held: seq<Snapshot>, r: Result<seq<Snapshot>>)
    requires Scans(scan, rows, held) && Scanned(scan, rows, r)
    ensures r == Ok(held)
  {
    assert forall i | 0 <= i < |rows| :: scan(rows[i]).Ok?;
    if r.Ok? {
      forall i | 0 <= i < |rows| ensures r.value[i] == held[i] {
        assert scan(rows[i]) == Ok(held[i]);
      }
      assert r.value == held;
    }
  }

  lemma PageIsList<P>(scan: Row<P> -> Result<Snapshot>, rows: seq<Row<P>>, held: seq<Snapshot>, limit: int, r: Result<seq<Snapshot>>)
    requires Scans(scan, rows, held)
    requires Scanned(scan, if 0 < limit < |rows| then rows[..limit] else rows, r)
    ensures Listing.List(held, limit) == if r.Ok? && |r.value| == 0 then Err(NOT_FOUND) else r
  {
    assert held[..|held|] == held;
    if 0 < limit < |rows| {
      ScansOnce(scan, rows[..limit], held[..limit], r);
    } else {
      ScansOnce(scan, rows, held, r);
    }
  }

  lemma SelectedRowsRead<P(!new)>(read: Row<P> -> Option<Snapshot>, snapshots: Table<P>, trends: seq<TrendMetric>, target: string, before: Option<int>, rows: seq<Row<P>>)
    requires Consistent(read, snapshots, trends) && IsSelection(snapshots, target, before, rows)
    ensures forall row | row in rows :: read(row).Some?
  {
    forall row | row in rows ensures read(row).Some? {
      assert RowOk(read, row.id, snapshots[row.id], trends);
    }
  }

  lemma SelectedRowsScan<P(!new)>(lib: Library<P>, snapshots: Table<P>, trends: seq<TrendMetric>, target: string, before: Option<int>, rows: seq<Row<P>>)
    requires Consistent(Reader(lib), snapshots, trends) && IsSelection(snapshots, target, before, rows)
    ensures forall row | row in rows :: Reader(lib)(row).Some?
    ensures Scans(Scanner(lib, target), rows, Held(Reader(lib), rows))
  {
    SelectedRowsRead(Reader(lib), snapshots, trends, target, before, rows);
    forall i | 0 <= i < |rows| ensures ScanStoredSnapshot(lib, rows[i], target) == Ok(Held(Reader(lib), rows)[i]) {
      assert rows[i] in rows;
    }
  }

  /** The i-th row holds a snapshot of the history, with the row's target, id and stamp. */
  lemma RowHolds<P(!new)>(read: Row<P> -> Option<Snapshot>, good: Snapshot -> bool, snapshots: Table<P>, trends: seq<TrendMetric>, target: string, before: Option<int>, rows: seq<Row<P>>, i: nat)
    requires Agrees(read, good) && Consistent(read, snapshots, trends) && IsSelection(snapshots, target, before, rows)
    requires i < |rows| && forall row | row in rows :: read(row).Some?
    ensures var s := Held(read, rows)[i];
      && s in Contents(read, snapshots) && s.target == target && s.id == rows[i].id
      && Clock.UnixNano(s.collectedAt) == rows[i].collectedAtNs
      && (before.Some? ==> rows[i].collectedAtNs < before.value)
  {
    assert rows[i] in rows;
    assert read(snapshots[rows[i].id]).value in Contents(read, snapshots);
  }

  /** A snapshot of the history that matches is held by a row. */
  lemma HeldBy<P(!new)>(read: Row<P> -> Option<Snapshot>, good: Snapshot -> bool, snapshots: Table<P>, trends: seq<TrendMetric>, target: string, before: Option<int>, rows: seq<Row<P>>, s: Snapshot) returns (i: nat)
    requires Agrees(read, good) && Consistent(read, snapshots, trends) && IsSelection(snapshots, target, before, rows)
    requires forall row | row in rows :: read(row).Some?
    requires s in Contents(read, snapshots) && s.target == target && (before.Some? ==> Clock.UnixNano(s.collectedAt) < before.value)
    ensures i < |rows| && Held(read, rows)[i] == s && rows[i].collectedAtNs == Clock.UnixNano(s.collectedAt)
  {
    ContentsAreProper(read, good, snapshots, trends);
    assert Selected(snapshots[s.id], target, before);
    assert snapshots[s.id] in rows;
    i :| 0 <= i < |rows| && rows[i] == snapshots[s.id];
  }

  lemma HeldMembers<P(!new)>(read: Row<P> -> Option<Snapshot>, good: Snapshot -> bool, snapshots: Table<P>, trends: seq<TrendMetric>, target: string, rows: seq<Row<P>>)
    requires Agrees(read, good) && Consistent(read, snapshots, trends) && IsSelection(snapshots, target, None, rows)
    requires forall row | row in rows :: read(row).Some?
    ensures forall s :: s in Held(read, rows) <==> s in Contents(read, snapshots) && s.target == target
  {
    var out := Held(read, rows);
    forall s ensures s in out <==> s in Contents(read, snapshots) && s.target == target {
      if s in out {
        var i :| 0 <= i < |out| && out[i] == s;
        RowHolds(read, good, snapshots, trends, target, None, rows, i);
      }
      if s in Contents(read, snapshots) && s.target == target {
        var i := HeldBy(read, good, snapshots, trends, target, None, rows, s);
      }
    }
  }

  lemma HeldOrder<P(!new)>(read: Row<P> -> Option<Snapshot>, good: Snapshot -> bool, snapshots: Table<P>, trends: seq<TrendMetric>, target: string, rows: seq<Row<P>>, i: nat, j: nat)
    requires Agrees(read, good) && Consistent(read, snapshots, trends) && IsSelection(snapshots, target, None, rows)
    requires forall row | row in rows :: read(row).Some?
    requires i < j < |rows|
    ensures var out := Held(read, rows);
      out[i] != out[j] && Clock.UnixNano(out[j].collectedAt) <= Clock.UnixNano(out[i].collectedAt)
  {
    RowHolds(read, good, snapshots, trends, target, None, rows, i);
    RowHolds(read, good, snapshots, trends, target, None, rows, j);
    assert !RowOrder()(rows[j], rows[i]) && rows[i] in rows && rows[j] in rows;
  }

  /** Where stamps keep the order, all rows of a target, newest first, hold the target's listing. */
  lemma SelectionIsListing<P(!new)>(read: Row<P> -> Option<Snapshot>, good: Snapshot -> bool, snapshots: Table<P>, trends: seq<TrendMetric>, target: string, rows: seq<Row<P>>)
    requires Identifies(good) && Agrees(read, good) && Consistent(read, snapshots, trends)
    requires IsSelection(snapshots, target, None, rows) && KeepsOrder(Contents(read, snapshots), target)
    requires forall row | row in rows :: read(row).Some?
    ensures IsListing(Contents(read, snapshots), target, Held(read, rows))
  {
    var h, out := Contents(read, snapshots), Held(read, rows);
    ContentsAreProper(read, good, snapshots, trends);
    HeldMembers(read, good, snapshots, trends, target, rows);
    forall i, j | 0 <= i < j < |out|
      ensures out[i] != out[j] && Clock.Nanos(out[j].collectedAt) <= Clock.Nanos(out[i].collectedAt)
    {
      HeldOrder(read, good, snapshots, trends, target, rows, i, j);
      assert out[i] in out && out[j] in out;
      assert !Clock.Before(out[i].collectedAt, out[j].collectedAt);
    }
    SortedIsListing(good, h, target, out);
  }

  /** No matching snapshot has a greater stamp than the one the first row holds. */
  lemma FirstIsNewest<P(!new)>(read: Row<P> -> Option<Snapshot>, good: Snapshot -> bool, snapshots: Table<P>, trends: seq<TrendMetric>, target: string, before: Option<int>, rows: seq<Row<P>>, s: Snapshot)
    requires Agrees(read, good) && Consistent(read, snapshots, trends) && IsSelection(snapshots, target, before, rows)
    requires forall row | row in rows :: read(row).Some?
    requires s in Contents(read, snapshots) && s.target == target && (before.Some? ==> Clock.UnixNano(s.collectedAt) < before.value)
    ensures rows != [] && Clock.UnixNano(s.collectedAt) <= Clock.UnixNano(Held(read, rows)[0].collectedAt)
  {
    var i := HeldBy(read, good, snapshots, trends, target, before, rows, s);
    RowHolds(read, good, snapshots, trends, target, before, rows, 0);
    assert i == 0 || !RowOrder()(rows[i], rows[0]);
  }

  /** Where stamps keep the order, the newest row below the bound holds what Previous finds in the listing. */
  lemma PreviousRow<P(!new)>(read: Row<P> -> Option<Snapshot>, good: Snapshot -> bool, snapshots: Table<P>, trends: seq<TrendMetric>, target: string, before: Clock.Time, rows: seq<Row<P>>, listing: seq<Snapshot>)
    requires Agrees(read, good) && Consistent(read, snapshots, trends)
    requires IsSelection(snapshots, target, Some(Clock.UnixNano(before)), rows)
    requires forall row | row in rows :: read(row).Some?
    requires IsListing(Contents(read, snapshots), target, listing)
    requires KeepsOrder(Contents(read, snapshots), target) && SplitsAt(Contents(read, snapshots), target, before)
    ensures Listing.Previous(listing, before) == if rows == [] then Err(NOT_FOUND) else Ok(Held(read, rows)[0])
  {
    var limit, found := Some(Clock.UnixNano(before)), Listing.Previous(listing, before);
    PreviousMeaning(listing, before);
    if found.Ok? {
      FirstIsNewest(read, good, snapshots, trends, target, limit, rows, found.value);
    }
    if rows != [] {
      RowHolds(read, good, snapshots, trends, target, limit, rows, 0);
      var newest := Held(read, rows)[0];
      assert newest in listing;
      assert Clock.Before(newest.collectedAt, before);
    }
  }

  /** A listing that comes from sorted rows has its stamps in order, too. */
  lemma ListedStamps<P(!new)>(read: Row<P> -> Option<Snapshot>, good: Snapshot -> bool, snapshots: Table<P>, trends: seq<TrendMetric>, target: string, rows: seq<Row<P>>, r: Snapshot, s: Snapshot)
    requires Agrees(read, good) && Consistent(read, snapshots, trends) && IsSelection(snapshots, target, None, rows)
    requires forall row | row in rows :: read(row).Some?
    requires IsListing(Contents(read, snapshots), target, Held(read, rows))
    requires r in Held(read, rows) && s in Held(read, rows) && (r == s || Clock.Before(r.collectedAt, s.collectedAt))
    ensures Clock.UnixNano(r.collectedAt) <= Clock.UnixNano(s.collectedAt)
  {
    var i := HeldBy(read, good, snapshots, trends, target, None, rows, s);
    var j := HeldBy(read, good, snapshots, trends, target, None, rows, r);
    if i < j {
      assert !RowOrder()(rows[j], rows[i]);
    }
  }

  /** What `all` and `below` give is the target's listing and, for every stored time, the snapshot before it. */
  ghost predicate AnswersRight<P(!new)>(read: Row<P> -> Option<Snapshot>, h: set<Snapshot>, target: string, all: seq<Row<P>>, below: Snapshot -> seq<Row<P>>)
    requires forall row | row in all :: read(row).Some?
    requires forall s, row | row in below(s) :: read(row).Some?
  {
    && IsListing(h, target, Held(read, all))
    && forall s | s in Held(read, all) ::
         Listing.Previous(Held(read, all), s.collectedAt) ==
           if below(s) == [] then Err(NOT_FOUND) else Ok(Held(read, below(s))[0])
  }

  lemma OrderedIfRight<P(!new)>(read: Row<P> -> Option<Snapshot>, good: Snapshot -> bool, snapshots: Table<P>, trends: seq<TrendMetric>, target: string, all: seq<Row<P>>, below: Snapshot -> seq<Row<P>>, r: Snapshot, s: Snapshot)
    requires Agrees(read, good) && Consistent(read, snapshots, trends)
    requires IsSelection(snapshots, target, None, all)
    requires IsSelection(snapshots, target, Some(Clock.UnixNano(s.collectedAt)), below(s))
    requires forall row | row in all :: read(row).Some?
    requires forall s, row | row in below(s) :: read(row).Some?
    requires AnswersRight(read, Contents(read, snapshots), target, all, below)
    requires r in Held(read, all) && s in Held(read, all) && Clock.Before(r.collectedAt, s.collectedAt)
    ensures Clock.UnixNano(r.collectedAt) < Clock.UnixNano(s.collectedAt)
  {
    var found := Listing.Previous(Held(read, all), s.collectedAt);
    PreviousMeaning(Held(read, all), s.collectedAt);
    ListedStamps(read, good, snapshots, trends, target, all, r, found.value);
    RowHolds(read, good, snapshots, trends, target, Some(Clock.UnixNano(s.collectedAt)), below(s), 0);
  }

  /** The answers to List and to Previous, asked with every stored time, are right exactly when the stamps
      keep the order of the target's snapshots. */
  lemma AnswersRightIffOrdered<P(!new)>(read: Row<P> -> Option<Snapshot>, good: Snapshot -> bool, snapshots: Table<P>, trends: seq<TrendMetric>, target: string, all: seq<Row<P>>, below: Snapshot -> seq<Row<P>>)
    requires Identifies(good) && Agrees(read, good) && Consistent(read, snapshots, trends)
    requires IsSelection(snapshots, target, None, all)
    requires forall s: Snapshot :: IsSelection(snapshots, target, Some(Clock.UnixNano(s.collectedAt)), below(s))
    requires forall row | row in all :: read(row).Some?
    requires forall s, row | row in below(s) :: read(row).Some?
    ensures AnswersRight(read, Contents(read, snapshots), target, all, below) <==> KeepsOrder(Contents(read, snapshots), target)
  {
    var h, listing := Contents(read, snapshots), Held(read, all);
    if KeepsOrder(h, target) {
      SelectionIsListing(read, good, snapshots, trends, target, all);
      forall s | s in listing
        ensures Listing.Previous(listing, s.collectedAt) == if below(s) == [] then Err(NOT_FOUND) else Ok(Held(read, below(s))[0])
      {
        PreviousRow(read, good, snapshots, trends, target, s.collectedAt, below(s), listing);
      }
    }
    if AnswersRight(read, h, target, all, below) {
      forall r, s | r in listing && s in listing && Clock.Before(r.collectedAt, s.collectedAt)
        ensures Clock.UnixNano(r.collectedAt) < Clock.UnixNano(s.collectedAt)
      {
        OrderedIfRight(read, good, snapshots, trends, target, all, below, r, s);
      }
      StampsKeepOrder(h, target);
    }
  }

  /** Stamps are functions of the instants, so keeping the order one way is enough. */
  lemma StampsKeepOrder(h: set<Snapshot>, target: string)
    requires forall r, s | r in h && s in h && r.target == target && s.target == target && Clock.Before(r.collectedAt, s.collectedAt) ::
      Clock.UnixNano(r.collectedAt) < Clock.UnixNano(s.collectedAt)
    ensures KeepsOrder(h, target)
  {
  }

  /** For snapshots taken within 2^64 nanoseconds, some 584 years, the stamps keep the order exactly when
      all times are of one era. */
  lemma OrderedIffOneEra(h: set<Snapshot>, target: string)
    requires forall r, s | r in h && s in h && r.target == target && s.target == target ::
      Clock.Nanos(s.collectedAt) - Clock.Nanos(r.collectedAt) <= Clock.TWO_64
    ensures KeepsOrder(h, target) <==>
      forall r, s | r in h && s in h && r.target == target && s.target == target ::
        Clock.Era(Clock.Nanos(r.collectedAt)) == Clock.Era(Clock.Nanos(s.collectedAt))
  {
    forall r, s | r in h && s in h && r.target == target && s.target == target && Clock.Before(r.collectedAt, s.collectedAt)
      ensures Clock.UnixNano(r.collectedAt) < Clock.UnixNano(s.collectedAt) <==>
        Clock.Era(Clock.Nanos(r.collectedAt)) == Clock.Era(Clock.Nanos(s.collectedAt))
    {
      Clock.WrapKeepsOrder(Clock.Nanos(r.collectedAt), Clock.Nanos(s.collectedAt));
    }
  }

  /** In particular where all times fit a 64-bit count of nanoseconds. */
  lemma FittingTimesKeepOrder(h: set<Snapshot>, target: string, before: Clock.Time)
    requires forall s | s in h && s.target == target :: Clock.FitsInt64(Clock.Nanos(s.collectedAt))
    ensures KeepsOrder(h, target)
    ensures Clock.FitsInt64(Clock.Nanos(before)) ==> SplitsAt(h, target, before)
  {
  }

  /** Where a newer snapshot has the smaller stamp, Latest does not return it. */
  lemma LatestLosesNewest<P(!new)>(read: Row<P> -> Option<Snapshot>, good: Snapshot -> bool, snapshots: Table<P>, trends: seq<TrendMetric>, target: string, rows: seq<Row<P>>, r: Snapshot, s: Snapshot)
    requires Agrees(read, good) && Consistent(read, snapshots, trends) && IsSelection(snapshots, target, None, rows)
    requires forall row | row in rows :: read(row).Some?
    requires r in Contents(read, snapshots) && r.target == target
    requires Clock.UnixNano(s.collectedAt) < Clock.UnixNano(r.collectedAt)
    ensures rows != [] && Held(read, rows)[0] != s
  {
    FirstIsNewest(read, good, snapshots, trends, target, None, rows, r);
  }

  lemma OnlyRowsListed<P(!new)>(lib: Library<P>, snapshots: Table<P>, trends: seq<TrendMetric>, target: string, rows: seq<Row<P>>)
    requires Faithful(lib) && Consistent(Reader(lib), snapshots, trends)
    requires IsSelection(snapshots, target, None, rows) && KeepsOrder(Contents(Reader(lib), snapshots), target)
    requires forall row | row in rows :: Reader(lib)(row).Some?
    ensures forall listing | IsListing(Contents(Reader(lib), snapshots), target, listing) :: listing == Held(Reader(lib), rows)
  {
    NormalIdentifies(lib.hash);
    ReaderAgrees(lib);
    SelectionIsListing(Reader(lib), NormalOf(lib.hash), snapshots, trends, target, rows);
    OnlyListing(Contents(Reader(lib), snapshots), target, Held(Reader(lib), rows));
  }
}
