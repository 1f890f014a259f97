/**
  What the index collector reports, and what the redundant-index rule makes of it.  Columns and
  signature of an index are two texts of one key, and that is what rules out circular reports.
 */
module IndexCollector {
  import opened Lists
  import opened Signal
  import opened IndexSignature
  import opened RedundantIndex
  import Clock
  import Text

  // ---- one row of the catalogue ---------------------------------------------------------------

  /** COLUMN_NAME, or EXPRESSION where there is none, or neither. */
  datatype Column = Named(name: string) | Expression(text: string) | Unknown

  /** SUB_PART is a number or `full`, COLLATION a letter or `?`. */
  datatype KeyPart = KeyPart(column: Column, sub: string, coll: string)

  datatype IndexRow = IndexRow(schema: string, table: string, name: string, nonUnique: int, key: seq<KeyPart>, readCount: real)

  /** The column as the column list shows it. */
  function Shown(k: KeyPart): string {
    match k.column
    case Named(name) => name
    case Expression(text) => text
    case Unknown => "?"
  }

  /** The column as the signature shows it. */
  function Tagged(c: Column): string {
    match c
    case Named(name) => "col:" + name
    case Expression(text) => "expr:" + text
    case Unknown => "unknown:?"
  }

  function PartOf(k: KeyPart): Part {
    Part(Tagged(k.column), k.sub, k.coll)
  }

  /** GROUP_CONCAT(... SEPARATOR ',') */
  function Joined(names: seq<string>): string {
    if names == [] then "" else if |names| == 1 then names[0] else names[0] + ("," + Joined(names[1..]))
  }

  function Columns(key: seq<KeyPart>): string {
    Joined(Map(key, Shown))
  }

  function SignatureOf(key: seq<KeyPart>): string {
    Signature(Map(key, PartOf))
  }

  function TableId(row: IndexRow): string {
    row.schema + "." + row.table
  }

  function Id(row: IndexRow): string {
    TableId(row) + "." + row.name
  }

  /** A key has columns, and MySQL's prefix lengths and collations hold no separator. */
  ghost predicate ProperKey(key: seq<KeyPart>) {
    key != [] && forall i | 0 <= i < |key| :: WellFormed(PartOf(key[i]))
  }

  // ---- its observations -----------------------------------------------------------------------

  function About(row: IndexRow, key: string, number: Option<real>, text: Option<string>, boolean: Option<bool>, at: Clock.Time): Observation {
    Observation(key, Ref(INDEX_KIND, Id(row)), if number.Some? then "count" else "",
      if number.Some? then EXACTNESS_CUMULATIVE else "scraped", number, text, boolean, at, "metadata",
      if number.Some? then "performance_schema.table_io_waits_summary_by_index_usage" else "information_schema.statistics", "")
  }

  function ReadsOf(row: IndexRow, at: Clock.Time): seq<Observation> {
    [About(row, "mysql.index.reads", Some(row.readCount), None, None, at)]
  }

  /** The descriptions; `signed` is false where the signature is missing from them. */
  function TextsOf(row: IndexRow, signed: bool, at: Clock.Time): seq<Observation> {
    [About(row, "mysql.index.columns", None, Some(Columns(row.key)), None, at)] +
    (if signed then [About(row, "mysql.index.signature", None, Some(SignatureOf(row.key)), None, at)] else []) +
    [About(row, "mysql.index.table", None, Some(TableId(row)), None, at)]
  }

  function FlagsOf(row: IndexRow, at: Clock.Time): seq<Observation> {
    [About(row, "mysql.index.unique", None, None, Some(row.nonUnique == 0), at),
     About(row, "mysql.index.primary", None, None, Some(row.name == "PRIMARY"), at)]
  }

  function Emitted(row: IndexRow, signed: bool, at: Clock.Time): seq<Observation> {
    ReadsOf(row, at) + TextsOf(row, signed, at) + FlagsOf(row, at)
  }

  function Emitter(at: Clock.Time): IndexRow -> seq<Observation> {
    (row: IndexRow) => Emitted(row, true, at)
  }

  /** The row loop of the collector. */
  method Collect(rows: seq<IndexRow>, at: Clock.Time) returns (observations: seq<Observation>)
    ensures observations == FlatMap(rows, Emitter(at))
  {
    observations := Flatten(rows, Emitter(at));
  }

  /** The state that a row's observations add up to. */
  function StateOf(row: IndexRow, signed: bool): IndexState {
    IndexState(Ref(INDEX_KIND, Id(row)), Some(row.readCount), Some(row.name == "PRIMARY"), Some(row.nonUnique == 0),
      Some(TableId(row)), Some(Columns(row.key)), if signed then Some(SignatureOf(row.key)) else None)
  }

  lemma NextColumns(m: States, s: IndexState, o: Observation)
    requires o.obj == s.obj && o.obj.kind == INDEX_KIND && o.key == "mysql.index.columns" && o.text.Some?
    ensures Next(m[s.obj.id := s], o) == m[s.obj.id := s.(columns := o.text)]
  {
    assert m[s.obj.id := s][s.obj.id := Observe(s, o)] == m[s.obj.id := Observe(s, o)];
  }

  lemma NextSignature(m: States, s: IndexState, o: Observation)
    requires o.obj == s.obj && o.obj.kind == INDEX_KIND && o.key == "mysql.index.signature" && o.text.Some?
    ensures Next(m[s.obj.id := s], o) == m[s.obj.id := s.(signature := o.text)]
  {
    assert m[s.obj.id := s][s.obj.id := Observe(s, o)] == m[s.obj.id := Observe(s, o)];
  }

  lemma NextTable(m: States, s: IndexState, o: Observation)
    requires o.obj == s.obj && o.obj.kind == INDEX_KIND && o.key == "mysql.index.table" && o.text.Some?
    ensures Next(m[s.obj.id := s], o) == m[s.obj.id := s.(table := o.text)]
  {
    assert m[s.obj.id := s][s.obj.id := Observe(s, o)] == m[s.obj.id := Observe(s, o)];
  }

  lemma NextUnique(m: States, s: IndexState, o: Observation)
    requires o.obj == s.obj && o.obj.kind == INDEX_KIND && o.key == "mysql.index.unique" && o.boolean.Some?
    ensures Next(m[s.obj.id := s], o) == m[s.obj.id := s.(unique := o.boolean)]
  {
    assert m[s.obj.id := s][s.obj.id := Observe(s, o)] == m[s.obj.id := Observe(s, o)];
  }

  lemma NextPrimary(m: States, s: IndexState, o: Observation)
    requires o.obj == s.obj && o.obj.kind == INDEX_KIND && o.key == "mysql.index.primary" && o.boolean.Some?
    ensures Next(m[s.obj.id := s], o) == m[s.obj.id := s.(primary := o.boolean)]
  {
    assert m[s.obj.id := s][s.obj.id := Observe(s, o)] == m[s.obj.id := Observe(s, o)];
  }

  lemma AfterOne(m: States, o: Observation)
    ensures After(m, [o]) == Next(m, o)
  {
    assert [o][..0] == [];
  }

  lemma AfterPush(m: States, os: seq<Observation>, o: Observation)
    ensures After(m, os + [o]) == Next(After(m, os), o)
  {
    assert (os + [o])[..|os|] == os;
  }

  lemma AfterReads(m: States, row: IndexRow, at: Clock.Time)
    requires Id(row) !in m
    ensures After(m, ReadsOf(row, at)) == m[Id(row) := Blank(Id(row)).(readCount := Some(row.readCount))]
  {
    AfterOne(m, ReadsOf(row, at)[0]);
  }

  lemma AfterTexts(m: States, s: IndexState, row: IndexRow, signed: bool, at: Clock.Time)
    requires s.obj == Ref(INDEX_KIND, Id(row))
    ensures After(m[Id(row) := s], TextsOf(row, signed, at)) ==
      m[Id(row) := s.(columns := Some(Columns(row.key)),
        signature := if signed then Some(SignatureOf(row.key)) else s.signature, table := Some(TableId(row)))]
  {
    var before, os := m[Id(row) := s], TextsOf(row, signed, at);
    AfterOne(before, os[0]);
    NextColumns(m, s, os[0]);
    var t := s.(columns := os[0].text);
    if signed {
      AfterPush(before, [os[0]], os[1]);
      NextSignature(m, t, os[1]);
      t := t.(signature := os[1].text);
      assert os[..|os| - 1] == [os[0]] + [os[1]];
    } else {
      assert os[..|os| - 1] == [os[0]];
    }
    AfterPush(before, os[..|os| - 1], os[|os| - 1]);
    NextTable(m, t, os[|os| - 1]);
    assert os == os[..|os| - 1] + [os[|os| - 1]];
  }

  lemma AfterFlags(m: States, s: IndexState, row: IndexRow, at: Clock.Time)
    requires s.obj == Ref(INDEX_KIND, Id(row))
    ensures After(m[Id(row) := s], FlagsOf(row, at)) ==
      m[Id(row) := s.(unique := Some(row.nonUnique == 0), primary := Some(row.name == "PRIMARY"))]
  {
    var os := FlagsOf(row, at);
    AfterOne(m[Id(row) := s], os[0]);
    NextUnique(m, s, os[0]);
    AfterPush(m[Id(row) := s], [os[0]], os[1]);
    NextPrimary(m, s.(unique := os[0].boolean), os[1]);
    assert os == [os[0]] + [os[1]];
  }

  /** A row's observations add up to its state. */
  lemma AddsUp(m: States, row: IndexRow, signed: bool, at: Clock.Time)
    requires Id(row) !in m
    ensures After(m, Emitted(row, signed, at)) == m[Id(row) := StateOf(row, signed)]
  {
    var s := Blank(Id(row)).(readCount := Some(row.readCount));
    AfterReads(m, row, at);
    AfterTexts(m, s, row, signed, at);
    var t := s.(columns := Some(Columns(row.key)),
      signature := if signed then Some(SignatureOf(row.key)) else None, table := Some(TableId(row)));
    AfterFlags(m, t, row, at);
    AfterAppend(m, ReadsOf(row, at), TextsOf(row, signed, at));
    AfterAppend(m, ReadsOf(row, at) + TextsOf(row, signed, at), FlagsOf(row, at));
  }

  // ---- a whole catalogue ----------------------------------------------------------------------

  /** A row, and whether its signature is among its observations. */
  datatype Entry = Entry(row: IndexRow, signed: bool)

  function EntryId(e: Entry): string {
    Id(e.row)
  }

  function EntryState(e: Entry): IndexState {
    StateOf(e.row, e.signed)
  }

  ghost predicate Distinct(entries: seq<Entry>) {
    forall i, j | 0 <= i < j < |entries| :: EntryId(entries[i]) != EntryId(entries[j])
  }

  function EntryEmitter(at: Clock.Time): Entry -> seq<Observation> {
    (e: Entry) => Emitted(e.row, e.signed, at)
  }

  function Observations(entries: seq<Entry>, at: Clock.Time): seq<Observation> {
    FlatMap(entries, EntryEmitter(at))
  }

  ghost predicate Holds(m: States, entries: seq<Entry>) {
    && (forall id | id in m :: exists i :: 0 <= i < |entries| && EntryId(entries[i]) == id)
    && (forall i | 0 <= i < |entries| :: EntryId(entries[i]) in m && m[EntryId(entries[i])] == EntryState(entries[i]))
  }

  ghost function StatesUpTo(entries: seq<Entry>, at: Clock.Time, n: nat): States
    requires n <= |entries|
  {
    After(map[], Observations(entries[..n], at))
  }

  lemma NextEntry(entries: seq<Entry>, at: Clock.Time, k: nat)
    requires k < |entries| && EntryId(entries[k]) !in StatesUpTo(entries, at, k)
    ensures StatesUpTo(entries, at, k + 1) == StatesUpTo(entries, at, k)[EntryId(entries[k]) := EntryState(entries[k])]
  {
    assert entries[..k + 1][..k] == entries[..k];
    OneMoreEntry(entries[..k + 1], at);
  }

  lemma NoEntries(entries: seq<Entry>, at: Clock.Time)
    ensures StatesUpTo(entries, at, 0) == map[]
  {
    assert entries[..0] == [] && Observations([], at) == [];
  }

  lemma HoldsAll(entries: seq<Entry>, at: Clock.Time)
    requires Distinct(entries)
    ensures Holds(StatesUpTo(entries, at, |entries|), entries)
  {
    var m := (n: nat) => if n <= |entries| then StatesUpTo(entries, at, n) else map[];
    NoEntries(entries, at);
    forall k: nat | k < |entries| && EntryId(entries[k]) !in m(k)
      ensures m(k + 1) == m(k)[EntryId(entries[k]) := EntryState(entries[k])]
    {
      NextEntry(entries, at, k);
    }
    GrownMap(entries, EntryId, EntryState, m, |entries|);
  }

  /** The rule sees one state for each row, made of the row's texts and flags. */
  lemma CatalogueStates(entries: seq<Entry>, at: Clock.Time)
    requires Distinct(entries)
    ensures Holds(After(map[], Observations(entries, at)), entries)
    ensures AreStatesOf(After(map[], Observations(entries, at)), Observations(entries, at))
  {
    AfterIsStates(Observations(entries, at));
    HoldsAll(entries, at);
    assert entries[..|entries|] == entries;
  }

  lemma OneMoreEntry(entries: seq<Entry>, at: Clock.Time)
    requires entries != []
    requires Id(entries[|entries| - 1].row) !in After(map[], Observations(entries[..|entries| - 1], at))
    ensures var last := entries[|entries| - 1];
      After(map[], Observations(entries, at)) ==
        After(map[], Observations(entries[..|entries| - 1], at))[Id(last.row) := StateOf(last.row, last.signed)]
  {
    var last := entries[|entries| - 1];
    var before := Observations(entries[..|entries| - 1], at);
    AddsUp(After(map[], before), last.row, last.signed, at);
    AfterAppend(map[], before, Emitted(last.row, last.signed, at));
  }

  // ---- both texts of a key --------------------------------------------------------------------

  lemma TaggedInjective(c: Column, d: Column)
    ensures Tagged(c) == Tagged(d) <==> c == d
  {
    if Tagged(c) == Tagged(d) {
      assert Tagged(c)[0] == Tagged(d)[0];
      match c
      case Named(name) => Text.Cut("col:", name, "col:", d.name);
      case Expression(text) => Text.Cut("expr:", text, "expr:", d.text);
      case Unknown =>
    }
  }

  /** The parts of a signature show the key exactly. */
  lemma PartsShowKey(a: seq<KeyPart>, b: seq<KeyPart>)
    ensures Map(a, PartOf) <= Map(b, PartOf) <==> a <= b
  {
    if Map(a, PartOf) <= Map(b, PartOf) {
      forall i | 0 <= i < |a| ensures a[i] == b[i] {
        assert Map(a, PartOf)[i] == Map(b, PartOf)[i];
        TaggedInjective(a[i].column, b[i].column);
      }
    }
  }

  lemma {:induction false} JoinedChain(a: seq<string>, c: seq<string>)
    requires a != [] && c != []
    ensures Joined(a + c) == Joined(a) + ("," + Joined(c))
  {
    assert (a + c)[0] == a[0] && (a + c)[1..] == a[1..] + c;
    if |a| == 1 {
      assert a[1..] + c == c;
    } else {
      JoinedChain(a[1..], c);
      Text.Regroup(",", Joined(a[1..]), "," + Joined(c));
      Text.Regroup(a[0], "," + Joined(a[1..]), "," + Joined(c));
    }
  }

  lemma JoinedOfPrefix(a: seq<string>, b: seq<string>)
    requires a != [] && |a| < |b| && a <= b
    ensures TextExtends(Joined(a), Joined(b), ",")
  {
    var rest := b[|a|..];
    assert b == a + rest;
    JoinedChain(a, rest);
    assert Joined(a) + "," <= Joined(a) + ("," + Joined(rest));
  }

  ghost predicate NoCommas(names: seq<string>) {
    forall i | 0 <= i < |names| :: ',' !in names[i]
  }

  lemma CommaFirst(a: string, t: string, b: string, u: string)
    requires ',' !in a && ',' !in b && a + ("," + t) == b + ("," + u)
    ensures a == b && t == u
  {
    assert a + [','] + t == a + ("," + t) && b + [','] + u == b + ("," + u);
    Text.SplitFirst(a, t, b, u, ',');
  }

  lemma HasComma(a: string, t: string)
    ensures ',' in a + ("," + t)
  {
    assert (a + ("," + t))[|a|] == ',';
  }

  /** The first name and what follows its comma. */
  lemma PeelName(a: string, t: string, b: seq<string>)
    requires ',' !in a && b != [] && NoCommas(b) && Joined(b) == a + ("," + t)
    ensures |b| > 1 && b[0] == a && Joined(b[1..]) == t
  {
    HasComma(a, t);
    if |b| > 1 {
      CommaFirst(a, t, b[0], Joined(b[1..]));
    }
  }

  lemma {:induction false} JoinedMeansPrefix(a: seq<string>, b: seq<string>, t: string)
    requires a != [] && b != [] && NoCommas(a) && NoCommas(b) && Joined(b) == Joined(a) + ("," + t)
    ensures |a| < |b| && a <= b
  {
    if |a| == 1 {
      PeelName(a[0], t, b);
    } else {
      var rest := Joined(a[1..]) + ("," + t);
      Text.Regroup(a[0], "," + Joined(a[1..]), "," + t);
      Text.Regroup(",", Joined(a[1..]), "," + t);
      PeelName(a[0], rest, b);
      JoinedMeansPrefix(a[1..], b[1..], t);
      assert a == [a[0]] + a[1..] && b == [b[0]] + b[1..];
    }
  }

  lemma TextRest(short: string, long: string) returns (t: string)
    requires TextExtends(short, long, ",")
    ensures long == short + ("," + t)
  {
    t := long[|short| + 1..];
    assert long == (short + ",") + t;
    Text.Regroup(short, ",", t);
  }

  /** On names without commas the test on column lists is exact, too. */
  lemma ColumnTestIsExact(a: seq<string>, b: seq<string>)
    requires a != [] && b != [] && NoCommas(a) && NoCommas(b)
    ensures TextExtends(Joined(a), Joined(b), ",") <==> |a| < |b| && a <= b
  {
    if TextExtends(Joined(a), Joined(b), ",") {
      var t := TextRest(Joined(a), Joined(b));
      JoinedMeansPrefix(a, b, t);
    }
    if |a| < |b| && a <= b {
      JoinedOfPrefix(a, b);
    }
  }

  /** Whichever text the rule compares, a reason extends the column list. */
  lemma ReasonExtendsKey(a: seq<KeyPart>, b: seq<KeyPart>)
    requires ProperKey(a) && ProperKey(b) && TextExtends(SignatureOf(a), SignatureOf(b), ";")
    ensures |a| < |b| && a <= b
    ensures TextExtends(Columns(a), Columns(b), ",")
  {
    PrefixTestIsExact(Map(a, PartOf), Map(b, PartOf));
    PartsShowKey(a, b);
    assert Map(a, Shown) <= Map(b, Shown);
    JoinedOfPrefix(Map(a, Shown), Map(b, Shown));
  }

  // ---- what the reports lead to ---------------------------------------------------------------

  /** m is what the rule sees of a catalogue, some of whose signatures may be missing. */
  ghost predicate Catalogue(m: States, entries: seq<Entry>) {
    Distinct(entries) && Holds(m, entries) && forall i | 0 <= i < |entries| :: ProperKey(entries[i].row.key)
  }

  lemma ReasonExtends(m: States, entries: seq<Entry>, x: string, y: string)
    requires Catalogue(m, entries) && Reason(m, x, y)
    ensures TextExtends(m[x].columns.value, m[y].columns.value, ",")
  {
    var i :| 0 <= i < |entries| && EntryId(entries[i]) == x;
    var j :| 0 <= j < |entries| && EntryId(entries[j]) == y;
    assert m[x] == EntryState(entries[i]) && m[y] == EntryState(entries[j]);
    if entries[i].signed && entries[j].signed {
      ReasonExtendsKey(entries[i].row.key, entries[j].row.key);
    }
  }

  /** Each index on the path is a reason to report the one before it. */
  ghost predicate Leads(m: States, path: seq<string>) {
    |path| > 0 && forall i | 0 <= i < |path| - 1 :: Reason(m, path[i], path[i + 1])
  }

  lemma LeadsStep(m: States, path: seq<string>)
    requires Leads(m, path) && |path| > 1
    ensures var n := |path| - 1;
      Reason(m, path[n - 1], path[n]) && Leads(m, path[..n]) && path[..n][0] == path[0] && path[..n][n - 1] == path[n - 1]
  {
    var n := |path| - 1;
    assert Reason(m, path[n - 1], path[n - 1 + 1]);
  }

  lemma {:induction false} PathExtends(m: States, entries: seq<Entry>, path: seq<string>)
    requires Catalogue(m, entries) && Leads(m, path) && |path| > 1
    ensures path[0] in m && path[|path| - 1] in m && Plain(m[path[0]]) && Plain(m[path[|path| - 1]])
    ensures m[path[0]].table == m[path[|path| - 1]].table
    ensures TextExtends(m[path[0]].columns.value, m[path[|path| - 1]].columns.value, ",")
  {
    var n := |path| - 1;
    LeadsStep(m, path);
    ReasonExtends(m, entries, path[n - 1], path[n]);
    if n > 1 {
      PathExtends(m, entries, path[..n]);
      ExtendsTransitive(m[path[0]].columns.value, m[path[n - 1]].columns.value, m[path[n]].columns.value, ",");
    }
  }

  /** No index is, through any number of others, a reason for itself. */
  lemma NoCircle(m: States, entries: seq<Entry>, path: seq<string>)
    requires Catalogue(m, entries) && Leads(m, path) && |path| > 1
    ensures path[0] != path[|path| - 1]
  {
    PathExtends(m, entries, path);
  }

  ghost function Longer(m: States, x: string): set<string>
    requires x in m && Plain(m[x])
  {
    set y | y in m && Plain(m[y]) && |m[y].columns.value| > |m[x].columns.value|
  }

  lemma LongerShrinks(m: States, x: string, y: string)
    requires x in m && y in m && Plain(m[x]) && Plain(m[y]) && |m[x].columns.value| < |m[y].columns.value|
    ensures Longer(m, y) < Longer(m, x)
  {
    assert y in Longer(m, x) - Longer(m, y);
  }

  lemma Step(m: States, entries: seq<Entry>, x: string) returns (y: string)
    requires Catalogue(m, entries) && Flagged(m, x)
    ensures Reason(m, x, y) && Longer(m, y) < Longer(m, x)
  {
    y :| y in m.Keys && Reason(m, x, y);
    ReasonExtends(m, entries, x, y);
    LongerShrinks(m, x, y);
  }

  lemma LeadsOneMore(m: States, x: string, rest: seq<string>)
    requires Leads(m, rest) && Reason(m, x, rest[0])
    ensures Leads(m, [x] + rest)
  {
    var path := [x] + rest;
    forall i | 0 <= i < |path| - 1 ensures Reason(m, path[i], path[i + 1]) {
      assert i == 0 || path[i] == rest[i - 1];
    }
  }

  lemma {:induction false} PathToUnreported(m: States, entries: seq<Entry>, x: string) returns (path: seq<string>)
    requires Catalogue(m, entries) && Flagged(m, x)
    ensures Leads(m, path) && |path| > 1 && path[0] == x && !Flagged(m, path[|path| - 1])
    decreases Longer(m, x)
  {
    var y := Step(m, entries, x);
    var rest := [y];
    if Flagged(m, y) {
      rest := PathToUnreported(m, entries, y);
    }
    LeadsOneMore(m, x, rest);
    path := [x] + rest;
  }

  /** From every reported index the reasons lead to one of the same table that is not reported and whose
      column list extends its own, however the signatures are distributed. */
  lemma ReachesUnreported(m: States, entries: seq<Entry>, x: string) returns (path: seq<string>)
    requires Catalogue(m, entries) && Flagged(m, x)
    ensures Leads(m, path) && |path| > 1 && path[0] == x && !Flagged(m, path[|path| - 1])
    ensures var y := path[|path| - 1];
      && y in m && Plain(m[y]) && m[x].table == m[y].table
      && TextExtends(m[x].columns.value, m[y].columns.value, ",")
  {
    path := PathToUnreported(m, entries, x);
    PathExtends(m, entries, path);
  }

  /** And with names free of commas, that means a longer list of the same columns. */
  lemma UnreportedExtendsColumns(m: States, entries: seq<Entry>, i: nat) returns (j: nat)
    requires Catalogue(m, entries) && i < |entries| && Flagged(m, EntryId(entries[i]))
    requires forall k | 0 <= k < |entries| :: NoCommas(Map(entries[k].row.key, Shown))
    ensures j < |entries| && !Flagged(m, EntryId(entries[j]))
    ensures TableId(entries[i].row) == TableId(entries[j].row)
    ensures |entries[i].row.key| < |entries[j].row.key|
    ensures Map(entries[i].row.key, Shown) <= Map(entries[j].row.key, Shown)
  {
    var path := ReachesUnreported(m, entries, EntryId(entries[i]));
    var y := path[|path| - 1];
    j :| 0 <= j < |entries| && EntryId(entries[j]) == y;
    assert m[y] == EntryState(entries[j]);
    ColumnTestIsExact(Map(entries[i].row.key, Shown), Map(entries[j].row.key, Shown));
  }

  // ---- the collector's own observations -------------------------------------------------------

  function SignedEntry(row: IndexRow): Entry {
    Entry(row, true)
  }

  lemma AllSigned(rows: seq<IndexRow>, at: Clock.Time) returns (entries: seq<Entry>)
    ensures |entries| == |rows| && forall k | 0 <= k < |rows| :: entries[k] == Entry(rows[k], true)
    ensures Observations(entries, at) == FlatMap(rows, Emitter(at))
  {
    entries := Map(rows, SignedEntry);
    FlatMapOfMap(rows, SignedEntry, EntryEmitter(at), Emitter(at));
  }

  /** Ids are distinct and keys as MySQL has them. */
  ghost predicate ProperRows(rows: seq<IndexRow>) {
    && (forall i, j | 0 <= i < j < |rows| :: Id(rows[i]) != Id(rows[j]))
    && (forall i | 0 <= i < |rows| :: ProperKey(rows[i].key))
  }

  /** What the rule sees of the rows the collector read. */
  function Collected(rows: seq<IndexRow>, at: Clock.Time): States {
    After(map[], FlatMap(rows, Emitter(at)))
  }

  lemma CollectedStates(rows: seq<IndexRow>, at: Clock.Time) returns (entries: seq<Entry>)
    requires ProperRows(rows)
    ensures |entries| == |rows| && forall k | 0 <= k < |rows| :: entries[k] == Entry(rows[k], true)
    ensures Catalogue(Collected(rows, at), entries)
  {
    entries := AllSigned(rows, at);
    CatalogueStates(entries, at);
  }

  lemma AllSignedIsUniform(m: States, entries: seq<Entry>, table: string)
    requires Holds(m, entries) && forall i | 0 <= i < |entries| :: entries[i].signed
    ensures Uniform(m, table)
  {
    forall id | id in PlainOn(m, table) ensures id in Signed(m, table) {
      var i :| 0 <= i < |entries| && EntryId(entries[i]) == id;
    }
  }

  /** Between two signed rows a reason is a key that begins with the other. */
  lemma ReasonIsKeyPrefix(m: States, entries: seq<Entry>, i: nat, j: nat)
    requires Catalogue(m, entries) && i < |entries| && j < |entries| && entries[i].signed && entries[j].signed
    requires Reason(m, EntryId(entries[i]), EntryId(entries[j]))
    ensures TableId(entries[i].row) == TableId(entries[j].row)
    ensures |entries[i].row.key| < |entries[j].row.key| && entries[i].row.key <= entries[j].row.key
  {
    assert m[EntryId(entries[i])] == EntryState(entries[i]) && m[EntryId(entries[j])] == EntryState(entries[j]);
    ReasonExtendsKey(entries[i].row.key, entries[j].row.key);
  }

  lemma FindEntry(m: States, entries: seq<Entry>, id: string) returns (j: nat)
    requires Holds(m, entries) && id in m
    ensures j < |entries| && EntryId(entries[j]) == id
  {
    j :| 0 <= j < |entries| && EntryId(entries[j]) == id;
  }

  lemma UniformReport(m: States, x: string) returns (z: string)
    requires Flagged(m, x) && x in m && m[x].table.Some? && Uniform(m, m[x].table.value)
    ensures Reason(m, x, z) && !Flagged(m, z)
  {
    var y :| y in m.Keys && Reason(m, x, y);
    UniformIsSafe(m, x, y);
    z :| Reason(m, x, z) && !Flagged(m, z);
  }

  lemma SignedReportsAreSafe(m: States, entries: seq<Entry>, i: nat) returns (j: nat)
    requires Catalogue(m, entries) && forall k | 0 <= k < |entries| :: entries[k].signed
    requires i < |entries| && Flagged(m, EntryId(entries[i]))
    ensures j < |entries| && !Flagged(m, EntryId(entries[j]))
    ensures TableId(entries[i].row) == TableId(entries[j].row)
    ensures |entries[i].row.key| < |entries[j].row.key| && entries[i].row.key <= entries[j].row.key
  {
    var x := EntryId(entries[i]);
    AllSignedIsUniform(m, entries, m[x].table.value);
    var z := UniformReport(m, x);
    j := FindEntry(m, entries, z);
    ReasonIsKeyPrefix(m, entries, i, j);
  }

  /** On what the collector reports, every index the rule names has an index on the same table that is not
      named and whose key begins with its whole key, columns, prefix lengths and collations alike. */
  lemma CollectorReportsAreSafe(rows: seq<IndexRow>, at: Clock.Time, i: nat) returns (j: nat)
    requires ProperRows(rows) && i < |rows| && Flagged(Collected(rows, at), Id(rows[i]))
    ensures j < |rows| && !Flagged(Collected(rows, at), Id(rows[j]))
    ensures TableId(rows[i]) == TableId(rows[j])
    ensures |rows[i].key| < |rows[j].key| && rows[i].key <= rows[j].key
  {
    var entries := CollectedStates(rows, at);
    j := SignedReportsAreSafe(Collected(rows, at), entries, i);
  }

  /** Unique indexes and primary keys are neither reported nor a reason. */
  lemma OnlyOrdinaryRows(rows: seq<IndexRow>, at: Clock.Time, i: nat, j: nat)
    requires ProperRows(rows) && i < |rows| && j < |rows| && Reason(Collected(rows, at), Id(rows[i]), Id(rows[j]))
    ensures rows[i].nonUnique != 0 && rows[i].name != "PRIMARY"
    ensures rows[j].nonUnique != 0 && rows[j].name != "PRIMARY"
  {
    var entries := CollectedStates(rows, at);
    OrdinaryEntries(Collected(rows, at), entries, i, j);
  }

  lemma OrdinaryEntries(m: States, entries: seq<Entry>, i: nat, j: nat)
    requires Holds(m, entries) && i < |entries| && j < |entries| && Reason(m, EntryId(entries[i]), EntryId(entries[j]))
    ensures entries[i].row.nonUnique != 0 && entries[i].row.name != "PRIMARY"
    ensures entries[j].row.nonUnique != 0 && entries[j].row.name != "PRIMARY"
  {
    assert m[EntryId(entries[i])] == EntryState(entries[i]) && m[EntryId(entries[j])] == EntryState(entries[j]);
  }

  // ---- catalogues with missing signatures -----------------------------------------------------

  function Whole(name: string): KeyPart {
    KeyPart(Named(name), "full", "A")
  }

  const ON_PREFIX := [KeyPart(Named("c"), "10", "A")]
  const ON_TWO := [Whole("c"), Whole("d")]
  const ON_THREE := [Whole("c"), Whole("d"), Whole("e")]
  const ELSEWHERE := [Whole("q")]

  lemma WitnessTexts()
    ensures Columns(ON_PREFIX) == "c" && Columns(ON_TWO) == "c,d" && Columns(ON_THREE) == "c,d,e" && Columns(ELSEWHERE) == "q"
    ensures TextExtends("c", "c,d", ",") && TextExtends("c,d", "c,d,e", ",")
    ensures ProperKey(ON_PREFIX) && ProperKey(ON_TWO) && ProperKey(ON_THREE) && ProperKey(ELSEWHERE)
  {
    assert Map(ON_PREFIX, Shown) == ["c"] && Map(ELSEWHERE, Shown) == ["q"];
    assert Map(ON_TWO, Shown) == ["c", "d"] && Map(ON_THREE, Shown) == ["c", "d", "e"];
    assert ["c", "d"][1..] == ["d"] && ["c", "d", "e"][1..] == ["d", "e"] && ["d", "e"][1..] == ["e"];
    assert "c" + "," == "c,d"[..2] && "c,d" + "," == "c,d,e"[..4];
  }

  lemma PrefixIsNotExtended()
    ensures !TextExtends(SignatureOf(ON_PREFIX), SignatureOf(ON_THREE), ";")
    ensures !TextExtends(SignatureOf(ON_PREFIX), SignatureOf(ELSEWHERE), ";")
  {
    WitnessTexts();
    if TextExtends(SignatureOf(ON_PREFIX), SignatureOf(ON_THREE), ";") {
      ReasonExtendsKey(ON_PREFIX, ON_THREE);
    }
    if TextExtends(SignatureOf(ON_PREFIX), SignatureOf(ELSEWHERE), ";") {
      ReasonExtendsKey(ON_PREFIX, ELSEWHERE);
    }
  }

  /** The key of each index in the witness: a prefix of column c on one signed index, c and d on an unsigned
      one, c, d and e on another signed one, another column on the rest. */
  function WitnessKey(id: string, a: string, b: string, c: string): seq<KeyPart> {
    if id == a then ON_PREFIX else if id == b then ON_THREE else if id == c then ON_TWO else ELSEWHERE
  }

  /** Ids of non-primary indexes of a table. */
  ghost predicate OfTable(ids: set<string>, schema: string, table: string) {
    forall id | id in ids :: IdIn(id, schema, table) && id != schema + "." + table + "." + "PRIMARY"
  }

  predicate IdIn(id: string, schema: string, table: string) {
    schema + "." + table + "." <= id
  }

  function WitnessEntry(schema: string, table: string, id: string, key: seq<KeyPart>, signed: bool): Entry
    requires IdIn(id, schema, table)
  {
    Entry(IndexRow(schema, table, id[|schema| + 1 + |table| + 1..], 1, key, 0.0), signed)
  }

  lemma WitnessId(schema: string, table: string, id: string, key: seq<KeyPart>, signed: bool)
    requires IdIn(id, schema, table)
    ensures EntryId(WitnessEntry(schema, table, id, key, signed)) == id
  {
  }

  lemma {:induction false} Enumerated(ids: set<string>) returns (xs: seq<string>)
    ensures forall x :: x in xs <==> x in ids
    ensures forall i, j | 0 <= i < j < |xs| :: xs[i] != xs[j]
  {
    xs := [];
    if ids != {} {
      var x :| x in ids;
      var rest := Enumerated(ids - {x});
      xs := rest + [x];
    }
  }

  lemma EntriesFor(ids: set<string>, entryOf: string -> Entry) returns (entries: seq<Entry>)
    requires forall id | id in ids :: EntryId(entryOf(id)) == id && ProperKey(entryOf(id).row.key)
    ensures Distinct(entries) && forall i | 0 <= i < |entries| :: ProperKey(entries[i].row.key)
    ensures forall i | 0 <= i < |entries| :: EntryId(entries[i]) in ids && entries[i] == entryOf(EntryId(entries[i]))
    ensures forall id | id in ids :: exists i :: 0 <= i < |entries| && EntryId(entries[i]) == id
  {
    var xs := Enumerated(ids);
    entries := Map(xs, entryOf);
    forall i | 0 <= i < |xs| ensures EntryId(entries[i]) == xs[i] && xs[i] in ids {
      assert xs[i] in xs;
    }
    forall id | id in ids ensures exists i :: 0 <= i < |entries| && EntryId(entries[i]) == id {
      var i :| 0 <= i < |xs| && xs[i] == id;
      assert EntryId(entries[i]) == id;
    }
  }

  lemma SeenAs(entries: seq<Entry>, at: Clock.Time) returns (m: States)
    requires Distinct(entries) && forall i | 0 <= i < |entries| :: ProperKey(entries[i].row.key)
    ensures m == After(map[], Observations(entries, at)) && Catalogue(m, entries)
  {
    m := After(map[], Observations(entries, at));
    CatalogueStates(entries, at);
  }

  /** Any set of indexes is a catalogue that the rule can come to see. */
  lemma BuildCatalogue(ids: set<string>, entryOf: string -> Entry, at: Clock.Time) returns (m: States, entries: seq<Entry>)
    requires forall id | id in ids :: EntryId(entryOf(id)) == id && ProperKey(entryOf(id).row.key)
    ensures m == After(map[], Observations(entries, at)) && Catalogue(m, entries)
    ensures forall id :: id in m <==> id in ids
    ensures forall id | id in ids :: m[id] == EntryState(entryOf(id))
  {
    entries := EntriesFor(ids, entryOf);
    m := SeenAs(entries, at);
    HoldsFor(m, entries, ids, entryOf);
  }

  lemma HoldsFor(m: States, entries: seq<Entry>, ids: set<string>, entryOf: string -> Entry)
    requires Holds(m, entries)
    requires forall i | 0 <= i < |entries| :: EntryId(entries[i]) in ids && entries[i] == entryOf(EntryId(entries[i]))
    requires forall id | id in ids :: exists i :: 0 <= i < |entries| && EntryId(entries[i]) == id
    ensures forall id :: id in m <==> id in ids
    ensures forall id | id in ids :: m[id] == EntryState(entryOf(id))
  {
    forall id | id in ids ensures id in m && m[id] == EntryState(entryOf(id)) {
      var i :| 0 <= i < |entries| && EntryId(entries[i]) == id;
      assert m[EntryId(entries[i])] == EntryState(entries[i]);
    }
  }

  // ---- when reports are safe to act on, one by one --------------------------------------------

  function WitnessEntries(schema: string, table: string, a: string, b: string, c: string, signed: set<string>): string -> Entry {
    (id: string) =>
      if IdIn(id, schema, table) then WitnessEntry(schema, table, id, WitnessKey(id, a, b, c), id in signed)
      else Entry(IndexRow(schema, table, id, 1, ELSEWHERE, 0.0), false)
  }

  ghost predicate Witness(m: States, ids: set<string>, table: string, a: string, b: string, c: string, signed: set<string>) {
    && (forall id :: id in m <==> id in ids)
    && forall id | id in ids ::
         && m[id].table == Some(table) && m[id].primary == Some(false) && m[id].unique == Some(false)
         && m[id].columns == Some(Columns(WitnessKey(id, a, b, c)))
         && m[id].signature == if id in signed then Some(SignatureOf(WitnessKey(id, a, b, c))) else None
  }

  lemma WitnessExists(ids: set<string>, schema: string, table: string, a: string, b: string, c: string, signed: set<string>, at: Clock.Time)
    returns (m: States, entries: seq<Entry>)
    requires OfTable(ids, schema, table)
    ensures m == After(map[], Observations(entries, at)) && Catalogue(m, entries)
    ensures Witness(m, ids, schema + "." + table, a, b, c, signed)
  {
    var entryOf := WitnessEntries(schema, table, a, b, c, signed);
    WitnessTexts();
    forall id | id in ids ensures EntryId(entryOf(id)) == id && ProperKey(entryOf(id).row.key) {
      WitnessId(schema, table, id, WitnessKey(id, a, b, c), id in signed);
    }
    m, entries := BuildCatalogue(ids, entryOf, at);
    forall id | id in ids ensures entryOf(id).row.name != "PRIMARY" {
      WitnessId(schema, table, id, WitnessKey(id, a, b, c), id in signed);
    }
  }

  lemma WitnessIsPlain(m: States, ids: set<string>, table: string, a: string, b: string, c: string, signed: set<string>)
    requires Witness(m, ids, table, a, b, c, signed) && signed <= ids
    ensures PlainOn(m, table) == ids && Signed(m, table) == signed
  {
  }

  /** In the witness a is reported because of c only, and c because of b. */
  lemma WitnessReasons(m: States, ids: set<string>, table: string, a: string, b: string, c: string, signed: set<string>)
    requires Witness(m, ids, table, a, b, c, signed) && signed <= ids && table != ""
    requires a in signed && b in signed && a != b && c in ids && c !in signed
    ensures Reason(m, a, c) && Reason(m, c, b)
    ensures forall y | Reason(m, a, y) :: y == c
  {
    WitnessTexts();
    PrefixIsNotExtended();
    forall y | Reason(m, a, y) ensures y == c {
      assert y in ids && m[y].columns == Some(Columns(WitnessKey(y, a, b, c)));
    }
  }

  /** Where some but not all indexes of a table are signed, two of them at least, the rule may name an index
      whose only reason is itself named. */
  lemma MixedIsUnsafe(ids: set<string>, signed: set<string>, schema: string, table: string, at: Clock.Time)
    returns (m: States, entries: seq<Entry>, x: string)
    requires OfTable(ids, schema, table) && signed < ids && |signed| >= 2
    ensures m == After(map[], Observations(entries, at)) && Catalogue(m, entries)
    ensures PlainOn(m, schema + "." + table) == ids && Signed(m, schema + "." + table) == signed
    ensures x in ids && Flagged(m, x) && !Covered(m, x)
  {
    var a :| a in signed;
    assert |signed - {a}| >= 1;
    var b :| b in signed - {a};
    assert exists c :: c in ids && c !in signed;
    var c :| c in ids && c !in signed;
    m, entries := WitnessExists(ids, schema, table, a, b, c, signed, at);
    WitnessIsPlain(m, ids, schema + "." + table, a, b, c, signed);
    WitnessReasons(m, ids, schema + "." + table, a, b, c, signed);
    x := a;
  }

  /** What the rule can come to see of a table whose plain indexes are `ids`, of which `signed` are signed. */
  ghost predicate Visible(m: States, entries: seq<Entry>, table: string, ids: set<string>, signed: set<string>, at: Clock.Time) {
    && m == After(map[], Observations(entries, at)) && Catalogue(m, entries)
    && PlainOn(m, table) == ids && Signed(m, table) == signed
  }

  /** Every index the rule names has a reason that is not itself named, whatever the keys, exactly when all
      plain indexes of the table are signed or at most one is. */
  lemma CoveredIffUniform(ids: set<string>, signed: set<string>, schema: string, table: string, at: Clock.Time)
    requires OfTable(ids, schema, table) && signed <= ids
    ensures (signed == ids || |signed| <= 1) <==>
      forall m: States, entries, x |
        Visible(m, entries, schema + "." + table, ids, signed, at) && x in ids && Flagged(m, x) :: Covered(m, x)
  {
    if signed == ids || |signed| <= 1 {
      forall m: States, entries, x |
        Visible(m, entries, schema + "." + table, ids, signed, at) && x in ids && Flagged(m, x)
        ensures Covered(m, x)
      {
        var z := UniformReport(m, x);
      }
    } else {
      var m, entries, x := MixedIsUnsafe(ids, signed, schema, table, at);
      assert Visible(m, entries, schema + "." + table, ids, signed, at);
    }
  }
}
