/**
  The canonical byte stream behind the schema fingerprint.  A byte is a char, a byte string a
  string; the hash is a function parameter.
 */
module SchemaFingerprint {
  import opened Lists
  import opened Ordering
  import Text
  import Sorting

  const MAX_FIELD_BYTES := 0x10_0000
  const MAX_RECORD_BYTES := 0x40_0000
  const MAX_ROWS_PER_GROUP := 100000
  const MAX_TOTAL_BYTES := 0x400_0000
  const TWO_32 := 0x1_0000_0000

  // ---- encoding -------------------------------------------------------------------------------

  function Byte(n: int): char {
    (n % 256) as char
  }

  /** binary.BigEndian.PutUint32 of uint32(n). */
  function BE32(n: nat): (s: string)
    ensures |s| == 4
  {
    var high := n / 256;
    [Byte(high / 256 / 256), Byte(high / 256), Byte(high), Byte(n)]
  }

  function LengthPrefixed(v: string): string {
    BE32(|v|) + v
  }

  /** One row of one metadata group. */
  datatype Record = Record(kind: string, fields: seq<string>)

  /** Every element behind its length: the fields of a record, and the records of the stream. */
  function Chain(fields: seq<string>): string {
    if fields == [] then "" else Chain(fields[..|fields| - 1]) + LengthPrefixed(fields[|fields| - 1])
  }

  function Encode(r: Record): string {
    LengthPrefixed(r.kind) + BE32(|r.fields|) + Chain(r.fields)
  }

  lemma ByteInjective(a: int, b: int)
    requires Byte(a) == Byte(b)
    ensures a % 256 == b % 256
  {
    assert Byte(a) as int == a % 256;
    assert Byte(b) as int == b % 256;
  }

  lemma ByteAndRest(a: nat, b: nat)
    requires a / 256 == b / 256 && Byte(a) == Byte(b)
    ensures a == b
  {
    ByteInjective(a, b);
  }

  /** Four bytes tell any two lengths apart that fit in 32 bits. */
  lemma BE32Injective(a: nat, b: nat)
    requires a < TWO_32 && b < TWO_32 && BE32(a) == BE32(b)
    ensures a == b
  {
    var x, y := BE32(a), BE32(b);
    assert x[0] == y[0] && x[1] == y[1] && x[2] == y[2] && x[3] == y[3];
    var p, q := a / 256, b / 256;
    assert p / 256 / 256 / 256 == 0 && q / 256 / 256 / 256 == 0;
    ByteAndRest(p / 256 / 256, q / 256 / 256);
    ByteAndRest(p / 256, q / 256);
    ByteAndRest(p, q);
    ByteAndRest(a, b);
  }

  /** The four bytes are the length in base 256, the highest byte first. */
  lemma BE32Value(n: nat)
    requires n < TWO_32
    ensures var s := BE32(n);
      ((s[0] as int * 256 + s[1] as int) * 256 + s[2] as int) * 256 + s[3] as int == n
  {
    var p := n / 256;
    assert Byte(n) as int == n % 256 && Byte(p) as int == p % 256;
    assert Byte(p / 256) as int == p / 256 % 256 && Byte(p / 256 / 256) as int == p / 256 / 256 % 256;
    assert p / 256 / 256 < 256;
  }

  lemma PrefixedInjective(a: string, r: string, b: string, s: string)
    requires |a| < TWO_32 && |b| < TWO_32
    requires LengthPrefixed(a) + r == LengthPrefixed(b) + s
    ensures a == b && r == s
  {
    assert LengthPrefixed(a) + r == BE32(|a|) + (a + r) && LengthPrefixed(b) + s == BE32(|b|) + (b + s);
    Text.Cut(BE32(|a|), a + r, BE32(|b|), b + s);
    BE32Injective(|a|, |b|);
    Text.Cut(a, r, b, s);
  }

  lemma {:induction false} ChainFront(fields: seq<string>)
    requires fields != []
    ensures Chain(fields) == LengthPrefixed(fields[0]) + Chain(fields[1..])
  {
    var last := |fields| - 1;
    if last > 0 {
      ChainFront(fields[..last]);
      assert fields[..last][1..] == fields[1..][..last - 1] && fields[1..][last - 1] == fields[last];
      Text.Regroup(LengthPrefixed(fields[0]), Chain(fields[..last][1..]), LengthPrefixed(fields[last]));
    } else {
      assert fields[..0] == [] && fields[1..] == [];
    }
  }

  ghost predicate AllShort(values: seq<string>) {
    forall v | v in values :: |v| < TWO_32
  }

  /** The first element and the rest can be read off a chain. */
  lemma PeelElement(a: seq<string>, b: seq<string>)
    requires a != [] && b != [] && AllShort(a) && AllShort(b) && Chain(a) == Chain(b)
    ensures a[0] == b[0] && Chain(a[1..]) == Chain(b[1..])
  {
    ChainFront(a);
    ChainFront(b);
    PrefixedInjective(a[0], Chain(a[1..]), b[0], Chain(b[1..]));
  }

  lemma ChainNotEmpty(a: seq<string>)
    requires a != []
    ensures |Chain(a)| >= 4
  {
  }

  lemma {:induction false} ChainInjective(a: seq<string>, b: seq<string>)
    requires AllShort(a) && AllShort(b) && Chain(a) == Chain(b)
    ensures a == b
  {
    if a != [] && b != [] {
      PeelElement(a, b);
      ChainInjective(a[1..], b[1..]);
      assert a == [a[0]] + a[1..] && b == [b[0]] + b[1..];
    } else if a != [] {
      ChainNotEmpty(a);
    } else if b != [] {
      ChainNotEmpty(b);
    }
  }

  /** Every length in the record survives the cast to 32 bits. */
  ghost predicate Exact(r: Record) {
    |r.kind| < TWO_32 && |r.fields| < TWO_32 && AllShort(r.fields)
  }

  lemma EncodingParts(r: Record)
    ensures Encode(r) == LengthPrefixed(r.kind) + (BE32(|r.fields|) + Chain(r.fields))
  {
    Text.Regroup(LengthPrefixed(r.kind), BE32(|r.fields|), Chain(r.fields));
  }

  lemma FieldsInjective(a: seq<string>, b: seq<string>)
    requires |a| < TWO_32 && |b| < TWO_32 && AllShort(a) && AllShort(b)
    requires BE32(|a|) + Chain(a) == BE32(|b|) + Chain(b)
    ensures a == b
  {
    Text.Cut(BE32(|a|), Chain(a), BE32(|b|), Chain(b));
    ChainInjective(a, b);
  }

  /** Two records with the same bytes are the same record. */
  lemma EncodeInjective(a: Record, b: Record)
    requires Exact(a) && Exact(b)
    ensures Encode(a) == Encode(b) <==> a == b
  {
    if Encode(a) == Encode(b) {
      EncodingParts(a);
      EncodingParts(b);
      PrefixedInjective(a.kind, BE32(|a.fields|) + Chain(a.fields), b.kind, BE32(|b.fields|) + Chain(b.fields));
      FieldsInjective(a.fields, b.fields);
    }
  }

  // ---- the stream -----------------------------------------------------------------------------

  const HEADER := "dbprobe:mysql-schema-fingerprint:v1" + [0 as char]

  /** `fed` is what the hash reads for these encoded records: header, then the sorted records framed. */
  ghost predicate IsStream(records: seq<string>, fed: string) {
    exists sorted ::
      multiset(sorted) == multiset(records) && Sorting.SortedBy(sorted, StringOrder()) && fed == HEADER + Chain(sorted)
  }

  lemma StreamsOfEncodings(a: seq<string>, b: seq<string>, x: string, y: string)
    requires AllShort(a) && AllShort(b) && IsStream(a, x) && IsStream(b, y)
    ensures x == y <==> multiset(a) == multiset(b)
  {
    var s :| multiset(s) == multiset(a) && Sorting.SortedBy(s, StringOrder()) && x == HEADER + Chain(s);
    var t :| multiset(t) == multiset(b) && Sorting.SortedBy(t, StringOrder()) && y == HEADER + Chain(t);
    Sorting.SameElements(s, a);
    Sorting.SameElements(t, b);
    if x == y {
      Text.Cut(HEADER, Chain(s), HEADER, Chain(t));
      ChainInjective(s, t);
    }
    if multiset(a) == multiset(b) {
      forall i, j | 0 <= i < |s| && 0 <= j < |s|
        ensures s[i] == s[j] || StringOrder()(s[i], s[j]) || StringOrder()(s[j], s[i])
      {
        Text.LessTotal(Self(s[i]), Self(s[j]));
      }
      Sorting.SortedUnique(s, t, StringOrder());
    }
  }

  function Encodings(records: seq<Record>): seq<string> {
    Map(records, Encode)
  }

  ghost predicate AllExact(records: seq<Record>) {
    forall r | r in records :: Exact(r)
  }

  /** Two collections feed the hash the same bytes exactly when they hold the same records the same
      number of times, in whatever order the rows came. */
  lemma StreamIsCanonical(a: seq<Record>, b: seq<Record>, x: string, y: string)
    requires AllExact(a) && AllExact(b)
    requires AllShort(Encodings(a)) && AllShort(Encodings(b))
    requires IsStream(Encodings(a), x) && IsStream(Encodings(b), y)
    ensures x == y <==> multiset(a) == multiset(b)
  {
    StreamsOfEncodings(Encodings(a), Encodings(b), x, y);
    if x == y {
      forall r, s | r in a && s in b && Encode(r) == Encode(s) ensures r == s {
        EncodeInjective(r, s);
      }
      InjectiveMapKeepsMultisetsApart(a, b, Encode);
    } else if multiset(a) == multiset(b) {
      MapKeepsMultiset(a, b, Encode);
    }
  }

  // ---- collecting within the budgets ----------------------------------------------------------

  /** bytes.Buffer */
  class Buffer {
    var data: string

    constructor ()
      ensures data == ""
    {
      data := "";
    }

    method Write(s: string)
      modifies this
      ensures data == old(data) + s
    {
      data := data + s;
    }

    method WriteLengthPrefixed(v: string)
      modifies this
      ensures data == old(data) + LengthPrefixed(v)
    {
      Write(BE32(|v|));
      Write(v);
    }
  }

  /** The buffer after i fields. */
  function Partial(r: Record, i: nat): string
    requires i <= |r.fields|
  {
    LengthPrefixed(r.kind) + BE32(|r.fields|) + Chain(r.fields[..i])
  }

  lemma PartialStep(r: Record, i: nat)
    requires i < |r.fields|
    ensures Partial(r, i + 1) == Partial(r, i) + LengthPrefixed(r.fields[i])
  {
    assert r.fields[..i + 1][..i] == r.fields[..i];
    assert Chain(r.fields[..i + 1]) == Chain(r.fields[..i]) + LengthPrefixed(r.fields[i]);
  }

  lemma {:induction false} PartialGrows(r: Record, i: nat)
    requires i <= |r.fields|
    ensures |Partial(r, i)| <= |Encode(r)|
    decreases |r.fields| - i
  {
    if i < |r.fields| {
      PartialStep(r, i);
      PartialGrows(r, i + 1);
    } else {
      assert r.fields[..i] == r.fields;
    }
  }

  /** The record's bytes, unless they pass the record limit. */
  method EncodeSchemaRecord(kind: string, fields: seq<string>) returns (r: Result<string>)
    ensures r.Ok? <==> fields == [] || |Encode(Record(kind, fields))| <= MAX_RECORD_BYTES
    ensures r.Ok? ==> r.value == Encode(Record(kind, fields))
  {
    ghost var record := Record(kind, fields);
    var out := new Buffer();
    out.WriteLengthPrefixed(kind);
    out.Write(BE32(|fields|));
    assert fields[..0] == [];
    for i := 0 to |fields|
      invariant out.data == Partial(record, i)
      invariant i > 0 ==> |out.data| <= MAX_RECORD_BYTES
    {
      PartialStep(record, i);
      out.WriteLengthPrefixed(fields[i]);
      if |out.data| > MAX_RECORD_BYTES {
        PartialGrows(record, i + 1);
        return Err("canonical record too large");
      }
    }
    assert fields[..|fields|] == fields;
    return Ok(out.data);
  }

  /** What the driver hands over for one row: the scanned fields, or an error. */
  datatype Row = Scanned(fields: seq<string>) | ScanError

  /** One metadata query: whether it could be issued, its rows, whether iterating them ended well. */
  datatype Query = Query(issued: bool, rows: seq<Row>, iterated: bool)

  datatype Group = Group(kind: string, width: nat)

  const GROUPS := [
    Group("table", 6), Group("column", 11), Group("index", 11),
    Group("constraint", 9), Group("check", 4), Group("referential", 8)
  ]

  /** A row the collector accepts, apart from the byte budget. */
  predicate Acceptable(g: Group, row: Row) {
    && row.Scanned? && |row.fields| == g.width
    && (forall f | f in row.fields :: |f| <= MAX_FIELD_BYTES)
    && (g.width == 0 || |Encode(Record(g.kind, row.fields))| <= MAX_RECORD_BYTES)
  }

  function RecordOf(g: Group, row: Row): Record {
    Record(g.kind, if row.Scanned? then row.fields else [])
  }

  function RecordsOf(g: Group, rows: seq<Row>): seq<Record> {
    Map(rows, (row: Row) => RecordOf(g, row))
  }

  function EncodedRows(g: Group, rows: seq<Row>): seq<string> {
    Map(rows, (row: Row) => Encode(RecordOf(g, row)))
  }

  function Size(records: seq<string>): nat {
    if records == [] then 0 else Size(records[..|records| - 1]) + |records[|records| - 1]|
  }

  lemma {:induction false} SizeAppend(a: seq<string>, b: seq<string>)
    ensures Size(a + b) == Size(a) + Size(b)
  {
    if b == [] {
      assert a + b == a;
    } else {
      SizeAppend(a, b[..|b| - 1]);
      assert (a + b)[..|a + b| - 1] == a + b[..|b| - 1];
    }
  }

  lemma SizeOfPrefix(records: seq<string>, i: nat)
    requires i <= |records|
    ensures Size(records[..i]) <= Size(records)
  {
    assert records == records[..i] + records[i..];
    SizeAppend(records[..i], records[i..]);
  }

  predicate Readable(g: Group, rows: seq<Row>) {
    |rows| <= MAX_ROWS_PER_GROUP && forall i | 0 <= i < |rows| :: Acceptable(g, rows[i])
  }

  predicate Usable(g: Group, q: Query) {
    q.issued && q.iterated && Readable(g, q.rows)
  }

  method CheckFields(fields: seq<string>) returns (ok: bool)
    ensures ok <==> forall f | f in fields :: |f| <= MAX_FIELD_BYTES
  {
    for i := 0 to |fields|
      invariant forall k | 0 <= k < i :: |fields[k]| <= MAX_FIELD_BYTES
    {
      if |fields[i]| > MAX_FIELD_BYTES {
        return false;
      }
    }
    return true;
  }

  /** One row, scanned, checked field by field and encoded. */
  method EncodeRow(g: Group, row: Row) returns (r: Result<string>)
    ensures r.Ok? <==> Acceptable(g, row)
    ensures r.Ok? ==> r.value == Encode(RecordOf(g, row))
  {
    if row.ScanError? || |row.fields| != g.width {
      return Err("scan metadata");
    }
    var small := CheckFields(row.fields);
    if !small {
      return Err("field too large");
    }
    r := EncodeSchemaRecord(g.kind, row.fields);
  }

  lemma RowsStep(g: Group, rows: seq<Row>, i: nat)
    requires i < |rows|
    ensures EncodedRows(g, rows[..i + 1]) == EncodedRows(g, rows[..i]) + [Encode(RecordOf(g, rows[i]))]
    ensures Size(EncodedRows(g, rows[..i + 1])) == Size(EncodedRows(g, rows[..i])) + |Encode(RecordOf(g, rows[i]))|
    ensures Size(EncodedRows(g, rows[..i + 1])) <= Size(EncodedRows(g, rows))
  {
    var e := Encode(RecordOf(g, rows[i]));
    assert EncodedRows(g, rows[..i + 1]) == EncodedRows(g, rows[..i]) + [e];
    assert (EncodedRows(g, rows[..i]) + [e])[..i] == EncodedRows(g, rows[..i]);
    assert EncodedRows(g, rows[..i + 1]) == EncodedRows(g, rows)[..i + 1];
    SizeOfPrefix(EncodedRows(g, rows), i + 1);
  }

  /** One turn of the row loop: the next record and its place in the budget. */
  method NextRecord(g: Group, row: Row, done: nat, used: int, remaining: int) returns (r: Result<string>)
    ensures r.Ok? <==> done < MAX_ROWS_PER_GROUP && Acceptable(g, row) && used + |Encode(RecordOf(g, row))| <= remaining
    ensures r.Ok? ==> r.value == Encode(RecordOf(g, row))
  {
    if done >= MAX_ROWS_PER_GROUP {
      return Err("row limit exceeded");
    }
    r := EncodeRow(g, row);
    if r.Ok? && |r.value| > remaining - used {
      r := Err("total metadata budget exceeded");
    }
  }

  /** What the row loop has after a part of the rows. */
  ghost predicate Encoded(g: Group, rows: seq<Row>, records: seq<string>, used: int) {
    Readable(g, rows) && records == EncodedRows(g, rows) && used == Size(EncodedRows(g, rows))
  }

  lemma EncodedStep(g: Group, rows: seq<Row>, i: nat, records: seq<string>, used: int)
    requires i < |rows| && i < MAX_ROWS_PER_GROUP
    requires Encoded(g, rows[..i], records, used) && Acceptable(g, rows[i])
    ensures var e := Encode(RecordOf(g, rows[i]));
      Encoded(g, rows[..i + 1], records + [e], used + |e|)
  {
    RowsStep(g, rows, i);
    ReadableStep(g, rows, i);
  }

  lemma NotEncodable(g: Group, rows: seq<Row>, i: nat, records: seq<string>, used: int, remaining: int)
    requires i < |rows| && Encoded(g, rows[..i], records, used)
    requires i >= MAX_ROWS_PER_GROUP || !Acceptable(g, rows[i]) || used + |Encode(RecordOf(g, rows[i]))| > remaining
    ensures !Readable(g, rows) || Size(EncodedRows(g, rows)) > remaining
  {
    RowsStep(g, rows, i);
  }

  /** The loop over the rows: every row encoded, or nothing as soon as a limit is passed. */
  method EncodeRows(g: Group, rows: seq<Row>, remaining: int) returns (r: Result<(seq<string>, int)>)
    requires remaining >= 0
    ensures r.Ok? <==> Readable(g, rows) && Size(EncodedRows(g, rows)) <= remaining
    ensures r.Ok? ==> r.value == (EncodedRows(g, rows), Size(EncodedRows(g, rows)))
  {
    var records, used := [], 0;
    for i := 0 to |rows|
      invariant Encoded(g, rows[..i], records, used) && used <= remaining
    {
      var record := NextRecord(g, rows[i], |records|, used, remaining);
      if record.Err? {
        NotEncodable(g, rows, i, records, used, remaining);
        return Err(record.message);
      }
      EncodedStep(g, rows, i, records, used);
      records := records + [record.value];
      used := used + |record.value|;
    }
    assert rows[..|rows|] == rows;
    return Ok((records, used));
  }

  lemma ReadableStep(g: Group, rows: seq<Row>, i: nat)
    requires i < |rows| && i < MAX_ROWS_PER_GROUP && Readable(g, rows[..i]) && Acceptable(g, rows[i])
    ensures Readable(g, rows[..i + 1])
  {
    assert rows[..i + 1] == rows[..i] + [rows[i]];
  }

  method CollectGroup(g: Group, q: Query, remaining: int) returns (r: Result<(seq<string>, int)>)
    requires remaining >= 0
    ensures r.Ok? <==> Usable(g, q) && Size(EncodedRows(g, q.rows)) <= remaining
    ensures r.Ok? ==> r.value == (EncodedRows(g, q.rows), Size(EncodedRows(g, q.rows)))
  {
    if !q.issued {
      return Err("collect metadata");
    }
    r := EncodeRows(g, q.rows, remaining);
    if r.Ok? && !q.iterated {
      return Err("iterate metadata");
    }
  }

  // ---- the whole collection -------------------------------------------------------------------

  /** A group with what its query gave. */
  datatype Source = Source(group: Group, query: Query)

  function Records(sources: seq<Source>): seq<Record> {
    if sources == [] then [] else
      var last := sources[|sources| - 1];
      Records(sources[..|sources| - 1]) + RecordsOf(last.group, last.query.rows)
  }

  function EncodedSources(sources: seq<Source>): seq<string> {
    if sources == [] then [] else
      var last := sources[|sources| - 1];
      EncodedSources(sources[..|sources| - 1]) + EncodedRows(last.group, last.query.rows)
  }

  function Bytes(sources: seq<Source>): nat {
    if sources == [] then 0 else
      var last := sources[|sources| - 1];
      Bytes(sources[..|sources| - 1]) + Size(EncodedRows(last.group, last.query.rows))
  }

  ghost predicate AllUsable(sources: seq<Source>) {
    forall i | 0 <= i < |sources| :: Usable(sources[i].group, sources[i].query)
  }

  /** The whole catalogue was read and fits every limit. */
  ghost predicate Within(sources: seq<Source>) {
    AllUsable(sources) && Bytes(sources) <= MAX_TOTAL_BYTES
  }

  lemma {:induction false} BytesGrow(sources: seq<Source>, i: nat)
    requires i <= |sources|
    ensures Bytes(sources[..i]) <= Bytes(sources)
    decreases |sources| - i
  {
    if i < |sources| {
      assert sources[..i + 1][..i] == sources[..i];
      BytesGrow(sources, i + 1);
    } else {
      assert sources[..i] == sources;
    }
  }

  lemma EncodingsOfRows(g: Group, rows: seq<Row>)
    ensures Encodings(RecordsOf(g, rows)) == EncodedRows(g, rows)
  {
  }

  /** What the budget counts is the size of what the hash is given. */
  lemma {:induction false} EncodedIsEncodings(sources: seq<Source>)
    ensures EncodedSources(sources) == Encodings(Records(sources))
    ensures Bytes(sources) == Size(EncodedSources(sources))
  {
    if sources != [] {
      var front, last := sources[..|sources| - 1], sources[|sources| - 1];
      EncodedIsEncodings(front);
      MapAppend(Records(front), RecordsOf(last.group, last.query.rows), Encode);
      EncodingsOfRows(last.group, last.query.rows);
      SizeAppend(EncodedSources(front), EncodedRows(last.group, last.query.rows));
    }
  }

  /** The fingerprint text for the bytes the hash read. */
  function Render(fed: string, sha256Hex: string -> string): string {
    "v1:sha256:" + sha256Hex(fed)
  }

  method HashSchemaRecords(records: seq<string>, sha256Hex: string -> string) returns (text: string, fed: string)
    ensures IsStream(records, fed) && text == Render(fed, sha256Hex)
  {
    KeyOrderIsWeakOrder(Self);
    var sorted := Sorting.Sort(records, StringOrder());
    fed := HEADER;
    for i := 0 to |sorted|
      invariant fed == HEADER + Chain(sorted[..i])
    {
      assert sorted[..i + 1][..i] == sorted[..i];
      fed := fed + BE32(|sorted[i]|);
      fed := fed + sorted[i];
      assert fed == HEADER + (Chain(sorted[..i]) + LengthPrefixed(sorted[i]));
    }
    assert sorted[..|sorted|] == sorted;
    text := Render(fed, sha256Hex);
  }

  /** What the group loop has after a part of the groups. */
  ghost predicate Collected(sources: seq<Source>, records: seq<string>, total: int) {
    AllUsable(sources) && records == EncodedSources(sources) && total == Bytes(sources) <= MAX_TOTAL_BYTES
  }

  lemma SourceStep(sources: seq<Source>, i: nat)
    requires i < |sources|
    ensures var rows := EncodedRows(sources[i].group, sources[i].query.rows);
      && EncodedSources(sources[..i + 1]) == EncodedSources(sources[..i]) + rows
      && Bytes(sources[..i + 1]) == Bytes(sources[..i]) + Size(rows)
  {
    assert sources[..i + 1][..i] == sources[..i];
  }

  lemma CollectedStep(sources: seq<Source>, i: nat, records: seq<string>, total: int)
    requires i < |sources| && Collected(sources[..i], records, total)
    requires Usable(sources[i].group, sources[i].query)
    requires Size(EncodedRows(sources[i].group, sources[i].query.rows)) <= MAX_TOTAL_BYTES - total
    ensures var rows := EncodedRows(sources[i].group, sources[i].query.rows);
      Collected(sources[..i + 1], records + rows, total + Size(rows))
  {
    SourceStep(sources, i);
    UsableStep(sources, i);
  }

  lemma UsableStep(sources: seq<Source>, i: nat)
    requires i < |sources| && AllUsable(sources[..i]) && Usable(sources[i].group, sources[i].query)
    ensures AllUsable(sources[..i + 1])
  {
    assert sources[..i + 1] == sources[..i] + [sources[i]];
  }

  lemma NotWithin(sources: seq<Source>, i: nat)
    requires i < |sources|
    requires !Usable(sources[i].group, sources[i].query) ||
      Size(EncodedRows(sources[i].group, sources[i].query.rows)) > MAX_TOTAL_BYTES - Bytes(sources[..i])
    ensures !Within(sources)
  {
    SourceStep(sources, i);
    BytesGrow(sources, i + 1);
  }

  /** The loop over the groups.  The budget left for a group is never negative. */
  method CollectGroups(sources: seq<Source>) returns (r: Result<seq<string>>)
    ensures r.Ok? <==> Within(sources)
    ensures r.Ok? ==> r.value == EncodedSources(sources)
  {
    var records, total := [], 0;
    for i := 0 to |sources|
      invariant Collected(sources[..i], records, total)
    {
      var group := CollectGroup(sources[i].group, sources[i].query, MAX_TOTAL_BYTES - total);
      if group.Err? {
        NotWithin(sources, i);
        return Err(group.message);
      }
      CollectedStep(sources, i, records, total);
      records := records + group.value.0;
      total := total + group.value.1;
    }
    assert sources[..|sources|] == sources;
    return Ok(records);
  }

  /** The six queries of the collector. */
  function Catalogue(qs: seq<Query>): seq<Source>
    requires |qs| == |GROUPS|
  {
    seq(|qs|, i requires 0 <= i < |qs| => Source(GROUPS[i], qs[i]))
  }

  /** The collection succeeds exactly when the catalogue is within every limit, and then the hash reads
      the stream of exactly its records; returned are the fingerprint and what the hash read. */
  method Collect(qs: seq<Query>, sha256Hex: string -> string) returns (r: Result<(string, string)>)
    requires |qs| == |GROUPS|
    ensures r.Ok? <==> Within(Catalogue(qs))
    ensures r.Ok? ==>
      && IsStream(Encodings(Records(Catalogue(qs))), r.value.1)
      && r.value.0 == "v1:sha256:" + sha256Hex(r.value.1)
      && IsFingerprint(qs, sha256Hex, r.value.0)
  {
    var sources := Catalogue(qs);
    var records := CollectGroups(sources);
    if records.Err? {
      return Err(records.message);
    }
    EncodedIsEncodings(sources);
    var text, fed := HashSchemaRecords(records.value, sha256Hex);
    return Ok((text, fed));
  }

  predicate SmallGroup(g: Group) {
    0 < g.width < 12 && |g.kind| < 12
  }

  lemma UsableRowsAreExact(g: Group, rows: seq<Row>)
    requires Readable(g, rows) && SmallGroup(g)
    ensures AllExact(RecordsOf(g, rows)) && AllShort(EncodedRows(g, rows))
  {
    forall i | 0 <= i < |rows| ensures Exact(RecordOf(g, rows[i])) && |Encode(RecordOf(g, rows[i]))| < TWO_32 {
      assert Acceptable(g, rows[i]);
    }
  }

  lemma ExactAppend(a: seq<Record>, b: seq<Record>)
    requires AllExact(a) && AllExact(b)
    ensures AllExact(a + b)
  {
  }

  lemma ShortAppend(a: seq<string>, b: seq<string>)
    requires AllShort(a) && AllShort(b)
    ensures AllShort(a + b)
  {
  }

  /** Within the limits no 32-bit length is ever cut off. */
  lemma {:induction false} LengthsAreExact(sources: seq<Source>)
    requires AllUsable(sources) && forall i | 0 <= i < |sources| :: SmallGroup(sources[i].group)
    ensures AllExact(Records(sources)) && AllShort(EncodedSources(sources))
  {
    if sources != [] {
      var front, last := sources[..|sources| - 1], sources[|sources| - 1];
      LengthsAreExact(front);
      UsableRowsAreExact(last.group, last.query.rows);
      ExactAppend(Records(front), RecordsOf(last.group, last.query.rows));
      ShortAppend(EncodedSources(front), EncodedRows(last.group, last.query.rows));
    }
  }

  lemma GroupsAreSmall()
    ensures forall g | g in GROUPS :: SmallGroup(g)
  {
  }

  /** Two catalogues within the limits feed the hash the same bytes exactly when they hold the same
      records: the fingerprint sees every change of the schema and no change of row order. */
  lemma FingerprintInputIsCanonical(qs: seq<Query>, x: string, ps: seq<Query>, y: string)
    requires |qs| == |ps| == |GROUPS| && Within(Catalogue(qs)) && Within(Catalogue(ps))
    requires IsStream(Encodings(Records(Catalogue(qs))), x) && IsStream(Encodings(Records(Catalogue(ps))), y)
    ensures x == y <==> multiset(Records(Catalogue(qs))) == multiset(Records(Catalogue(ps)))
  {
    GroupsAreSmall();
    assert forall i | 0 <= i < |GROUPS| :: GROUPS[i] in GROUPS;
    CanonicalFor(Catalogue(qs), x, Catalogue(ps), y);
  }

  lemma CanonicalFor(a: seq<Source>, x: string, b: seq<Source>, y: string)
    requires AllUsable(a) && forall i | 0 <= i < |a| :: SmallGroup(a[i].group)
    requires AllUsable(b) && forall i | 0 <= i < |b| :: SmallGroup(b[i].group)
    requires IsStream(Encodings(Records(a)), x) && IsStream(Encodings(Records(b)), y)
    ensures x == y <==> multiset(Records(a)) == multiset(Records(b))
  {
    LengthsAreExact(a);
    LengthsAreExact(b);
    EncodedIsEncodings(a);
    EncodedIsEncodings(b);
    StreamIsCanonical(Records(a), Records(b), x, y);
  }

  // ---- fingerprints ---------------------------------------------------------------------------

  ghost predicate Injective(sha256Hex: string -> string) {
    forall a, b | sha256Hex(a) == sha256Hex(b) :: a == b
  }

  /** What Collect returns when it succeeds: the version and the digest of exactly the stream of the records. */
  ghost predicate IsFingerprint(qs: seq<Query>, sha256Hex: string -> string, text: string)
    requires |qs| == |GROUPS|
  {
    Within(Catalogue(qs)) &&
    exists fed :: IsStream(Encodings(Records(Catalogue(qs))), fed) && text == "v1:sha256:" + sha256Hex(fed)
  }

  lemma SameDigest(sha256Hex: string -> string, x: string, y: string)
    requires Injective(sha256Hex)
    ensures "v1:sha256:" + sha256Hex(x) == "v1:sha256:" + sha256Hex(y) <==> x == y
  {
    if "v1:sha256:" + sha256Hex(x) == "v1:sha256:" + sha256Hex(y) {
      Text.Cut("v1:sha256:", sha256Hex(x), "v1:sha256:", sha256Hex(y));
    }
  }

  lemma RowsCount(g: Group, rows: seq<Row>, fields: seq<string>)
    requires forall row | row in rows :: row.Scanned?
    ensures multiset(RecordsOf(g, rows))[Record(g.kind, fields)] == multiset(rows)[Scanned(fields)]
    ensures forall r | r in RecordsOf(g, rows) :: r.kind == g.kind
  {
    CountOfImage(rows, (row: Row) => RecordOf(g, row), Scanned(fields));
  }

  ghost predicate DifferentKinds(sources: seq<Source>) {
    forall j, k | 0 <= j < k < |sources| :: sources[j].group.kind != sources[k].group.kind
  }

  lemma RecordsPush(sources: seq<Source>, r: Record)
    requires sources != []
    ensures var last := sources[|sources| - 1];
      multiset(Records(sources))[r] ==
        multiset(Records(sources[..|sources| - 1]))[r] + multiset(RecordsOf(last.group, last.query.rows))[r]
  {
  }

  lemma UsableRowsScan(source: Source)
    requires Usable(source.group, source.query)
    ensures forall row | row in source.query.rows :: row.Scanned?
  {
  }

  lemma NoOtherKind(records: seq<Record>, kind: string, r: Record)
    requires (forall x | x in records :: x.kind == kind) && r.kind != kind
    ensures multiset(records)[r] == 0
  {
    assert r !in records;
  }

  function Kinds(sources: seq<Source>): seq<string> {
    Map(sources, (source: Source) => source.group.kind)
  }

  /** How often each group gave a row with these fields. */
  function RowCounts(sources: seq<Source>, fields: seq<string>): seq<nat> {
    Map(sources, (source: Source) => multiset(source.query.rows)[Scanned(fields)])
  }

  /** How often a group holds a record: as often as it gave the row, if the kind is its own. */
  lemma GroupCount(source: Source, r: Record)
    requires Usable(source.group, source.query)
    ensures multiset(RecordsOf(source.group, source.query.rows))[r] ==
      if source.group.kind == r.kind then multiset(source.query.rows)[Scanned(r.fields)] else 0
  {
    UsableRowsScan(source);
    RowsCount(source.group, source.query.rows, r.fields);
    if source.group.kind == r.kind {
      assert r == Record(source.group.kind, r.fields);
    } else {
      NoOtherKind(RecordsOf(source.group, source.query.rows), source.group.kind, r);
    }
  }

  /** A record is in the catalogue as often as the groups of its kind gave its row. */
  lemma {:induction false} RecordsCount(sources: seq<Source>, r: Record)
    requires AllUsable(sources)
    ensures multiset(Records(sources))[r] == SumWhere(Kinds(sources), RowCounts(sources, r.fields), r.kind)
  {
    if sources != [] {
      var n := |sources| - 1;
      RecordsCount(sources[..n], r);
      RecordsPush(sources, r);
      GroupCount(sources[n], r);
      assert Kinds(sources)[..n] == Kinds(sources[..n]);
      assert RowCounts(sources, r.fields)[..n] == RowCounts(sources[..n], r.fields);
    }
  }

  ghost predicate SameKinds(a: seq<Source>, b: seq<Source>) {
    |a| == |b| && forall i | 0 <= i < |a| :: a[i].group == b[i].group
  }

  lemma SameRows(a: Source, b: Source)
    requires Usable(a.group, a.query) && Usable(b.group, b.query)
    requires forall fields :: multiset(a.query.rows)[Scanned(fields)] == multiset(b.query.rows)[Scanned(fields)]
    ensures multiset(a.query.rows) == multiset(b.query.rows)
  {
    UsableRowsScan(a);
    UsableRowsScan(b);
    forall row: Row ensures multiset(a.query.rows)[row] == multiset(b.query.rows)[row] {
      if row.ScanError? {
        assert row !in a.query.rows && row !in b.query.rows;
      } else {
        assert row == Scanned(row.fields);
      }
    }
  }

  /** With kinds all different, the records of one kind are the rows of its group. */
  lemma KindCount(sources: seq<Source>, i: nat, fields: seq<string>)
    requires AllUsable(sources) && DifferentKinds(sources) && i < |sources|
    ensures multiset(Records(sources))[Record(sources[i].group.kind, fields)] ==
      multiset(sources[i].query.rows)[Scanned(fields)]
  {
    RecordsCount(sources, Record(sources[i].group.kind, fields));
    SumWhereAt(Kinds(sources), RowCounts(sources, fields), i);
  }

  lemma SameRecordsGiveRows(a: seq<Source>, b: seq<Source>, i: nat)
    requires AllUsable(a) && AllUsable(b) && SameKinds(a, b) && DifferentKinds(a) && i < |a|
    requires multiset(Records(a)) == multiset(Records(b))
    ensures multiset(a[i].query.rows) == multiset(b[i].query.rows)
  {
    SameKindsDiffer(a, b);
    forall fields ensures multiset(a[i].query.rows)[Scanned(fields)] == multiset(b[i].query.rows)[Scanned(fields)] {
      KindCount(a, i, fields);
      KindCount(b, i, fields);
    }
    SameRows(a[i], b[i]);
  }

  lemma SameKindsDiffer(a: seq<Source>, b: seq<Source>)
    requires SameKinds(a, b) && DifferentKinds(a)
    ensures DifferentKinds(b)
  {
  }

  lemma SameRowsGiveRecords(a: seq<Source>, b: seq<Source>, r: Record)
    requires AllUsable(a) && AllUsable(b) && SameKinds(a, b)
    requires forall i | 0 <= i < |a| :: multiset(a[i].query.rows) == multiset(b[i].query.rows)
    ensures multiset(Records(a))[r] == multiset(Records(b))[r]
  {
    RecordsCount(a, r);
    RecordsCount(b, r);
    assert Kinds(a) == Kinds(b);
    assert RowCounts(a, r.fields) == RowCounts(b, r.fields);
  }

  /** The same records are the same rows in every group. */
  lemma SameRecordsIffSameRows(a: seq<Source>, b: seq<Source>)
    requires AllUsable(a) && AllUsable(b) && SameKinds(a, b) && DifferentKinds(a)
    ensures multiset(Records(a)) == multiset(Records(b)) <==>
      forall i | 0 <= i < |a| :: multiset(a[i].query.rows) == multiset(b[i].query.rows)
  {
    if multiset(Records(a)) == multiset(Records(b)) {
      forall i | 0 <= i < |a| ensures multiset(a[i].query.rows) == multiset(b[i].query.rows) {
        SameRecordsGiveRows(a, b, i);
      }
    }
    if forall i | 0 <= i < |a| :: multiset(a[i].query.rows) == multiset(b[i].query.rows) {
      forall r: Record ensures multiset(Records(a))[r] == multiset(Records(b))[r] {
        SameRowsGiveRecords(a, b, r);
      }
      assert multiset(Records(a)) == multiset(Records(b));
    }
  }

  lemma CatalogueKinds(qs: seq<Query>)
    requires |qs| == |GROUPS|
    ensures DifferentKinds(Catalogue(qs))
    ensures forall i | 0 <= i < |qs| :: Catalogue(qs)[i].query == qs[i] && Catalogue(qs)[i].group == GROUPS[i]
  {
    assert |"table"| == 5 && |"column"| == 6 && |"index"| == 5 && |"constraint"| == 10 && |"referential"| == 11;
    assert "table"[0] != "index"[0] && "table"[0] != "check"[0] && "index"[0] != "check"[0];
  }

  lemma CatalogueRows(qs: seq<Query>, ps: seq<Query>)
    requires |qs| == |ps| == |GROUPS| && Within(Catalogue(qs)) && Within(Catalogue(ps))
    ensures multiset(Records(Catalogue(qs))) == multiset(Records(Catalogue(ps))) <==>
      forall i | 0 <= i < |qs| :: multiset(qs[i].rows) == multiset(ps[i].rows)
  {
    CatalogueKinds(qs);
    CatalogueKinds(ps);
    SameRecordsIffSameRows(Catalogue(qs), Catalogue(ps));
  }

  /** Two fingerprints are the same text exactly when each of the six queries gave the same rows the same
      number of times: every change of the schema shows, and no change of row order does. */
  lemma FingerprintsAgree(qs: seq<Query>, x: string, ps: seq<Query>, y: string, sha256Hex: string -> string)
    requires |qs| == |ps| == |GROUPS| && Injective(sha256Hex)
    requires IsFingerprint(qs, sha256Hex, x) && IsFingerprint(ps, sha256Hex, y)
    ensures x == y <==> forall i | 0 <= i < |qs| :: multiset(qs[i].rows) == multiset(ps[i].rows)
  {
    var v :| IsStream(Encodings(Records(Catalogue(qs))), v) && x == "v1:sha256:" + sha256Hex(v);
    var w :| IsStream(Encodings(Records(Catalogue(ps))), w) && y == "v1:sha256:" + sha256Hex(w);
    assert x == y <==> v == w by { SameDigest(sha256Hex, v, w); }
    FingerprintInputIsCanonical(qs, v, ps, w);
    CatalogueRows(qs, ps);
  }
}
