/**
  The redundant-index rule: an index whose key is a left prefix of another index's key on the
  same table, both neither primary nor unique, may be redundant.
 */
module RedundantIndex {
  import opened Lists
  import opened Ordering
  import opened Signal
  import opened IndexSignature
  import Text

  const INDEX_KIND := "mysql.index"

  /** What was observed of one index; None where no usable observation came. */
  datatype IndexState = IndexState(
    obj: Ref,
    readCount: Option<real>,
    primary: Option<bool>,
    unique: Option<bool>,
    table: Option<string>,
    columns: Option<string>,
    signature: Option<string>)

  type States = map<string, IndexState>

  // ---- collecting the states ------------------------------------------------------------------

  /** The state after one more observation of its index. */
  function Observe(s: IndexState, o: Observation): IndexState {
    match o.key
    case "mysql.index.reads" => if o.number.Some? then s.(readCount := o.number) else s
    case "mysql.index.primary" => if o.boolean.Some? then s.(primary := o.boolean) else s
    case "mysql.index.unique" => if o.boolean.Some? then s.(unique := o.boolean) else s
    case "mysql.index.table" => if o.text.Some? then s.(table := o.text) else s
    case "mysql.index.columns" => if o.text.Some? then s.(columns := o.text) else s
    case "mysql.index.signature" => if o.text.Some? then s.(signature := o.text) else s
    case _ => s
  }

  predicate Concerns(o: Observation, id: string) {
    o.obj.kind == INDEX_KIND && o.obj.id == id
  }

  /** The last text, flag or number reported for an index under a key. */
  ghost function LastOf<T>(obs: seq<Observation>, id: string, key: string, f: Observation -> Option<T>): Option<T> {
    if obs == [] then None
    else
      var o := obs[|obs| - 1];
      if Concerns(o, id) && o.key == key && f(o).Some? then f(o) else LastOf(obs[..|obs| - 1], id, key, f)
  }

  function TextOf(o: Observation): Option<string> { o.text }

  function FlagOf(o: Observation): Option<bool> { o.boolean }

  function NumberOf(o: Observation): Option<real> { o.number }

  ghost predicate IsStateOf(s: IndexState, obs: seq<Observation>, id: string) {
    && s.obj == Ref(INDEX_KIND, id)
    && s.readCount == LastOf(obs, id, "mysql.index.reads", NumberOf)
    && s.primary == LastOf(obs, id, "mysql.index.primary", FlagOf)
    && s.unique == LastOf(obs, id, "mysql.index.unique", FlagOf)
    && s.table == LastOf(obs, id, "mysql.index.table", TextOf)
    && s.columns == LastOf(obs, id, "mysql.index.columns", TextOf)
    && s.signature == LastOf(obs, id, "mysql.index.signature", TextOf)
  }

  ghost predicate AreStatesOf(m: States, obs: seq<Observation>) {
    forall id ::
      if exists i :: 0 <= i < |obs| && Concerns(obs[i], id) then id in m && IsStateOf(m[id], obs, id)
      else id !in m && IsStateOf(Blank(id), obs, id)
  }

  function Blank(id: string): IndexState {
    IndexState(Ref(INDEX_KIND, id), None, None, None, None, None, None)
  }

  lemma LastOfStep<T>(obs: seq<Observation>, o: Observation, id: string, key: string, f: Observation -> Option<T>)
    ensures LastOf(obs + [o], id, key, f) ==
      if Concerns(o, id) && o.key == key && f(o).Some? then f(o) else LastOf(obs, id, key, f)
  {
    assert (obs + [o])[..|obs|] == obs;
  }

  lemma ObserveStep(s: IndexState, obs: seq<Observation>, o: Observation, id: string)
    requires IsStateOf(s, obs, id)
    ensures IsStateOf(if Concerns(o, id) then Observe(s, o) else s, obs + [o], id)
  {
    LastOfStep(obs, o, id, "mysql.index.reads", NumberOf);
    LastOfStep(obs, o, id, "mysql.index.primary", FlagOf);
    LastOfStep(obs, o, id, "mysql.index.unique", FlagOf);
    LastOfStep(obs, o, id, "mysql.index.table", TextOf);
    LastOfStep(obs, o, id, "mysql.index.columns", TextOf);
    LastOfStep(obs, o, id, "mysql.index.signature", TextOf);
  }

  lemma StatesStep(m: States, obs: seq<Observation>, o: Observation, next: States)
    requires AreStatesOf(m, obs)
    requires next == if o.obj.kind == INDEX_KIND
      then m[o.obj.id := Observe(if o.obj.id in m then m[o.obj.id] else Blank(o.obj.id), o)] else m
    ensures AreStatesOf(next, obs + [o])
  {
    forall id
      ensures if exists i :: 0 <= i < |obs + [o]| && Concerns((obs + [o])[i], id)
        then id in next && IsStateOf(next[id], obs + [o], id)
        else id !in next && IsStateOf(Blank(id), obs + [o], id)
    {
      ObserveStep(if id in m then m[id] else Blank(id), obs, o, id);
      if i :| 0 <= i < |obs| && Concerns(obs[i], id) {
        assert Concerns((obs + [o])[i], id);
      }
      assert Concerns(o, id) ==> Concerns((obs + [o])[|obs|], id);
    }
  }

  function Next(m: States, o: Observation): States {
    if o.obj.kind != INDEX_KIND then m
    else m[o.obj.id := Observe(if o.obj.id in m then m[o.obj.id] else Blank(o.obj.id), o)]
  }

  /** The states after more observations. */
  function After(m: States, obs: seq<Observation>): States {
    if obs == [] then m else Next(After(m, obs[..|obs| - 1]), obs[|obs| - 1])
  }

  lemma {:induction false} AfterAppend(m: States, a: seq<Observation>, b: seq<Observation>)
    ensures After(m, a + b) == After(After(m, a), b)
  {
    if b == [] {
      assert a + b == a;
    } else {
      AfterAppend(m, a, b[..|b| - 1]);
      assert (a + b)[..|a + b| - 1] == a + b[..|b| - 1];
    }
  }

  lemma {:induction false} AfterIsStates(obs: seq<Observation>)
    ensures AreStatesOf(After(map[], obs), obs)
  {
    if obs != [] {
      var front, o := obs[..|obs| - 1], obs[|obs| - 1];
      AfterIsStates(front);
      StatesStep(After(map[], front), front, o, After(map[], obs));
      assert obs == front + [o];
    }
  }

  /** The states after all observations, which are the states of the observations. */
  method IndexStates(obs: seq<Observation>) returns (m: States)
    ensures m == After(map[], obs) && AreStatesOf(m, obs)
  {
    m := map[];
    for i := 0 to |obs|
      invariant m == After(map[], obs[..i])
    {
      var o := obs[i];
      if o.obj.kind == INDEX_KIND {
        var s := if o.obj.id in m then m[o.obj.id] else Blank(o.obj.id);
        m := m[o.obj.id := Observe(s, o)];
      }
      assert obs[..i + 1][..i] == obs[..i];
    }
    assert obs[..|obs|] == obs;
    AfterIsStates(obs);
  }

  // ---- the rule -------------------------------------------------------------------------------

  predicate Complete(s: IndexState) {
    s.primary.Some? && s.unique.Some? && s.table.Some? && s.columns.Some?
  }

  /** Indexes the rule may name as the longer one. */
  predicate Plain(s: IndexState) {
    Complete(s) && !s.primary.value && !s.unique.value
  }

  /** Indexes the rule may report. */
  predicate Candidate(s: IndexState) {
    Plain(s) && s.columns.value != "" && s.table.value != ""
  }

  predicate Extends(a: IndexState, b: IndexState)
    requires Plain(a) && Plain(b)
  {
    if a.signature.Some? && b.signature.Some? then TextExtends(a.signature.value, b.signature.value, ";")
    else TextExtends(a.columns.value, b.columns.value, ",")
  }

  /** The rule's reason to report x: its key is a left prefix of y's. */
  predicate Reason(m: States, x: string, y: string) {
    && x in m && y in m && x != y
    && Candidate(m[x]) && Plain(m[y]) && m[x].table == m[y].table
    && Extends(m[x], m[y])
  }

  predicate Flagged(m: States, x: string) {
    exists y | y in m.Keys :: Reason(m, x, y)
  }

  /** y is the first reason to report x, in id order. */
  ghost predicate IsFirstReason(m: States, x: string, y: string) {
    Reason(m, x, y) && forall z | Text.Less(z, y) :: !Reason(m, x, z)
  }

  /** The reports are, in id order, exactly the flagged indexes, each with its first reason. */
  ghost predicate IsReport(m: States, out: seq<(string, string)>) {
    && (forall i, j | 0 <= i < j < |out| :: Text.Less(out[i].0, out[j].0))
    && (forall i | 0 <= i < |out| :: IsFirstReason(m, out[i].0, out[i].1))
    && (forall x :: Flagged(m, x) <==> exists i :: 0 <= i < |out| && out[i].0 == x)
  }

  /** The same for the ids looked at so far. */
  ghost predicate IsReportFor(m: States, ids: seq<string>, out: seq<(string, string)>) {
    && (forall i, j | 0 <= i < j < |out| :: Text.Less(out[i].0, out[j].0))
    && (forall i | 0 <= i < |out| :: IsFirstReason(m, out[i].0, out[i].1) && out[i].0 in ids)
    && (forall x | x in ids && Flagged(m, x) :: exists i :: 0 <= i < |out| && out[i].0 == x)
  }

  lemma ReportStaysSorted(ids: seq<string>, i: nat, out: seq<(string, string)>, y: string)
    requires Increasing(ids) && i < |ids| && forall k | 0 <= k < |out| :: out[k].0 in ids[..i]
    requires forall k, l | 0 <= k < l < |out| :: Text.Less(out[k].0, out[l].0)
    ensures var next := out + [(ids[i], y)];
      forall k, l | 0 <= k < l < |next| :: Text.Less(next[k].0, next[l].0)
  {
    forall k | 0 <= k < |out| ensures Text.Less(out[k].0, ids[i]) {
      var l :| 0 <= l < i && ids[..i][l] == out[k].0;
    }
  }

  lemma ReportOneMore(m: States, ids: seq<string>, i: nat, out: seq<(string, string)>, longer: Option<string>)
    requires Increasing(ids) && i < |ids| && IsReportFor(m, ids[..i], out)
    requires longer.Some? ==> IsFirstReason(m, ids[i], longer.value)
    requires longer.None? ==> !Flagged(m, ids[i])
    ensures IsReportFor(m, ids[..i + 1], if longer.Some? then out + [(ids[i], longer.value)] else out)
  {
    assert ids[..i + 1] == ids[..i] + [ids[i]];
    if longer.Some? {
      var next := out + [(ids[i], longer.value)];
      ReportStaysSorted(ids, i, out, longer.value);
      forall x | x in ids[..i + 1] && Flagged(m, x) ensures exists k :: 0 <= k < |next| && next[k].0 == x {
        if x in ids[..i] {
          var k :| 0 <= k < |out| && out[k].0 == x;
          assert next[k].0 == x;
        } else {
          assert next[|out|].0 == x;
        }
      }
    }
  }

  /** The outer loop over the sorted ids. */
  method Report(m: States) returns (out: seq<(string, string)>)
    ensures IsReport(m, out)
  {
    var ids := SortedKeys(m.Keys);
    out := [];
    for i := 0 to |ids|
      invariant IsReportFor(m, ids[..i], out)
    {
      var longer := None;
      if Candidate(m[ids[i]]) {
        longer := FirstReason(m, ids, ids[i]);
      }
      ReportOneMore(m, ids, i, out, longer);
      if longer.Some? {
        out := out + [(ids[i], longer.value)];
      }
    }
    assert ids[..|ids|] == ids;
    assert forall i | 0 <= i < |out| :: Flagged(m, out[i].0);
  }

  // ---- what the reports say about the observations --------------------------------------------

  /** What was last observed of an index says that it is neither primary nor unique. */
  ghost predicate Ordinary(obs: seq<Observation>, id: string) {
    && LastOf(obs, id, "mysql.index.primary", FlagOf) == Some(false)
    && LastOf(obs, id, "mysql.index.unique", FlagOf) == Some(false)
  }

  ghost function LastText(obs: seq<Observation>, id: string, key: string): Option<string> {
    LastOf(obs, id, key, TextOf)
  }

  /** y's key text continues x's after a separator: the signatures if both have one, else the columns. */
  ghost predicate Continues(obs: seq<Observation>, x: string, y: string) {
    var s, t := LastText(obs, x, "mysql.index.signature"), LastText(obs, y, "mysql.index.signature");
    var c, d := LastText(obs, x, "mysql.index.columns"), LastText(obs, y, "mysql.index.columns");
    if s.Some? && t.Some? then s.value + ";" <= t.value else c.Some? && d.Some? && c.value + "," <= d.value
  }

  /** Two indexes of one table, neither primary nor unique, the second with the longer key. */
  ghost predicate MakesRedundant(obs: seq<Observation>, x: string, y: string) {
    var t, c := LastText(obs, x, "mysql.index.table"), LastText(obs, x, "mysql.index.columns");
    && Ordinary(obs, x) && Ordinary(obs, y)
    && t.Some? && t.value != "" && LastText(obs, y, "mysql.index.table") == t
    && c.Some? && c.value != "" && LastText(obs, y, "mysql.index.columns").Some?
    && x != y && Continues(obs, x, y)
  }

  /** The reports are, in id order, exactly the indexes that another makes redundant, each with the first
      one that does. */
  ghost predicate IsReportOn(obs: seq<Observation>, out: seq<(string, string)>) {
    && (forall i, j | 0 <= i < j < |out| :: Text.Less(out[i].0, out[j].0))
    && (forall i | 0 <= i < |out| :: MakesRedundant(obs, out[i].0, out[i].1))
    && (forall i, z | 0 <= i < |out| && MakesRedundant(obs, out[i].0, z) :: z == out[i].1 || Text.Less(out[i].1, z))
    && (forall x, y | MakesRedundant(obs, x, y) :: exists i :: 0 <= i < |out| && out[i].0 == x)
  }

  lemma {:induction false} LastIsObserved<T>(obs: seq<Observation>, id: string, key: string, f: Observation -> Option<T>)
    requires LastOf(obs, id, key, f).Some?
    ensures exists i :: 0 <= i < |obs| && Concerns(obs[i], id)
  {
    var n := |obs| - 1;
    if !(Concerns(obs[n], id) && obs[n].key == key && f(obs[n]).Some?) {
      LastIsObserved(obs[..n], id, key, f);
      var i :| 0 <= i < n && Concerns(obs[..n][i], id);
      assert Concerns(obs[i], id);
    }
  }

  lemma TextExtendsMeaning(short: string, long: string, separator: string)
    requires separator != ""
    ensures TextExtends(short, long, separator) <==> short + separator <= long
  {
  }

  lemma ObservedState(m: States, obs: seq<Observation>, id: string)
    requires AreStatesOf(m, obs)
    ensures id in m ==> IsStateOf(m[id], obs, id)
    ensures LastOf(obs, id, "mysql.index.primary", FlagOf).Some? ==> id in m
  {
    if LastOf(obs, id, "mysql.index.primary", FlagOf).Some? {
      LastIsObserved(obs, id, "mysql.index.primary", FlagOf);
    }
  }

  lemma ReasonOfStates(m: States, obs: seq<Observation>, x: string, y: string)
    requires x in m && y in m && IsStateOf(m[x], obs, x) && IsStateOf(m[y], obs, y)
    ensures Reason(m, x, y) <==> MakesRedundant(obs, x, y)
  {
    var a, b := m[x], m[y];
    if a.signature.Some? && b.signature.Some? {
      TextExtendsMeaning(a.signature.value, b.signature.value, ";");
    }
    if a.columns.Some? && b.columns.Some? {
      TextExtendsMeaning(a.columns.value, b.columns.value, ",");
    }
  }

  lemma ReasonMeaning(m: States, obs: seq<Observation>, x: string, y: string)
    requires AreStatesOf(m, obs)
    ensures Reason(m, x, y) <==> MakesRedundant(obs, x, y)
  {
    ObservedState(m, obs, x);
    ObservedState(m, obs, y);
    if x in m && y in m {
      ReasonOfStates(m, obs, x, y);
    }
  }

  lemma ReportMeaning(m: States, obs: seq<Observation>, out: seq<(string, string)>)
    requires AreStatesOf(m, obs) && IsReport(m, out)
    ensures IsReportOn(obs, out)
  {
    forall x, y ensures Reason(m, x, y) <==> MakesRedundant(obs, x, y) {
      ReasonMeaning(m, obs, x, y);
    }
    ReportOnReasons(m, (x, y) => MakesRedundant(obs, x, y), out);
  }

  lemma ReportOnReasons(m: States, redundant: (string, string) -> bool, out: seq<(string, string)>)
    requires IsReport(m, out) && forall x, y :: Reason(m, x, y) <==> redundant(x, y)
    ensures forall i | 0 <= i < |out| :: redundant(out[i].0, out[i].1)
    ensures forall i, z | 0 <= i < |out| && redundant(out[i].0, z) :: z == out[i].1 || Text.Less(out[i].1, z)
    ensures forall x, y | redundant(x, y) :: exists i :: 0 <= i < |out| && out[i].0 == x
  {
    forall i, z | 0 <= i < |out| && redundant(out[i].0, z) ensures z == out[i].1 || Text.Less(out[i].1, z) {
      Text.LessTotal(z, out[i].1);
    }
    forall x, y | redundant(x, y) ensures exists i :: 0 <= i < |out| && out[i].0 == x {
      assert Flagged(m, x);
    }
  }

  method Evaluate(obs: seq<Observation>) returns (out: seq<(string, string)>)
    ensures forall m | AreStatesOf(m, obs) :: IsReport(m, out)
    ensures IsReport(After(map[], obs), out) && IsReportOn(obs, out)
  {
    var m := IndexStates(obs);
    out := Report(m);
    forall n | AreStatesOf(n, obs) ensures n == m {
      SameStates(m, n, obs);
    }
    ReportMeaning(m, obs, out);
  }

  lemma SameStates(m: States, n: States, obs: seq<Observation>)
    requires AreStatesOf(m, obs) && AreStatesOf(n, obs)
    ensures m == n
  {
    forall id ensures id in m <==> id in n {
    }
    forall id | id in m ensures m[id] == n[id] {
    }
  }

  /** The inner loop: the first index in id order that makes x redundant. */
  method FirstReason(m: States, ids: seq<string>, x: string) returns (longer: Option<string>)
    requires x in m && Candidate(m[x])
    requires Increasing(ids) && forall y :: y in ids <==> y in m
    ensures longer.None? ==> !Flagged(m, x)
    ensures longer.Some? ==> IsFirstReason(m, x, longer.value)
  {
    for i := 0 to |ids|
      invariant forall y | y in ids[..i] :: !Reason(m, x, y)
    {
      if x != ids[i] {
        var a, b := m[x], m[ids[i]];
        if Plain(b) && a.table == b.table {
          if Extends(a, b) {
            forall z | Text.Less(z, ids[i]) ensures !Reason(m, x, z) {
              if z in m {
                IncreasingBefore(ids, i, z);
              }
            }
            return Some(ids[i]);
          }
        }
      }
      assert ids[..i + 1] == ids[..i] + [ids[i]];
    }
    assert ids[..|ids|] == ids;
    return None;
  }

  // ---- what the reports are good for ----------------------------------------------------------

  /** No two indexes are each other's reason. */
  lemma NoMutualReasons(m: States, x: string, y: string)
    ensures !(Reason(m, x, y) && Reason(m, y, x))
  {
  }

  /** With signatures of well-formed columns on both sides, the reason is a proper prefix of columns. */
  lemma ReasonIsColumnPrefix(m: States, x: string, y: string, a: seq<Part>, b: seq<Part>)
    requires x in m && y in m && x != y && Candidate(m[x]) && Plain(m[y]) && m[x].table == m[y].table
    requires a != [] && AllWellFormed(a) && AllWellFormed(b)
    requires m[x].signature == Some(Signature(a)) && m[y].signature == Some(Signature(b))
    ensures Reason(m, x, y) <==> |a| < |b| && a <= b
  {
    PrefixTestIsExact(a, b);
  }

  /** x may be dropped as the report suggests: some index that is not itself reported serves its key. */
  ghost predicate Covered(m: States, x: string) {
    exists y :: Reason(m, x, y) && !Flagged(m, y)
  }

  ghost function PlainOn(m: States, table: string): set<string> {
    set x | x in m && Plain(m[x]) && m[x].table.value == table
  }

  ghost function Signed(m: States, table: string): set<string> {
    set x | x in PlainOn(m, table) && m[x].signature.Some?
  }

  /** On a table, either every plain index carries a signature or at most one does. */
  ghost predicate Uniform(m: States, table: string) {
    Signed(m, table) == PlainOn(m, table) || |Signed(m, table)| <= 1
  }

  /** The key the rule compares on a uniform table. */
  ghost function KeyOn(m: States, table: string, x: string): string
    requires x in PlainOn(m, table)
  {
    if Signed(m, table) == PlainOn(m, table) && |PlainOn(m, table)| > 1 then m[x].signature.value else m[x].columns.value
  }

  ghost function SeparatorOn(m: States, table: string): string {
    if Signed(m, table) == PlainOn(m, table) && |PlainOn(m, table)| > 1 then ";" else ","
  }

  lemma TwoMembers<T>(s: set<T>, x: T, y: T)
    requires x in s && y in s && x != y
    ensures |s| > 1
  {
    assert {x, y} <= s;
    assert s == {x, y} + (s - {x, y});
    assert |{x, y}| == 2;
  }

  lemma UniformKey(m: States, table: string, x: string, y: string)
    requires Uniform(m, table) && x in PlainOn(m, table) && y in PlainOn(m, table) && x != y
    ensures Extends(m[x], m[y]) <==> TextExtends(KeyOn(m, table, x), KeyOn(m, table, y), SeparatorOn(m, table))
  {
    TwoMembers(PlainOn(m, table), x, y);
    if m[x].signature.Some? && m[y].signature.Some? {
      TwoMembers(Signed(m, table), x, y);
    }
  }

  lemma ExtendsTransitive(a: string, b: string, c: string, separator: string)
    requires TextExtends(a, b, separator) && TextExtends(b, c, separator)
    ensures TextExtends(a, c, separator)
  {
    assert a + separator <= b <= c;
  }

  /** On a uniform table every reported index is covered. */
  lemma {:induction false} UniformIsSafe(m: States, x: string, y: string)
    requires Reason(m, x, y) && Uniform(m, m[x].table.value)
    ensures Covered(m, x)
    decreases PlainOn(m, m[x].table.value) - Below(m, m[x].table.value, y)
  {
    var table := m[x].table.value;
    if z :| z in m && Reason(m, y, z) {
      UniformKey(m, table, x, y);
      UniformKey(m, table, y, z);
      ExtendsTransitive(KeyOn(m, table, x), KeyOn(m, table, y), KeyOn(m, table, z), SeparatorOn(m, table));
      UniformKey(m, table, x, z);
      assert y in Below(m, table, z) - Below(m, table, y);
      UniformIsSafe(m, x, z);
    }
  }

  /** The plain indexes of a table with a key shorter than y's. */
  ghost function Below(m: States, table: string, y: string): set<string>
    requires y in PlainOn(m, table)
  {
    set x | x in PlainOn(m, table) && |KeyOn(m, table, x)| < |KeyOn(m, table, y)|
  }
}
