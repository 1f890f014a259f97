/**
  The allow-list filter for MySQL JSON plans.  A number is kept as its text, as json.Number does;
  the decoder and the encoder are not part of the model.
 */
module PlanSanitizer {
  import opened Lists

  datatype Json =
    | Null
    | Bool(b: bool)
    | Number(text: string)
    | String(s: string)
    | Array(items: seq<Json>)
    | Object(fields: map<string, Json>)
  {
    predicate Scalar() {
      !Array? && !Object?
    }
  }

  const SAFE_STRING_KEYS: set<string> := {
    "access_type", "data_read_per_join", "eval_cost", "key", "key_length", "prefix_cost",
    "query_cost", "read_cost", "schema_name", "sort_cost", "table_name", "using_join_buffer"
  }

  const SAFE_STRING_SLICE_KEYS: set<string> := { "possible_keys", "used_columns", "used_key_parts" }

  const SAFE_NUMBER_KEYS: set<string> := {
    "select_id", "rows_examined_per_scan", "rows_produced_per_join", "filtered", "rows_for_plan", "rows_to_scan"
  }

  const SAFE_BOOL_KEYS: set<string> := {
    "using_index", "using_index_condition", "using_temporary_table", "using_filesort",
    "dependent", "cacheable", "using_mrr"
  }

  const MAX_PLAN_BYTES := 0x10_0000

  /** Whether a scalar may stay under a key, as a field (`inArray` false) or an array element. */
  predicate Allowed(key: string, inArray: bool, v: Json) {
    match v
    case String(_) => key in (if inArray then SAFE_STRING_SLICE_KEYS else SAFE_STRING_KEYS)
    case Number(_) => key in SAFE_NUMBER_KEYS
    case Bool(_) => key in SAFE_BOOL_KEYS
    case _ => false
  }

  // ---- what the filter computes ---------------------------------------------------------------

  /** sanitizePlanValue; None is nil. */
  function Clean(key: string, v: Json): (r: Option<Json>)
    decreases v, 1
  {
    match v
    case Object(fields) =>
      var out := map k | k in fields && CleanField(k, fields[k]).Some? :: CleanField(k, fields[k]).value;
      if out == map[] then None else Some(Object(out))
    case Array(items) => Some(Array(CleanItems(key, items)))
    case _ => if Allowed(key, false, v) then Some(v) else None
  }

  /** A field of an object: an array that ends up empty goes away. */
  function CleanField(key: string, v: Json): Option<Json>
    decreases v, 2
  {
    if v.Array? then
      var items := CleanItems(key, v.items);
      if items == [] then None else Some(Array(items))
    else Clean(key, v)
  }

  /** An element of an array: an array that ends up empty stays. */
  function CleanItem(key: string, v: Json): Option<Json>
    decreases v, 2
  {
    if v.String? then (if Allowed(key, true, v) then Some(v) else None) else Clean(key, v)
  }

  /** sanitizePlanSlice */
  function CleanItems(key: string, items: seq<Json>): (r: seq<Json>)
    decreases items, 0
  {
    if items == [] then [] else
      var last := CleanItem(key, items[|items| - 1]);
      CleanItems(key, items[..|items| - 1]) + (if last.Some? then [last.value] else [])
  }

  lemma ItemsStep(key: string, items: seq<Json>, i: nat)
    requires i < |items|
    ensures var c := CleanItem(key, items[i]);
      CleanItems(key, items[..i + 1]) == CleanItems(key, items[..i]) + (if c.Some? then [c.value] else [])
  {
    assert items[..i + 1][..i] == items[..i];
  }

  /** The loops of the filter compute exactly `Clean`. */
  method SanitizePlanValue(key: string, value: Json) returns (r: Option<Json>)
    ensures r == Clean(key, value)
    decreases value, 1
  {
    match value {
      case Object(fields) =>
        var out: map<string, Json> := map[];
        var left := fields.Keys;
        while left != {}
          invariant left <= fields.Keys
          invariant out == map k | k in fields.Keys - left && CleanField(k, fields[k]).Some? :: CleanField(k, fields[k]).value
          decreases left
        {
          var k :| k in left;
          var cleaned: Option<Json>;
          if fields[k].Array? {
            var items := SanitizePlanSlice(k, fields[k].items);
            cleaned := if |items| > 0 then Some(Array(items)) else None;
          } else {
            cleaned := SanitizePlanValue(k, fields[k]);
          }
          left := left - {k};
          if cleaned.Some? {
            out := out[k := cleaned.value];
          }
        }
        assert out == map k | k in fields && CleanField(k, fields[k]).Some? :: CleanField(k, fields[k]).value;
        assert |out| == 0 <==> out == map[];
        r := if |out| == 0 then None else Some(Object(out));
      case Array(items) =>
        var cleaned := SanitizePlanSlice(key, items);
        r := Some(Array(cleaned));
      case String(_) =>
        r := if key in SAFE_STRING_KEYS then Some(value) else None;
      case Number(_) =>
        r := if key in SAFE_NUMBER_KEYS then Some(value) else None;
      case Bool(_) =>
        r := if key in SAFE_BOOL_KEYS then Some(value) else None;
      case Null =>
        r := None;
    }
  }

  method SanitizePlanSlice(key: string, values: seq<Json>) returns (out: seq<Json>)
    ensures out == CleanItems(key, values)
    decreases values, 0
  {
    out := [];
    for i := 0 to |values|
      invariant out == CleanItems(key, values[..i])
    {
      ItemsStep(key, values, i);
      if values[i].String? {
        if key in SAFE_STRING_SLICE_KEYS {
          out := out + [values[i]];
        }
      } else {
        var cleaned := SanitizePlanValue(key, values[i]);
        if cleaned.Some? {
          out := out + [cleaned.value];
        }
      }
    }
    assert values[..|values|] == values;
  }

  // ---- a second pass changes nothing ----------------------------------------------------------

  /** Nothing in a cleaned value is cleaned away. */
  lemma {:induction false} CleanIdempotent(key: string, v: Json)
    ensures Clean(key, v).Some? ==> Clean(key, Clean(key, v).value) == Clean(key, v)
    decreases v, 1
  {
    match v
    case Object(fields) =>
      if Clean(key, v).Some? {
        var out := Clean(key, v).value.fields;
        forall k | k in out ensures CleanField(k, out[k]) == Some(out[k]) {
          CleanFieldIdempotent(k, fields[k]);
        }
        FixedFields(key, out);
      }
    case Array(items) => CleanItemsIdempotent(key, items);
    case _ =>
  }

  lemma FixedFields(key: string, out: map<string, Json>)
    requires out != map[] && forall k | k in out :: CleanField(k, out[k]) == Some(out[k])
    ensures Clean(key, Object(out)) == Some(Object(out))
  {
    var again := map k | k in out && CleanField(k, out[k]).Some? :: CleanField(k, out[k]).value;
    assert again == out;
  }

  lemma {:induction false} CleanFieldIdempotent(key: string, v: Json)
    ensures CleanField(key, v).Some? ==> CleanField(key, CleanField(key, v).value) == CleanField(key, v)
    decreases v, 2
  {
    if v.Array? {
      CleanItemsIdempotent(key, v.items);
    } else {
      CleanIdempotent(key, v);
    }
  }

  lemma {:induction false} CleanItemsIdempotent(key: string, items: seq<Json>)
    ensures CleanItems(key, CleanItems(key, items)) == CleanItems(key, items)
    decreases items, 0
  {
    if items != [] {
      var front, last := items[..|items| - 1], items[|items| - 1];
      CleanItemsIdempotent(key, front);
      CleanItemIdempotent(key, last);
      var c := CleanItem(key, last);
      if c.Some? {
        var all := CleanItems(key, front) + [c.value];
        assert all[..|all| - 1] == CleanItems(key, front);
        assert CleanItems(key, all) == CleanItems(key, CleanItems(key, front)) + [c.value];
        assert CleanItems(key, items) == all;
      } else {
        assert CleanItems(key, items) == CleanItems(key, front);
      }
    }
  }

  lemma {:induction false} CleanItemIdempotent(key: string, v: Json)
    ensures CleanItem(key, v).Some? ==> CleanItem(key, CleanItem(key, v).value) == CleanItem(key, v)
    decreases v, 2
  {
    if !v.String? {
      CleanIdempotent(key, v);
      assert Clean(key, v).Some? ==> !Clean(key, v).value.String?;
    }
  }

  // ---- what was dropped leaves no trace -------------------------------------------------------

  /** The same value, except for scalars that the filter drops: each may be any other such scalar. */
  ghost predicate Twins(key: string, inArray: bool, v: Json, w: Json)
    decreases v
  {
    if v.Scalar() && w.Scalar() then
      v == w || (!Allowed(key, inArray, v) && !Allowed(key, inArray, w))
    else if v.Array? && w.Array? then
      |v.items| == |w.items| && forall i | 0 <= i < |v.items| :: Twins(key, true, v.items[i], w.items[i])
    else
      && v.Object? && w.Object? && v.fields.Keys == w.fields.Keys
      && forall k | k in v.fields :: Twins(k, false, v.fields[k], w.fields[k])
  }

  lemma {:induction false} DroppedScalarsDoNotShow(key: string, v: Json, w: Json)
    requires Twins(key, false, v, w)
    ensures Clean(key, v) == Clean(key, w)
    decreases v, 1
  {
    match v
    case Object(fields) =>
      forall k | k in fields ensures CleanField(k, fields[k]) == CleanField(k, w.fields[k]) {
        if fields[k].Array? {
          DroppedItemsDoNotShow(k, fields[k].items, w.fields[k].items);
        } else {
          DroppedScalarsDoNotShow(k, fields[k], w.fields[k]);
        }
      }
      var x := map k | k in fields && CleanField(k, fields[k]).Some? :: CleanField(k, fields[k]).value;
      var y := map k | k in w.fields && CleanField(k, w.fields[k]).Some? :: CleanField(k, w.fields[k]).value;
      assert x == y;
    case Array(items) => DroppedItemsDoNotShow(key, items, w.items);
    case _ =>
  }

  lemma {:induction false} DroppedItemsDoNotShow(key: string, a: seq<Json>, b: seq<Json>)
    requires |a| == |b| && forall i | 0 <= i < |a| :: Twins(key, true, a[i], b[i])
    ensures CleanItems(key, a) == CleanItems(key, b)
    decreases a, 0
  {
    if a != [] {
      var n := |a| - 1;
      DroppedItemsDoNotShow(key, a[..n], b[..n]);
      assert Twins(key, true, a[n], b[n]);
      if !a[n].Scalar() {
        TwinsOutsideArray(key, a[n], b[n]);
        DroppedScalarsDoNotShow(key, a[n], b[n]);
      }
      assert CleanItem(key, a[n]) == CleanItem(key, b[n]);
    }
  }

  lemma TwinsOutsideArray(key: string, v: Json, w: Json)
    requires Twins(key, true, v, w) && !v.Scalar()
    ensures Twins(key, false, v, w)
  {
  }

  // ---- what is kept ---------------------------------------------------------------------------

  /** A scalar of a value, with the field names that lead to it. */
  datatype Leaf = Leaf(path: seq<string>, inArray: bool, scalar: Json)

  ghost predicate AllowedLeaf(l: Leaf) {
    Allowed(if l.path == [] then "" else l.path[|l.path| - 1], l.inArray, l.scalar)
  }

  ghost function Leaves(path: seq<string>, inArray: bool, v: Json): set<Leaf>
    decreases v
  {
    match v
    case Object(fields) => set k, l | k in fields && l in Leaves(path + [k], false, fields[k]) :: l
    case Array(items) => set i, l | 0 <= i < |items| && l in Leaves(path, true, items[i]) :: l
    case _ => {Leaf(path, inArray, v)}
  }

  ghost function Kept(leaves: set<Leaf>): set<Leaf> {
    set l | l in leaves && AllowedLeaf(l)
  }

  ghost function LeavesOf(path: seq<string>, inArray: bool, v: Option<Json>): set<Leaf> {
    if v.None? then {} else Leaves(path, inArray, v.value)
  }

  /** The cleaned plan holds, under the same names, exactly the allow-listed scalars of the plan. */
  lemma {:induction false} KeptExactly(path: seq<string>, key: string, v: Json)
    requires path != [] ==> path[|path| - 1] == key
    requires path == [] ==> key == ""
    ensures LeavesOf(path, false, Clean(key, v)) == Kept(Leaves(path, false, v))
    decreases v, 1
  {
    match v
    case Object(fields) =>
      var out := map k | k in fields && CleanField(k, fields[k]).Some? :: CleanField(k, fields[k]).value;
      forall k | k in fields
        ensures LeavesOf(path + [k], false, CleanField(k, fields[k])) == Kept(Leaves(path + [k], false, fields[k]))
      {
        KeptExactlyInField(path + [k], k, fields[k]);
      }
      ObjectLeaves(path, fields, out);
      if out == map[] {
        assert Leaves(path, false, Object(out)) == {};
      }
    case Array(items) => KeptExactlyInItems(path, key, items);
    case _ =>
  }

  lemma ObjectLeaves(path: seq<string>, fields: map<string, Json>, out: map<string, Json>)
    requires forall k :: k in out <==> k in fields && CleanField(k, fields[k]).Some?
    requires forall k | k in out :: CleanField(k, fields[k]) == Some(out[k])
    requires forall k | k in fields ::
      LeavesOf(path + [k], false, CleanField(k, fields[k])) == Kept(Leaves(path + [k], false, fields[k]))
    ensures Leaves(path, false, Object(out)) == Kept(Leaves(path, false, Object(fields)))
  {
    forall l ensures l in Leaves(path, false, Object(out)) <==> l in Kept(Leaves(path, false, Object(fields))) {
      if l in Leaves(path, false, Object(out)) {
        var k :| k in out && l in Leaves(path + [k], false, out[k]);
        assert l in LeavesOf(path + [k], false, CleanField(k, fields[k]));
        assert l in Leaves(path + [k], false, fields[k]);
      }
      if l in Kept(Leaves(path, false, Object(fields))) {
        var k :| k in fields && l in Leaves(path + [k], false, fields[k]);
        assert l in LeavesOf(path + [k], false, CleanField(k, fields[k]));
      }
    }
  }

  lemma {:induction false} KeptExactlyInField(path: seq<string>, key: string, v: Json)
    requires path != [] && path[|path| - 1] == key
    ensures LeavesOf(path, false, CleanField(key, v)) == Kept(Leaves(path, false, v))
    decreases v, 2
  {
    if v.Array? {
      KeptExactlyInItems(path, key, v.items);
      assert Leaves(path, false, Array(v.items)) == Leaves(path, false, v);
    } else {
      KeptExactly(path, key, v);
    }
  }

  lemma {:induction false} KeptExactlyInItems(path: seq<string>, key: string, items: seq<Json>)
    requires path != [] ==> path[|path| - 1] == key
    requires path == [] ==> key == ""
    ensures Leaves(path, false, Array(CleanItems(key, items))) == Kept(Leaves(path, false, Array(items)))
    decreases items, 0
  {
    if items == [] {
      assert Leaves(path, false, Array([])) == {};
    } else {
      var front, last := items[..|items| - 1], items[|items| - 1];
      KeptExactlyInItems(path, key, front);
      KeptExactlyInItem(path, key, last);
      ArrayLeaves(path, front, last);
      KeptUnion(Leaves(path, false, Array(front)), Leaves(path, true, last));
      assert items == front + [last];
      var c := CleanItem(key, last);
      if c.Some? {
        ArrayLeaves(path, CleanItems(key, front), c.value);
        assert CleanItems(key, items) == CleanItems(key, front) + [c.value];
      } else {
        assert CleanItems(key, items) == CleanItems(key, front);
      }
    }
  }

  lemma KeptUnion(a: set<Leaf>, b: set<Leaf>)
    ensures Kept(a + b) == Kept(a) + Kept(b)
  {
  }

  lemma ArrayLeaves(path: seq<string>, front: seq<Json>, last: Json)
    ensures Leaves(path, false, Array(front + [last])) == Leaves(path, false, Array(front)) + Leaves(path, true, last)
  {
    var all := front + [last];
    forall l | l in Leaves(path, false, Array(front)) + Leaves(path, true, last) ensures l in Leaves(path, false, Array(all)) {
      if i :| 0 <= i < |front| && l in Leaves(path, true, front[i]) {
        assert all[i] == front[i];
      } else {
        assert all[|front|] == last;
      }
    }
  }

  lemma {:induction false} KeptExactlyInItem(path: seq<string>, key: string, v: Json)
    requires path != [] ==> path[|path| - 1] == key
    requires path == [] ==> key == ""
    ensures LeavesOf(path, true, CleanItem(key, v)) == Kept(Leaves(path, true, v))
    decreases v, 2
  {
    if !v.Scalar() {
      KeptExactly(path, key, v);
      assert Clean(key, v).Some? ==> !Clean(key, v).value.Scalar();
      LeavesOfContainers(path, v);
      if Clean(key, v).Some? {
        LeavesOfContainers(path, Clean(key, v).value);
      }
    }
  }

  lemma LeavesOfContainers(path: seq<string>, v: Json)
    requires !v.Scalar()
    ensures Leaves(path, true, v) == Leaves(path, false, v)
  {
  }

  // ---- when there is safe metadata ------------------------------------------------------------

  /** Some array has an array among its elements. */
  ghost predicate HasNestedArray(v: Json)
    decreases v
  {
    match v
    case Object(fields) => exists k :: k in fields && HasNestedArray(fields[k])
    case Array(items) => exists i :: 0 <= i < |items| && (items[i].Array? || HasNestedArray(items[i]))
    case _ => false
  }

  ghost predicate HasAllowedLeaf(path: seq<string>, inArray: bool, v: Json) {
    exists l :: l in Leaves(path, inArray, v) && AllowedLeaf(l)
  }

  /** Something of a field survives exactly when it holds an allow-listed scalar or an array directly
      inside an array. */
  lemma {:induction false} FieldSurvives(path: seq<string>, key: string, v: Json)
    requires path != [] && path[|path| - 1] == key
    ensures CleanField(key, v).Some? <==> HasAllowedLeaf(path, false, v) || HasNestedArray(v)
    decreases v, 2
  {
    if v.Array? {
      ItemsSurvive(path, key, v.items);
      assert Array(v.items) == v;
    } else if v.Object? {
      ObjectSurvives(path, key, v);
    } else {
      assert Leaf(path, false, v) in Leaves(path, false, v);
    }
  }

  lemma {:induction false} ObjectSurvives(path: seq<string>, key: string, v: Json)
    requires v.Object?
    ensures Clean(key, v).Some? <==> HasAllowedLeaf(path, false, v) || HasNestedArray(v)
    decreases v, 1
  {
    var fields := v.fields;
    var out := map k | k in fields && CleanField(k, fields[k]).Some? :: CleanField(k, fields[k]).value;
    forall k | k in fields
      ensures CleanField(k, fields[k]).Some? <==> HasAllowedLeaf(path + [k], false, fields[k]) || HasNestedArray(fields[k])
    {
      FieldSurvives(path + [k], k, fields[k]);
    }
    if Clean(key, v).Some? {
      var k :| k in out;
      if l :| l in Leaves(path + [k], false, fields[k]) && AllowedLeaf(l) {
        assert l in Leaves(path, false, v);
      }
    }
    if HasAllowedLeaf(path, false, v) {
      var l :| l in Leaves(path, false, v) && AllowedLeaf(l);
      var k :| k in fields && l in Leaves(path + [k], false, fields[k]);
      assert k in out;
    }
    if HasNestedArray(v) {
      var k :| k in fields && HasNestedArray(fields[k]);
      assert k in out;
    }
  }

  lemma {:induction false} ItemsSurvive(path: seq<string>, key: string, items: seq<Json>)
    requires path != [] && path[|path| - 1] == key
    ensures CleanItems(key, items) != [] <==> HasAllowedLeaf(path, false, Array(items)) || HasNestedArray(Array(items))
    decreases items, 0
  {
    if items == [] {
      assert Leaves(path, false, Array([])) == {};
    } else {
      var front, last := items[..|items| - 1], items[|items| - 1];
      assert items == front + [last];
      ItemsSurvive(path, key, front);
      ItemSurvives(path, key, last);
      LeafInArray(path, front, last);
      NestedInArray(front, last);
      MoreItems(key, items);
    }
  }

  lemma MoreItems(key: string, items: seq<Json>)
    requires items != []
    ensures CleanItems(key, items) != [] <==>
      CleanItems(key, items[..|items| - 1]) != [] || CleanItem(key, items[|items| - 1]).Some?
  {
  }

  lemma LeafInArray(path: seq<string>, front: seq<Json>, last: Json)
    ensures HasAllowedLeaf(path, false, Array(front + [last])) <==>
      HasAllowedLeaf(path, false, Array(front)) || HasAllowedLeaf(path, true, last)
  {
    ArrayLeaves(path, front, last);
  }

  lemma NestedInArray(front: seq<Json>, last: Json)
    ensures HasNestedArray(Array(front + [last])) <==> HasNestedArray(Array(front)) || last.Array? || HasNestedArray(last)
  {
    var all := front + [last];
    if i :| 0 <= i < |front| && (front[i].Array? || HasNestedArray(front[i])) {
      assert all[i] == front[i];
    }
    assert all[|front|] == last;
  }

  lemma {:induction false} ItemSurvives(path: seq<string>, key: string, v: Json)
    requires path != [] && path[|path| - 1] == key
    ensures CleanItem(key, v).Some? <==> v.Array? || HasAllowedLeaf(path, true, v) || HasNestedArray(v)
    decreases v, 2
  {
    if v.Object? {
      ObjectSurvives(path, key, v);
      LeavesOfContainers(path, v);
    } else if v.Scalar() {
      assert Leaf(path, true, v) in Leaves(path, true, v);
    }
  }

  /** A plan is accepted exactly when its root is an object that holds safe metadata or an array directly
      inside an array; the result then holds exactly the allow-listed scalars, and cleaning it again
      changes nothing. */
  method SanitizeMySQLJSONPlan(size: nat, value: Json) returns (r: Result<Json>)
    ensures r.Ok? <==>
      size <= MAX_PLAN_BYTES && value.Object? && (HasAllowedLeaf([], false, value) || HasNestedArray(value))
    ensures r.Ok? ==> Leaves([], false, r.value) == Kept(Leaves([], false, value))
    ensures r.Ok? ==> Clean("", r.value) == Some(r.value)
  {
    if size > MAX_PLAN_BYTES {
      return Err("MySQL JSON plan exceeds the maximum size");
    }
    if !value.Object? {
      return Err("invalid MySQL JSON plan");
    }
    var sanitized := SanitizePlanValue("", value);
    ObjectSurvives([], "", value);
    KeptExactly([], "", value);
    CleanIdempotent("", value);
    if sanitized.None? || !sanitized.value.Object? || |sanitized.value.fields| == 0 {
      return Err("MySQL JSON plan contains no safe metadata");
    }
    return Ok(sanitized.value);
  }

  /** Directly nested arrays pass the check for safe metadata with nothing in them. */
  lemma NestedArraysPassEmpty(key: string)
    ensures var plan := Object(map[key := Array([Array([])])]);
      && Clean("", plan) == Some(plan)
      && Leaves([], false, plan) == {}
  {
    var inner := Array([Array([])]);
    var plan := Object(map[key := inner]);
    assert [Array([])][..0] == [];
    assert CleanItems(key, [Array([])]) == [Array([])];
    assert CleanField(key, inner) == Some(inner);
    assert key in map[key := inner];
    FixedFields("", map[key := inner]);
    assert Leaves([] + [key], true, Array([])) == {};
    assert Leaves([] + [key], false, inner) == {};
  }
}
