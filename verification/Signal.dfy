/** The values that collectors, planner, history and rules exchange. */
module Signal {
  import Clock
  import Text
  import opened Lists

  /** sdk/object.Ref */
  datatype Ref = Ref(kind: string, id: string)

  const EXACTNESS_CUMULATIVE := "cumulative"
  const EXACTNESS_SAMPLED := "sampled"
  const SENSITIVITY_QUERY_TEXT := "query_text"

  /** sdk/signal.Observation; a nil pointer is None. */
  datatype Observation = Observation(
    key: string,
    obj: Ref,
    unit: string,
    exactness: string,
    number: Option<real>,
    text: Option<string>,
    boolean: Option<bool>,
    collectedAt: Clock.Time,
    sensitivity: string,
    source: string,
    reason: string)

  /** sdk/signal.Delta */
  datatype Delta = Delta(
    key: string,
    obj: Ref,
    unit: string,
    delta: real,
    ratePerSecond: real,
    windowSeconds: real,
    exactness: string)

  /** The key, kind and id of an object's signal in one string. */
  function SignalIdentity(key: string, obj: Ref): string {
    key + "|" + obj.kind + "|" + obj.id
  }

  function Identity(o: Observation): string {
    SignalIdentity(o.key, o.obj)
  }

  function ObjectIdentity(obj: Ref): string {
    obj.kind + "|" + obj.id
  }

  /** The separator does not confuse two objects as long as their kinds do not contain it. */
  lemma ObjectIdentityInjective(a: Ref, b: Ref)
    requires '|' !in a.kind && '|' !in b.kind
    ensures ObjectIdentity(a) == ObjectIdentity(b) <==> a == b
  {
    if ObjectIdentity(a) == ObjectIdentity(b) {
      Text.SplitFirst(a.kind, a.id, b.kind, b.id, '|');
    }
  }

  /** Nor two signals, as long as their keys do not contain it either; ids may. */
  lemma SignalIdentityInjective(k: string, a: Ref, l: string, b: Ref)
    requires '|' !in k && '|' !in l && '|' !in a.kind && '|' !in b.kind
    ensures SignalIdentity(k, a) == SignalIdentity(l, b) <==> k == l && a == b
  {
    if SignalIdentity(k, a) == SignalIdentity(l, b) {
      assert SignalIdentity(k, a) == k + "|" + ObjectIdentity(a);
      assert SignalIdentity(l, b) == l + "|" + ObjectIdentity(b);
      Text.SplitFirst(k, ObjectIdentity(a), l, ObjectIdentity(b), '|');
      ObjectIdentityInjective(a, b);
    }
  }

  /** With the separator in a kind, two different objects share an identity. */
  lemma IdentityCollision()
    ensures var a, b := Ref("x|y", "z"), Ref("x", "y|z");
      a != b && ObjectIdentity(a) == ObjectIdentity(b) && SignalIdentity("k", a) == SignalIdentity("k", b)
  {
    assert "x|y" + "|" + "z" == "x" + "|" + "y|z";
    assert "k" + "|" + "x|y" + "|" + "z" == "k" + "|" + "x" + "|" + "y|z";
    assert "x|y"[1] == '|';
    assert |"x|y"| == 3 && |"x"| == 1;
  }
}
