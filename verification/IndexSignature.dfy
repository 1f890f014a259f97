/**
  The text that describes an index's columns: `length:text:subpart:collation` per column,
  joined by semicolons.  Column texts are arbitrary, so they may hold both separators.
 */
module IndexSignature {
  import Text

  /** One indexed column: its text (`col:...`, `expr:...` or `unknown:?`), prefix length and collation. */
  datatype Part = Part(text: string, sub: string, coll: string)

  /** SUB_PART is a number or `full`, COLLATION a letter or `?`: neither holds a separator. */
  predicate WellFormed(p: Part) {
    ':' !in p.sub && ';' !in p.coll
  }

  function Encode(p: Part): (s: string) {
    Text.Decimal(|p.text|) + (":" + (p.text + (":" + (p.sub + (":" + p.coll)))))
  }

  function Signature(ps: seq<Part>): string {
    if ps == [] then "" else Encode(ps[0]) + Tail(ps[1..])
  }

  function Tail(ps: seq<Part>): string {
    if ps == [] then "" else ";" + (Encode(ps[0]) + Tail(ps[1..]))
  }

  predicate AtSeparator(s: string) {
    s == "" || s[0] == ';'
  }

  lemma CollationEnds(a: string, r: string, b: string, s: string)
    requires ';' !in a && ';' !in b && AtSeparator(r) && AtSeparator(s)
    requires a + r == b + s
    ensures a == b && r == s
  {
    var whole := a + r;
    assert forall i | 0 <= i < |a| :: whole[i] == a[i];
    assert forall i | 0 <= i < |b| :: whole[i] == b[i];
    assert |a| < |whole| ==> whole[|a|] == r[0] == ';';
    assert |b| < |whole| ==> whole[|b|] == s[0] == ';';
    assert |a| == |b|;
    Text.Cut(a, r, b, s);
  }

  /** The first part and what follows it can be read off a signature. */
  lemma ParseOne(p: Part, r: string, q: Part, s: string)
    requires WellFormed(p) && WellFormed(q) && AtSeparator(r) && AtSeparator(s)
    requires Encode(p) + r == Encode(q) + s
    ensures p == q && r == s
  {
    var m, n := Text.Decimal(|p.text|), Text.Decimal(|q.text|);
    var x, y := p.text + (":" + (p.sub + (":" + p.coll))), q.text + (":" + (q.sub + (":" + q.coll)));
    Text.DigitsOnly(m, ':');
    Text.DigitsOnly(n, ':');
    assert Encode(p) + r == m + [':'] + (x + r) && Encode(q) + s == n + [':'] + (y + s);
    Text.SplitFirst(m, x + r, n, y + s, ':');
    Text.ValueOfDecimal(|p.text|);
    Text.ValueOfDecimal(|q.text|);
    ParseRest(p, r, q, s);
  }

  lemma ParseRest(p: Part, r: string, q: Part, s: string)
    requires WellFormed(p) && WellFormed(q) && AtSeparator(r) && AtSeparator(s)
    requires |p.text| == |q.text|
    requires p.text + (":" + (p.sub + (":" + p.coll))) + r == q.text + (":" + (q.sub + (":" + q.coll))) + s
    ensures p == q && r == s
  {
    var u, v := p.sub + (":" + p.coll) + r, q.sub + (":" + q.coll) + s;
    assert p.text + (":" + (p.sub + (":" + p.coll))) + r == p.text + (":" + u);
    assert q.text + (":" + (q.sub + (":" + q.coll))) + s == q.text + (":" + v);
    Text.Cut(p.text, ":" + u, q.text, ":" + v);
    Text.Cut(":", u, ":", v);
    assert u == p.sub + [':'] + (p.coll + r) && v == q.sub + [':'] + (q.coll + s);
    Text.SplitFirst(p.sub, p.coll + r, q.sub, q.coll + s, ':');
    CollationEnds(p.coll, r, q.coll, s);
  }

  ghost predicate AllWellFormed(ps: seq<Part>) {
    forall i | 0 <= i < |ps| :: WellFormed(ps[i])
  }

  lemma {:induction false} TailOfChain(a: seq<Part>, c: seq<Part>)
    ensures Tail(a + c) == Tail(a) + Tail(c)
  {
    if a == [] {
      assert a + c == c;
    } else {
      var e, t := Encode(a[0]), Tail(a[1..]);
      calc {
        Tail(a + c);
        { assert (a + c)[0] == a[0] && (a + c)[1..] == a[1..] + c; }
        ";" + (e + Tail(a[1..] + c));
        { TailOfChain(a[1..], c); }
        ";" + (e + (t + Tail(c)));
        { Text.Regroup(e, t, Tail(c)); Text.Regroup(";", e + t, Tail(c)); }
        Tail(a) + Tail(c);
      }
    }
  }

  /** A list's signature begins with that of every prefix of it. */
  lemma SignatureOfPrefix(a: seq<Part>, b: seq<Part>)
    requires a != [] && a <= b
    ensures Signature(b) == Signature(a) + Tail(b[|a|..])
  {
    TailOfChain(a[1..], b[|a|..]);
    assert b[1..] == a[1..] + b[|a|..] && b[0] == a[0];
    Text.Regroup(Encode(a[0]), Tail(a[1..]), Tail(b[|a|..]));
  }

  lemma TailIsSignature(ps: seq<Part>)
    requires ps != []
    ensures Tail(ps) == ";" + Signature(ps)
  {
  }

  /** What remains of two signatures after a common first part. */
  lemma PeelPart(a: seq<Part>, b: seq<Part>, t: string)
    requires a != [] && b != [] && WellFormed(a[0]) && WellFormed(b[0])
    requires Signature(b) == Signature(a) + (";" + t)
    ensures a[0] == b[0] && Tail(b[1..]) == Tail(a[1..]) + (";" + t)
  {
    var r := Tail(a[1..]) + (";" + t);
    Text.Regroup(Encode(a[0]), Tail(a[1..]), ";" + t);
    assert AtSeparator(r);
    ParseOne(a[0], r, b[0], Tail(b[1..]));
  }

  /** And what remains of them after a common first part, as signatures again. */
  lemma PeelSignature(a: seq<Part>, b: seq<Part>, t: string)
    requires |a| > 1 && b != [] && WellFormed(a[0]) && WellFormed(b[0])
    requires Signature(b) == Signature(a) + (";" + t)
    ensures a[0] == b[0] && |b| > 1 && Signature(b[1..]) == Signature(a[1..]) + (";" + t)
  {
    PeelPart(a, b, t);
    TailIsSignature(a[1..]);
    Text.Regroup(";", Signature(a[1..]), ";" + t);
    assert Tail(b[1..]) == ";" + (Signature(a[1..]) + (";" + t));
    TailIsSignature(b[1..]);
    Text.Cut(";", Signature(b[1..]), ";", Signature(a[1..]) + (";" + t));
  }

  /** A signature followed by a separator is a prefix of another only if its list is. */
  lemma {:induction false} PrefixMeansPrefix(a: seq<Part>, b: seq<Part>, t: string)
    requires a != [] && AllWellFormed(a) && AllWellFormed(b)
    requires Signature(b) == Signature(a) + (";" + t)
    ensures |a| < |b| && a <= b
  {
    if |a| > 1 && b != [] {
      PeelSignature(a, b, t);
      PrefixMeansPrefix(a[1..], b[1..], t);
      assert a == [a[0]] + a[1..] && b == [b[0]] + b[1..];
    } else if b != [] {
      PeelPart(a, b, t);
    }
  }

  /** The rule's test on two signature texts. */
  predicate TextExtends(short: string, long: string, separator: string) {
    |short| < |long| && (long == short || short + separator <= long)
  }

  /** The raw string test decides exactly whether one column list is a proper prefix of the other. */
  lemma PrefixTestIsExact(a: seq<Part>, b: seq<Part>)
    requires a != [] && AllWellFormed(a) && AllWellFormed(b)
    ensures TextExtends(Signature(a), Signature(b), ";") <==> |a| < |b| && a <= b
  {
    if TextExtends(Signature(a), Signature(b), ";") {
      var t := Signature(b)[|Signature(a)| + 1..];
      assert Signature(b) == Signature(a) + (";" + t);
      PrefixMeansPrefix(a, b, t);
    }
    if |a| < |b| && a <= b {
      SignatureOfPrefix(a, b);
      TailIsSignature(b[|a|..]);
      assert Signature(a) + ";" <= Signature(b);
    }
  }
}
