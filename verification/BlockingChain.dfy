/**
  The blocking-chain rule: a backtracking depth-first search for the deepest chain in the
  wait-for graph, which may have cycles.
 */
module BlockingChain {
  import opened Lists
  import opened Signal
  import Text
  import Trimming

  type Graph = map<string, seq<string>>

  predicate Edge(g: Graph, a: string, b: string) {
    a in g && b in g[a]
  }

  /** A walk whose vertices, except possibly the last, are distinct and outside `blocked`. */
  ghost predicate Chain(g: Graph, w: seq<string>, blocked: set<string>) {
    && |w| > 0
    && (forall i | 0 <= i < |w| - 1 :: Edge(g, w[i], w[i + 1]) && w[i] !in blocked)
    && (forall i, j | 0 <= i < j < |w| - 1 :: w[i] != w[j])
  }

  ghost predicate ChainFrom(g: Graph, node: string, w: seq<string>, blocked: set<string>) {
    Chain(g, w, blocked) && w[0] == node
  }

  /** d is the greatest number of edges of a chain that starts at `node`. */
  ghost predicate Deepest(g: Graph, node: string, blocked: set<string>, d: nat) {
    && (exists w :: ChainFrom(g, node, w, blocked) && |w| == d + 1)
    && (forall w | ChainFrom(g, node, w, blocked) :: |w| <= d + 1)
  }

  /** The same, for the chains whose second vertex is among `nexts`. */
  ghost predicate DeepestVia(g: Graph, node: string, nexts: seq<string>, blocked: set<string>, d: nat) {
    && (exists w :: ChainFrom(g, node, w, blocked) && |w| == d + 1)
    && (forall w | ChainFrom(g, node, w, blocked) && |w| > 1 && w[1] in nexts :: |w| <= d + 1)
  }

  lemma PrependNode(g: Graph, node: string, next: string, blocked: set<string>, w: seq<string>)
    requires Edge(g, node, next) && node !in blocked
    requires ChainFrom(g, next, w, blocked + {node})
    ensures ChainFrom(g, node, [node] + w, blocked)
  {
    var c := [node] + w;
    forall i | 0 <= i < |c| - 1 ensures Edge(g, c[i], c[i + 1]) && c[i] !in blocked {
      assert i == 0 || c[i] == w[i - 1];
    }
  }

  lemma DropNode(g: Graph, node: string, blocked: set<string>, w: seq<string>)
    requires ChainFrom(g, node, w, blocked) && |w| > 1
    ensures ChainFrom(g, w[1], w[1..], blocked + {node})
  {
    var c := w[1..];
    forall i | 0 <= i < |c| - 1 ensures Edge(g, c[i], c[i + 1]) && c[i] !in blocked + {node} {
      assert c[i] == w[i + 1] && c[i + 1] == w[i + 2];
      assert w[0] != w[i + 1];
    }
  }

  function Successors(g: Graph, node: string): seq<string> {
    if node in g then g[node] else []
  }

  /** One more successor: the better of what is known and one edge more than the successor's depth. */
  lemma ViaOneMore(g: Graph, node: string, i: nat, blocked: set<string>, best: nat, depth: nat)
    requires i < |Successors(g, node)| && node !in blocked
    requires DeepestVia(g, node, Successors(g, node)[..i], blocked, best)
    requires Deepest(g, Successors(g, node)[i], blocked + {node}, depth)
    ensures DeepestVia(g, node, Successors(g, node)[..i + 1], blocked, Greater(best, 1 + depth))
  {
    var nexts := Successors(g, node);
    var next := nexts[i];
    assert Edge(g, node, next) && nexts[..i + 1] == nexts[..i] + [next];
    var w :| ChainFrom(g, next, w, blocked + {node}) && |w| == depth + 1;
    PrependNode(g, node, next, blocked, w);
    assert |[node] + w| == depth + 2;
    forall w | ChainFrom(g, node, w, blocked) && |w| > 1 && w[1] == next ensures |w| <= depth + 2 {
      DropNode(g, node, blocked, w);
    }
  }

  function Greater(a: nat, b: nat): nat {
    if b > a then b else a
  }

  lemma LeavesUnblocked(g: Graph, w: seq<string>, blocked: set<string>)
    requires Chain(g, w, blocked)
    ensures |w| == 1 || w[0] !in blocked
  {
    assert |w| > 1 ==> Edge(g, w[0], w[0 + 1]);
  }

  lemma NoStep(g: Graph, node: string, blocked: set<string>)
    ensures DeepestVia(g, node, [], blocked, 0)
    ensures node in blocked ==> Deepest(g, node, blocked, 0)
  {
    assert ChainFrom(g, node, [node], blocked);
    if node in blocked {
      forall w | ChainFrom(g, node, w, blocked) ensures |w| <= 1 {
        LeavesUnblocked(g, w, blocked);
      }
    }
  }

  lemma AllStepsSeen(g: Graph, node: string, blocked: set<string>, best: nat)
    requires DeepestVia(g, node, Successors(g, node), blocked, best)
    ensures Deepest(g, node, blocked, best)
  {
    forall w | ChainFrom(g, node, w, blocked) ensures |w| <= best + 1 {
      assert |w| > 1 ==> Edge(g, w[0], w[0 + 1]);
    }
  }

  /** The map of nodes on the current path, shared by all recursive calls. */
  class Path {
    var marked: set<string>

    constructor ()
      ensures marked == {}
    {
      marked := {};
    }
  }

  method BlockingDepth(node: string, g: Graph, path: Path) returns (best: nat)
    modifies path
    ensures path.marked == old(path.marked)
    ensures Deepest(g, node, path.marked, best)
    decreases g.Keys - path.marked
  {
    ghost var blocked := path.marked;
    NoStep(g, node, blocked);
    if node in path.marked {
      return 0;
    }
    path.marked := path.marked + {node};
    best := 0;
    var nexts := Successors(g, node);
    for i := 0 to |nexts|
      invariant path.marked == blocked + {node}
      invariant DeepestVia(g, node, nexts[..i], blocked, best)
    {
      var depth := BlockingDepth(nexts[i], g, path);
      ViaOneMore(g, node, i, blocked, best, depth);
      if 1 + depth > best {
        best := 1 + depth;
      }
    }
    assert nexts[..|nexts|] == nexts;
    AllStepsSeen(g, node, blocked, best);
    path.marked := path.marked - {node};
    assert path.marked == blocked;
  }

  // ---- the longest chain of the graph ---------------------------------------------------------

  ghost predicate LongestChain(g: Graph, d: nat) {
    && (exists w :: Chain(g, w, {}) && |w| == d + 1)
    && (forall w | Chain(g, w, {}) :: |w| <= d + 1)
  }

  /** Which chains there are depends on which edges there are, not on their order or multiplicity. */
  lemma OnlyEdgesMatter(g: Graph, h: Graph, d: nat)
    requires forall a, b :: Edge(g, a, b) <==> Edge(h, a, b)
    ensures LongestChain(g, d) <==> LongestChain(h, d)
  {
    forall w ensures Chain(g, w, {}) <==> Chain(h, w, {}) {
    }
  }

  lemma {:induction false} DistinctWithin(w: seq<string>, s: set<string>)
    requires forall i | 0 <= i < |w| :: w[i] in s
    requires forall i, j | 0 <= i < j < |w| :: w[i] != w[j]
    ensures |w| <= |s|
  {
    if w != [] {
      DistinctWithin(w[1..], s - {w[0]});
    }
  }

  /** A chain has no more edges than there are requesting transactions. */
  lemma ChainIsBounded(g: Graph, d: nat)
    requires LongestChain(g, d)
    ensures d <= |g.Keys|
  {
    var w :| Chain(g, w, {}) && |w| == d + 1;
    forall i | 0 <= i < d ensures w[..d][i] in g.Keys {
      assert Edge(g, w[i], w[i + 1]);
    }
    DistinctWithin(w[..d], g.Keys);
  }

  ghost predicate Walk(g: Graph, w: seq<string>) {
    |w| > 0 && forall i | 0 <= i < |w| - 1 :: Edge(g, w[i], w[i + 1])
  }

  ghost predicate Acyclic(g: Graph) {
    forall w | Walk(g, w) && |w| > 1 :: w[0] != w[|w| - 1]
  }

  lemma SubWalk(g: Graph, w: seq<string>, i: nat, j: nat)
    requires Walk(g, w) && i <= j < |w|
    ensures Walk(g, w[i..j + 1])
  {
    var part := w[i..j + 1];
    forall k | 0 <= k < |part| - 1 ensures Edge(g, part[k], part[k + 1]) {
      assert part[k] == w[i + k] && part[k + 1] == w[i + k + 1];
      assert Edge(g, w[i + k], w[i + k + 1]);
    }
  }

  lemma AcyclicWalkIsChain(g: Graph, w: seq<string>)
    requires Acyclic(g) && Walk(g, w)
    ensures Chain(g, w, {})
  {
    forall i, j | 0 <= i < j < |w| - 1 ensures w[i] != w[j] {
      SubWalk(g, w, i, j);
      assert w[i..j + 1][0] == w[i] && w[i..j + 1][j - i] == w[j];
    }
  }

  /** Without cycles the reported depth is the length of the longest path of any kind. */
  lemma LongestPathWhenAcyclic(g: Graph, d: nat)
    requires Acyclic(g) && LongestChain(g, d)
    ensures exists w :: Walk(g, w) && |w| == d + 1
    ensures forall w | Walk(g, w) :: |w| <= d + 1
  {
    var longest :| Chain(g, longest, {}) && |longest| == d + 1;
    assert Walk(g, longest);
    forall w | Walk(g, w) ensures |w| <= d + 1 {
      AcyclicWalkIsChain(g, w);
    }
  }

  // ---- the rule -------------------------------------------------------------------------------

  predicate Bytes(s: string, codes: seq<int>) {
    |s| == |codes| && forall i | 0 <= i < |s| :: s[i] as int == codes[i]
  }

  /** The UTF-8 bytes of one white-space character, as unicode.IsSpace has it. */
  predicate IsSpace(s: string) {
    || (|s| == 1 && (s[0] == ' ' || '\t' <= s[0] <= '\r'))
    || Bytes(s, [0xC2, 0x85]) || Bytes(s, [0xC2, 0xA0])
    || Bytes(s, [0xE1, 0x9A, 0x80])
    || (|s| == 3 && Bytes(s[..2], [0xE2, 0x80]) && (0x80 <= s[2] as int <= 0x8A || 0xA8 <= s[2] as int <= 0xA9 || s[2] as int == 0xAF))
    || Bytes(s, [0xE2, 0x81, 0x9F]) || Bytes(s, [0xE3, 0x80, 0x80])
  }

  /** strings.TrimSpace */
  function TrimSpace(s: string): string {
    Trimming.Trim(s, IsSpace)
  }

  /** strings.Split(s, "->") */
  function SplitArrow(s: string): (parts: seq<string>)
    ensures |parts| > 0
  {
    if |s| < 2 then [s]
    else if s[0] == '-' && s[1] == '>' then [""] + SplitArrow(s[2..])
    else
      var rest := SplitArrow(s[1..]);
      [[s[0]] + rest[0]] + rest[1..]
  }

  const EDGE_KEY := "mysql.lock_wait.edge"

  /** The wait-for edge an observation reports: who waits, and for whom. */
  function EdgeOf(o: Observation): Option<(string, string)> {
    if o.key != EDGE_KEY || o.text.None? then None
    else
      var parts := SplitArrow(o.text.value);
      if |parts| != 2 then None
      else
        var requesting, blocking := TrimSpace(parts[0]), TrimSpace(parts[1]);
        if requesting == "" || blocking == "" then None else Some((requesting, blocking))
  }

  /** No arrow anywhere in the text. */
  predicate NoArrow(s: string) {
    forall i | 0 <= i < |s| - 1 :: !(s[i] == '-' && s[i + 1] == '>')
  }

  lemma {:induction false} SplitNone(b: string)
    requires NoArrow(b)
    ensures SplitArrow(b) == [b]
  {
    if |b| >= 2 {
      forall i | 0 <= i < |b[1..]| - 1 ensures !(b[1..][i] == '-' && b[1..][i + 1] == '>') {
        assert b[1..][i] == b[i + 1] && b[1..][i + 1] == b[i + 2];
      }
      SplitNone(b[1..]);
      assert [b[0]] + b[1..] == b;
    }
  }

  lemma {:induction false} SplitOne(a: string, b: string)
    requires NoArrow(a) && NoArrow(b)
    ensures SplitArrow(a + ("->" + b)) == [a, b]
  {
    var s := a + ("->" + b);
    if a == [] {
      assert s == "->" + b && s[2..] == b;
      SplitNone(b);
    } else {
      forall i | 0 <= i < |a[1..]| - 1 ensures !(a[1..][i] == '-' && a[1..][i + 1] == '>') {
        assert a[1..][i] == a[i + 1] && a[1..][i + 1] == a[i + 2];
      }
      SplitOne(a[1..], b);
      assert s[1..] == a[1..] + ("->" + b);
      assert [a[0]] + a[1..] == a;
      assert s[0] == a[0];
      assert s[1] == (if |a| > 1 then a[1] else '-');
    }
  }

  function JoinArrow(parts: seq<string>): string {
    if parts == [] then "" else if |parts| == 1 then parts[0] else parts[0] + ("->" + JoinArrow(parts[1..]))
  }

  /** Splitting cuts at every arrow: the parts hold none, and joined by arrows they are the text. */
  lemma {:induction false} SplitMeaning(s: string)
    ensures JoinArrow(SplitArrow(s)) == s
    ensures forall i | 0 <= i < |SplitArrow(s)| :: NoArrow(SplitArrow(s)[i])
    ensures s != "" && SplitArrow(s)[0] != "" ==> SplitArrow(s)[0][0] == s[0]
  {
    if |s| >= 2 {
      if s[0] == '-' && s[1] == '>' {
        var rest := SplitArrow(s[2..]);
        SplitMeaning(s[2..]);
        assert ([""] + rest)[1..] == rest;
        assert s == "" + ("->" + s[2..]);
        forall i | 0 <= i < |rest| + 1 ensures NoArrow(([""] + rest)[i]) {
          assert i == 0 || ([""] + rest)[i] == rest[i - 1];
        }
      } else {
        var rest := SplitArrow(s[1..]);
        var first := [s[0]] + rest[0];
        SplitMeaning(s[1..]);
        JoinFirst(s[0], rest);
        assert s == [s[0]] + s[1..];
        FirstHasNoArrow(s, rest[0]);
        forall i | 0 <= i < |rest| ensures NoArrow(([first] + rest[1..])[i]) {
          assert i == 0 || ([first] + rest[1..])[i] == rest[i];
        }
      }
    }
  }

  lemma JoinFirst(c: char, rest: seq<string>)
    requires rest != []
    ensures JoinArrow([[c] + rest[0]] + rest[1..]) == [c] + JoinArrow(rest)
  {
    var all := [[c] + rest[0]] + rest[1..];
    assert all[1..] == rest[1..] && all[0] == [c] + rest[0];
    if |rest| > 1 {
      Text.Regroup([c], rest[0], "->" + JoinArrow(rest[1..]));
    }
  }

  lemma FirstHasNoArrow(s: string, part: string)
    requires |s| >= 2 && !(s[0] == '-' && s[1] == '>') && NoArrow(part) && (part != "" ==> part[0] == s[1])
    ensures NoArrow([s[0]] + part)
  {
    var first := [s[0]] + part;
    forall i | 0 <= i < |first| - 1 ensures !(first[i] == '-' && first[i + 1] == '>') {
      assert first[i + 1] == part[i] && (i > 0 ==> first[i] == part[i - 1]);
    }
  }

  // ---- what an observation reports ------------------------------------------------------------

  /** The text has one arrow, with something other than white space on both sides. */
  predicate IsEdgeText(s: string, l: string, r: string) {
    s == l + ("->" + r) && NoArrow(l) && NoArrow(r) && TrimSpace(l) != "" && TrimSpace(r) != ""
  }

  /** An observation reports an edge exactly if it is a lock-wait edge with such a text, and then the two
      sides of the arrow without the white space around them. */
  lemma EdgeMeaning(o: Observation)
    ensures EdgeOf(o).Some? <==> o.key == "mysql.lock_wait.edge" && o.text.Some? && exists l, r :: IsEdgeText(o.text.value, l, r)
    ensures EdgeOf(o).Some? ==> forall l, r | IsEdgeText(o.text.value, l, r) :: EdgeOf(o).value == (TrimSpace(l), TrimSpace(r))
  {
    if o.text.Some? {
      var s := o.text.value;
      TwoParts(s);
      forall l, r | IsEdgeText(s, l, r) ensures SplitArrow(s) == [l, r] {
        SplitOne(l, r);
      }
      if |SplitArrow(s)| == 2 && TrimSpace(SplitArrow(s)[0]) != "" && TrimSpace(SplitArrow(s)[1]) != "" {
        assert IsEdgeText(s, SplitArrow(s)[0], SplitArrow(s)[1]);
      }
    }
  }

  lemma TwoParts(s: string)
    ensures |SplitArrow(s)| == 2 ==>
      var parts := SplitArrow(s); s == parts[0] + ("->" + parts[1]) && NoArrow(parts[0]) && NoArrow(parts[1])
  {
    SplitMeaning(s);
    if |SplitArrow(s)| == 2 {
      assert SplitArrow(s)[1..] == [SplitArrow(s)[1]];
    }
  }

  /** An edge written as `a->b` is read back as it was meant. */
  lemma EdgeRoundTrip(o: Observation, a: string, b: string)
    requires o.key == EDGE_KEY && o.text == Some(a + ("->" + b))
    requires NoArrow(a) && NoArrow(b) && Trimming.Trimmed(a, IsSpace) && Trimming.Trimmed(b, IsSpace)
    ensures EdgeOf(o) == Some((a, b))
  {
    SplitOne(a, b);
  }

  /** The observations that report something. */
  function Evidence(parse: Observation -> Option<(string, string)>): Observation -> Option<Observation> {
    (o: Observation) => if parse(o).Some? then Some(o) else None
  }

  datatype Finding = Finding(severity: string, longest: nat, evidence: seq<Observation>)

  /** What each observation reports, if anything. */
  type Reports = seq<Option<(string, string)>>

  function ReportsOf(current: seq<Observation>): Reports {
    Map(current, EdgeOf)
  }

  predicate WaitsFor(reports: Reports, a: string, b: string) {
    Some((a, b)) in reports
  }

  ghost predicate GraphOf(g: Graph, reports: Reports) {
    forall a, b :: Edge(g, a, b) <==> WaitsFor(reports, a, b)
  }

  lemma GraphOneMore(g: Graph, reports: Reports, report: Option<(string, string)>, h: Graph)
    requires GraphOf(g, reports)
    requires match report
      case None => h == g
      case Some((a, b)) => h == g[a := (if a in g then g[a] else []) + [b]]
    ensures GraphOf(h, reports + [report])
  {
    forall a, b ensures Edge(h, a, b) <==> WaitsFor(reports + [report], a, b) {
      assert Edge(h, a, b) <==> Edge(g, a, b) || report == Some((a, b));
    }
  }

  /** a waits for b, which waits for c; c may be a again. */
  ghost predicate TwoWaits(reports: Reports, a: string, b: string, c: string) {
    a != b && WaitsFor(reports, a, b) && WaitsFor(reports, b, c)
  }

  /** Three different transactions wait in a row, the last of them for d. */
  ghost predicate ThreeWaits(reports: Reports, a: string, b: string, c: string, d: string) {
    a != b && a != c && b != c && WaitsFor(reports, a, b) && WaitsFor(reports, b, c) && WaitsFor(reports, c, d)
  }

  lemma DepthTwo(reports: Reports, g: Graph, d: nat)
    requires GraphOf(g, reports) && LongestChain(g, d)
    ensures d >= 2 <==> exists a, b, c :: TwoWaits(reports, a, b, c)
  {
    if d >= 2 {
      var w :| Chain(g, w, {}) && |w| == d + 1;
      assert Edge(g, w[0], w[0 + 1]) && Edge(g, w[1], w[1 + 1]);
      assert TwoWaits(reports, w[0], w[1], w[2]);
    }
    if a, b, c :| TwoWaits(reports, a, b, c) {
      assert Edge(g, a, b) && Edge(g, b, c);
      assert Chain(g, [a, b, c], {});
    }
  }

  lemma ChainOfThreeEdges(g: Graph, a: string, b: string, c: string, e: string)
    requires a != b && a != c && b != c && Edge(g, a, b) && Edge(g, b, c) && Edge(g, c, e)
    ensures Chain(g, [a, b, c, e], {})
  {
  }

  lemma DepthThree(reports: Reports, g: Graph, d: nat)
    requires GraphOf(g, reports) && LongestChain(g, d)
    ensures d >= 3 <==> exists a, b, c, e :: ThreeWaits(reports, a, b, c, e)
  {
    if d >= 3 {
      var w :| Chain(g, w, {}) && |w| == d + 1;
      assert Edge(g, w[0], w[0 + 1]) && Edge(g, w[1], w[1 + 1]) && Edge(g, w[2], w[2 + 1]);
      assert WaitsFor(reports, w[0], w[1]) && WaitsFor(reports, w[1], w[2]) && WaitsFor(reports, w[2], w[3]);
      assert ThreeWaits(reports, w[0], w[1], w[2], w[3]);
    } else if a, b, c, e :| ThreeWaits(reports, a, b, c, e) {
      assert Edge(g, a, b) && Edge(g, b, c) && Edge(g, c, e);
      ChainOfThreeEdges(g, a, b, c, e);
    }
  }

  /** The first loop: adjacency lists and the observations they came from. */
  method ReadEdges(current: seq<Observation>, parse: Observation -> Option<(string, string)>)
    returns (adjacency: Graph, evidence: seq<Observation>)
    ensures GraphOf(adjacency, Map(current, parse))
    ensures evidence == FilterMap(current, Evidence(parse))
  {
    adjacency, evidence := map[], [];
    ghost var reports := Map(current, parse);
    for i := 0 to |current|
      invariant GraphOf(adjacency, reports[..i])
      invariant evidence == FilterMap(current[..i], Evidence(parse))
    {
      FilterMapStep(current, i, Evidence(parse));
      ghost var before := adjacency;
      match parse(current[i]) {
        case None =>
        case Some((requesting, blocking)) =>
          adjacency := adjacency[requesting := (if requesting in adjacency then adjacency[requesting] else []) + [blocking]];
          evidence := evidence + [current[i]];
      }
      GraphOneMore(before, reports[..i], reports[i], adjacency);
      assert reports[..i + 1] == reports[..i] + [reports[i]];
    }
    assert current[..|current|] == current && reports[..|current|] == reports;
  }

  /** The deepest chain that starts at one of `nodes`. */
  ghost predicate LongestFrom(g: Graph, nodes: set<string>, d: nat) {
    && (exists w :: Chain(g, w, {}) && |w| == d + 1)
    && (forall w | Chain(g, w, {}) && w[0] in nodes :: |w| <= d + 1)
  }

  lemma LongestOneMore(g: Graph, nodes: set<string>, node: string, longest: nat, depth: nat)
    requires LongestFrom(g, nodes, longest) && Deepest(g, node, {}, depth)
    ensures LongestFrom(g, nodes + {node}, Greater(longest, depth))
  {
    var w :| ChainFrom(g, node, w, {}) && |w| == depth + 1;
    assert forall w | Chain(g, w, {}) && w[0] == node :: ChainFrom(g, node, w, {});
  }

  lemma LongestFromAll(g: Graph, longest: nat)
    requires LongestFrom(g, g.Keys, longest)
    ensures LongestChain(g, longest)
  {
    forall w | Chain(g, w, {}) ensures |w| <= longest + 1 {
      assert |w| > 1 ==> Edge(g, w[0], w[0 + 1]);
    }
  }

  /** The second loop: the deepest chain over all requesting transactions, in any order. */
  method LongestDepth(g: Graph) returns (longest: nat)
    ensures LongestChain(g, longest)
  {
    longest := 0;
    var seen, left := {}, g.Keys;
    assert Chain(g, [""], {});
    while left != {}
      invariant seen + left == g.Keys
      invariant LongestFrom(g, seen, longest)
      decreases left
    {
      var node :| node in left;
      var path := new Path();
      var depth := BlockingDepth(node, g, path);
      LongestOneMore(g, seen, node, longest, depth);
      if depth > longest {
        longest := depth;
      }
      seen, left := seen + {node}, left - {node};
    }
    assert seen == g.Keys;
    LongestFromAll(g, longest);
  }

  /** The evidence is what stands at these positions: all observations that report an edge, in order. */
  ghost predicate KeptAt(current: seq<Observation>, at: seq<nat>, evidence: seq<Observation>) {
    && Positions(at, |current|) && |at| == |evidence|
    && (forall j | 0 <= j < |current| :: j in at <==> EdgeOf(current[j]).Some?)
    && (forall i | 0 <= i < |at| :: evidence[i] == current[at[i]])
  }

  lemma EvidenceKept(current: seq<Observation>, parse: Observation -> Option<(string, string)>) returns (at: seq<nat>)
    ensures Positions(at, |current|) && |at| == |FilterMap(current, Evidence(parse))|
    ensures forall j | 0 <= j < |current| :: j in at <==> parse(current[j]).Some?
    ensures forall i | 0 <= i < |at| :: FilterMap(current, Evidence(parse))[i] == current[at[i]]
  {
    at := FilterMapPositions(current, Evidence(parse));
  }

  /** The rule reports when some transaction waits for one that itself waits, says how deep the waiting
      goes, is critical from three waits on, and shows the edges it read. */
  method Evaluate(current: seq<Observation>) returns (finding: Option<Finding>)
    ensures finding.Some? <==> exists a, b, c :: TwoWaits(ReportsOf(current), a, b, c)
    ensures finding.Some? ==>
      && (forall g | GraphOf(g, ReportsOf(current)) :: LongestChain(g, finding.value.longest))
      && finding.value.evidence == FilterMap(current, Evidence(EdgeOf))
      && (exists at :: KeptAt(current, at, finding.value.evidence))
      && finding.value.severity ==
           (if exists a, b, c, d :: ThreeWaits(ReportsOf(current), a, b, c, d) then "critical" else "warn")
  {
    var g, evidence := ReadEdges(current, EdgeOf);
    var longest := LongestDepth(g);
    DepthTwo(ReportsOf(current), g, longest);
    DepthThree(ReportsOf(current), g, longest);
    forall h | GraphOf(h, ReportsOf(current)) ensures LongestChain(h, longest) {
      OnlyEdgesMatter(g, h, longest);
    }
    ghost var at := EvidenceKept(current, EdgeOf);
    assert KeptAt(current, at, evidence);
    if longest < 2 {
      return None;
    }
    return Some(Finding(if longest >= 3 then "critical" else "warn", longest, evidence));
  }
}
