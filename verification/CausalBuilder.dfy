/** Building a causal hypothesis: expand the chain of causes backwards, then keep
    the best outgoing edge of every source. */
module CausalBuilder {
  import opened Digraph
  import opened RealArith
  import opened Ids
  import opened Kahn

  datatype Edge = Edge(from: Node, to: Node, existenceProb: real, causalStrength: real)

  function Key(e: Edge): Arc {
    Arc(e.from, e.to)
  }

  function Score(e: Edge): real {
    e.existenceProb * Abs(e.causalStrength)
  }

  ghost function Arcs(edges: seq<Edge>): (r: seq<Arc>)
    ensures |r| == |edges|
  {
    seq(|edges|, i requires 0 <= i < |edges| => Key(edges[i]))
  }

  lemma ArcOfEdge(edges: seq<Edge>, e: Edge)
    requires e in edges
    ensures HasArc(Arcs(edges), e.from, e.to)
  {
    var i :| 0 <= i < |edges| && edges[i] == e;
    assert Arcs(edges)[i] == Key(e);
  }

  // ---------------------------------------------------------------------
  // Expansion

  /** What the recursive expansion shares between its calls. */
  class Expansion {
    var visited: set<Arc>
    var result: seq<Edge>

    constructor ()
      ensures visited == {} && result == []
    {
      visited := {};
      result := [];
    }
  }

  /** All graph edges into the tail of this arc have been visited. */
  ghost predicate Followed(graph: seq<Edge>, visited: set<Arc>, k: Arc) {
    forall e :: e in graph && e.to == k.from ==> Key(e) in visited
  }

  ghost predicate Leads(result: seq<Edge>, n: Node) {
    exists e :: e in result && e.from == n
  }

  /** Visited arcs and result edges match one to one. */
  ghost predicate OneEach(visited: set<Arc>, result: seq<Edge>) {
    && Distinct(Arcs(result))
    && forall k :: k in visited <==> k in Arcs(result)
  }

  ghost function Universe(initial: seq<Edge>, graph: seq<Edge>): set<Arc> {
    (set e | e in initial :: Key(e)) + (set e | e in graph :: Key(e))
  }

  lemma OneMore(visited: set<Arc>, result: seq<Edge>, e: Edge)
    requires OneEach(visited, result) && Key(e) !in visited
    ensures OneEach(visited + {Key(e)}, result + [e])
  {
    assert Arcs(result + [e]) == Arcs(result) + [Key(e)];
  }

  lemma LeadsMono(result: seq<Edge>, longer: seq<Edge>, n: Node)
    requires Leads(result, n) && forall e :: e in result ==> e in longer
    ensures Leads(longer, n)
  {
  }

  /** Everything visited but the arcs still open has been followed. */
  ghost predicate Settled(graph: seq<Edge>, visited: set<Arc>, open: set<Arc>) {
    forall k :: k in visited - open ==> Followed(graph, visited, k)
  }

  /** An edge added while following `edge` is `edge` itself or leads to a source, and its tail
      reaches the tail of `edge`. */
  ghost predicate AddedFor(initial: seq<Edge>, graph: seq<Edge>, edge: Edge, before: seq<Edge>, result: seq<Edge>) {
    forall e :: e in result && e !in before ==>
      (e in graph || e in initial) && (e == edge || Leads(result, e.to)) && Reaches(Arcs(graph), e.from, edge.from)
  }

  lemma OpenOne(graph: seq<Edge>, visited: set<Arc>, open: set<Arc>, k: Arc)
    requires Settled(graph, visited, open)
    ensures Settled(graph, visited + {k}, open + {k})
  {
    forall a | a in visited + {k} - (open + {k})
      ensures Followed(graph, visited + {k}, a)
    {
      assert Followed(graph, visited, a);
    }
  }

  lemma CloseOne(graph: seq<Edge>, visited: set<Arc>, open: set<Arc>, k: Arc)
    requires Settled(graph, visited, open + {k})
    requires forall j :: 0 <= j < |graph| && graph[j].to == k.from ==> Key(graph[j]) in visited
    ensures Settled(graph, visited, open)
  {
  }

  lemma AddedItself(initial: seq<Edge>, graph: seq<Edge>, edge: Edge, before: seq<Edge>)
    requires edge in graph || edge in initial
    ensures AddedFor(initial, graph, edge, before, before + [edge])
  {
    ReachesSelf(Arcs(graph), edge.from);
  }

  /** `open` holds the arcs still being followed. */
  method Follow(edge: Edge, initial: seq<Edge>, graph: seq<Edge>, x: Expansion, ghost open: set<Arc>)
    requires edge in graph || edge in initial
    requires OneEach(x.visited, x.result) && x.visited <= Universe(initial, graph) && Settled(graph, x.visited, open)
    modifies x
    ensures OneEach(x.visited, x.result) && x.visited <= Universe(initial, graph) && Settled(graph, x.visited, open)
    ensures old(x.visited) <= x.visited && Key(edge) in x.visited && old(x.result) <= x.result
    ensures AddedFor(initial, graph, edge, old(x.result), x.result)
    decreases Universe(initial, graph) - x.visited
  {
    hide OneEach, Settled, AddedFor;
    var key := Key(edge);
    if key in x.visited {
      AddedNothing(initial, graph, edge, x.result);
      return;
    }
    ghost var before, seen := x.result, x.visited;
    OneMore(x.visited, x.result, edge);
    OpenOne(graph, x.visited, open, key);
    AddedItself(initial, graph, edge, x.result);
    x.visited := x.visited + {key};
    x.result := x.result + [edge];
    for i := 0 to |graph|
      invariant OneEach(x.visited, x.result) && x.visited <= Universe(initial, graph)
      invariant seen + {key} <= x.visited && before + [edge] <= x.result
      invariant Settled(graph, x.visited, open + {key})
      invariant forall j :: 0 <= j < i && graph[j].to == edge.from ==> Key(graph[j]) in x.visited
      invariant AddedFor(initial, graph, edge, before, x.result)
    {
      var e := graph[i];
      if e.to == edge.from {
        ghost var earlier := x.result;
        Follow(e, initial, graph, x, open + {key});
        FollowedOne(graph, edge, e, before, earlier, x.visited, x.result, initial);
      }
    }
    CloseOne(graph, x.visited, open, key);
  }

  lemma AddedNothing(initial: seq<Edge>, graph: seq<Edge>, edge: Edge, result: seq<Edge>)
    ensures AddedFor(initial, graph, edge, result, result)
  {
  }

  /** What one recursive call adds also satisfies the caller's promise. */
  lemma FollowedOne(graph: seq<Edge>, edge: Edge, e: Edge, before: seq<Edge>, earlier: seq<Edge>,
                    visited: set<Arc>, result: seq<Edge>, initial: seq<Edge>)
    requires e in graph && e.to == edge.from && before + [edge] <= earlier <= result
    requires OneEach(visited, result) && Key(e) in visited
    requires AddedFor(initial, graph, edge, before, earlier) && AddedFor(initial, graph, e, earlier, result)
    ensures AddedFor(initial, graph, edge, before, result)
  {
    ArcOfEdge(graph, e);
    ArcIsAncestor(Arcs(graph), e.from, e.to);
    ReachesIff(Arcs(graph), e.from, edge.from);
    KeyLeads(result, Key(e));
    assert edge in earlier by {
      assert earlier[|before|] == edge;
    }
    assert forall d :: d in earlier ==> d in result;
    forall d | d in result && d !in before
      ensures (d == edge || Leads(result, d.to)) && Reaches(Arcs(graph), d.from, edge.from)
    {
      if d in earlier {
        if d != edge {
          LeadsMono(earlier, result, d.to);
        }
      } else if d == e {
        assert e.to == edge.from;
      } else {
        ReachesTrans(Arcs(graph), d.from, e.from, edge.from);
      }
    }
  }

  /** What expansion promises about edges collected for one target. */
  ghost predicate Expanded(initial: seq<Edge>, graph: seq<Edge>, result: seq<Edge>) {
    && Distinct(Arcs(result))
    && (forall e :: e in result ==> e in graph || e in initial)
    && (forall e :: e in result ==> e in initial || Leads(result, e.to))
    && (forall n :: Leads(result, n) <==> exists s :: s in initial && Reaches(Arcs(graph), n, s.from))
  }

  method ExpandCausalChainRecursive(initial: seq<Edge>, graph: seq<Edge>) returns (result: seq<Edge>)
    ensures Expanded(initial, graph, result)
    ensures forall s :: s in initial ==> Key(s) in Arcs(result)
  {
    hide OneEach, Followed, Leads, Reaches;
    var x := new Expansion();
    NothingExpanded();
    for i := 0 to |initial|
      invariant OneEach(x.visited, x.result) && x.visited <= Universe(initial, graph)
      invariant forall k :: k in x.visited ==> Followed(graph, x.visited, k)
      invariant forall j :: 0 <= j < i ==> Key(initial[j]) in x.visited
      invariant forall e :: e in x.result ==> (e in graph || e in initial) && (e in initial || Leads(x.result, e.to))
      invariant forall e :: e in x.result ==> ReachesSome(initial, graph, e.from)
    {
      ghost var before := x.result;
      Follow(initial[i], initial, graph, x, {});
      forall e | e in x.result
        ensures (e in graph || e in initial) && (e in initial || Leads(x.result, e.to)) && ReachesSome(initial, graph, e.from)
      {
        if e in before {
          if e !in initial {
            LeadsMono(before, x.result, e.to);
          }
        } else {
          ReachesOne(initial, graph, e.from, i);
        }
      }
    }
    result := x.result;
    ExpansionComplete(initial, graph, x.visited, result);
  }

  lemma NothingExpanded()
    ensures OneEach({}, [])
  {
    assert Arcs([]) == [];
  }

  ghost predicate ReachesSome(initial: seq<Edge>, graph: seq<Edge>, n: Node) {
    exists s :: s in initial && Reaches(Arcs(graph), n, s.from)
  }

  lemma ReachesOne(initial: seq<Edge>, graph: seq<Edge>, n: Node, i: nat)
    requires i < |initial| && Reaches(Arcs(graph), n, initial[i].from)
    ensures ReachesSome(initial, graph, n)
  {
    assert initial[i] in initial;
  }

  /** When nothing is left to follow, every node that reaches a starting edge is a source. */
  lemma ExpansionComplete(initial: seq<Edge>, graph: seq<Edge>, visited: set<Arc>, result: seq<Edge>)
    requires OneEach(visited, result) && forall k :: k in visited ==> Followed(graph, visited, k)
    requires forall j :: 0 <= j < |initial| ==> Key(initial[j]) in visited
    requires forall e :: e in result ==> (e in graph || e in initial) && (e in initial || Leads(result, e.to))
    requires forall e :: e in result ==> ReachesSome(initial, graph, e.from)
    ensures Expanded(initial, graph, result)
    ensures forall s :: s in initial ==> Key(s) in Arcs(result)
  {
    forall n | ReachesSome(initial, graph, n)
      ensures Leads(result, n)
    {
      var s :| s in initial && Reaches(Arcs(graph), n, s.from);
      var w :| WalkFromTo(Arcs(graph), w, n, s.from);
      SourceOnWalk(graph, visited, result, Key(s), w);
    }
    forall n | Leads(result, n)
      ensures ReachesSome(initial, graph, n)
    {
    }
  }

  lemma {:induction false} SourceOnWalk(graph: seq<Edge>, visited: set<Arc>, result: seq<Edge>, k: Arc, w: seq<Node>)
    requires OneEach(visited, result) && forall a :: a in visited ==> Followed(graph, visited, a)
    requires k in visited && IsWalk(Arcs(graph), w) && w[|w| - 1] == k.from
    ensures Leads(result, w[0])
    decreases |w|
  {
    if |w| == 1 {
      KeyLeads(result, k);
    } else {
      var p := w[|w| - 2];
      assert HasArc(Arcs(graph), p, w[|w| - 2 + 1]);
      var i :| 0 <= i < |graph| && Arcs(graph)[i] == Arc(p, k.from);
      assert graph[i] in graph && Followed(graph, visited, k);
      SourceOnWalk(graph, visited, result, Key(graph[i]), w[..|w| - 1]);
    }
  }

  lemma KeyLeads(result: seq<Edge>, k: Arc)
    requires k in Arcs(result)
    ensures Leads(result, k.from)
  {
    var i :| 0 <= i < |result| && Arcs(result)[i] == k;
    assert result[i] in result;
  }

  // ---------------------------------------------------------------------
  // Conflict resolution

  /** best is the first edge out of src with the highest score. */
  ghost predicate BestOf(edges: seq<Edge>, src: Node, best: Edge) {
    exists i :: 0 <= i < |edges| && edges[i] == best && best.from == src && FirstBest(edges, src, i)
  }

  ghost predicate FirstBest(edges: seq<Edge>, src: Node, i: nat)
    requires i < |edges|
  {
    && (forall j :: 0 <= j < |edges| && edges[j].from == src ==> Score(edges[j]) <= Score(edges[i]))
    && (forall j :: 0 <= j < i && edges[j].from == src ==> Score(edges[j]) < Score(edges[i]))
  }

  /** The distinct sources, in ID order. */
  method Sources(edges: seq<Edge>) returns (sources: seq<Node>)
    ensures Sorted(sources) && Distinct(sources) && forall n :: n in sources <==> Leads(edges, n)
  {
    var found: seq<Node> := [];
    for i := 0 to |edges|
      invariant Distinct(found) && forall n :: n in found <==> exists j :: 0 <= j < i && edges[j].from == n
    {
      if edges[i].from !in found {
        found := found + [edges[i].from];
      }
    }
    sources := SortIDs(found);
    SameElements(sources, found);
    DistinctPermutation(found, sources);
    forall n
      ensures n in sources <==> Leads(edges, n)
    {
      if n in found {
        var j :| 0 <= j < |edges| && edges[j].from == n;
        assert edges[j] in edges;
      }
      if e :| e in edges && e.from == n {
        var j :| 0 <= j < |edges| && edges[j] == e;
      }
    }
  }

  /** The loop over the group of one source. */
  method PickBest(edges: seq<Edge>, src: Node) returns (best: Edge)
    requires Leads(edges, src)
    ensures BestOf(edges, src, best)
  {
    var first := 0;
    while edges[first].from != src
      invariant 0 <= first < |edges| && forall j :: 0 <= j < first ==> edges[j].from != src
      invariant exists j :: first <= j < |edges| && edges[j].from == src
      decreases |edges| - first
    {
      first := first + 1;
    }
    best := edges[first];
    var bestScore := Score(best);
    ghost var at := first;
    for i := first to |edges|
      invariant first <= at < |edges| && edges[at] == best && best.from == src && bestScore == Score(best)
      invariant forall j :: 0 <= j < i && edges[j].from == src ==> Score(edges[j]) <= bestScore
      invariant forall j :: 0 <= j < at && edges[j].from == src ==> Score(edges[j]) < bestScore
    {
      var score := Score(edges[i]);
      if edges[i].from == src && score > bestScore {
        best := edges[i];
        bestScore := score;
        at := i;
      }
    }
    assert FirstBest(edges, src, at);
  }

  ghost predicate Resolved(edges: seq<Edge>, result: seq<Edge>) {
    && (forall i, j :: 0 <= i < j < |result| ==> result[i].from != result[j].from && !Less(result[j].from, result[i].from))
    && (forall n :: Leads(result, n) <==> Leads(edges, n))
    && (forall e :: e in result ==> BestOf(edges, e.from, e))
  }

  method ResolveConflicts(edges: seq<Edge>) returns (result: seq<Edge>)
    ensures Resolved(edges, result)
  {
    hide BestOf, Leads;
    var sources := Sources(edges);
    result := [];
    for i := 0 to |sources|
      invariant |result| == i
      invariant forall k :: 0 <= k < i ==> result[k].from == sources[k] && BestOf(edges, sources[k], result[k])
    {
      assert sources[i] in sources;
      var best := PickBest(edges, sources[i]);
      BestFrom(edges, sources[i], best);
      result := result + [best];
    }
    AllSources(edges, sources, result);
  }

  lemma BestFrom(edges: seq<Edge>, src: Node, best: Edge)
    requires BestOf(edges, src, best)
    ensures best.from == src && best in edges
  {
  }

  lemma AllSources(edges: seq<Edge>, sources: seq<Node>, result: seq<Edge>)
    requires Sorted(sources) && Distinct(sources) && |result| == |sources|
    requires forall n :: n in sources <==> Leads(edges, n)
    requires forall k :: 0 <= k < |result| ==> result[k].from == sources[k] && BestOf(edges, sources[k], result[k])
    ensures Resolved(edges, result)
  {
    hide BestOf;
    forall n
      ensures Leads(result, n) <==> Leads(edges, n)
    {
      if e :| e in result && e.from == n {
        var k :| 0 <= k < |result| && result[k] == e;
        assert sources[k] in sources;
      }
      if Leads(edges, n) {
        var k :| 0 <= k < |sources| && sources[k] == n;
        assert result[k] in result;
      }
    }
  }

  // ---------------------------------------------------------------------
  // What the choice depends on

  ghost function Tails(edges: seq<Edge>): (r: seq<Node>)
    ensures |r| == |edges| && forall i :: 0 <= i < |edges| ==> r[i] == edges[i].from
  {
    seq(|edges|, i requires 0 <= i < |edges| => edges[i].from)
  }

  lemma TailsIff(edges: seq<Edge>, n: Node)
    ensures n in Tails(edges) <==> Leads(edges, n)
  {
    if e :| e in edges && e.from == n {
      var i :| 0 <= i < |edges| && edges[i] == e;
      assert Tails(edges)[i] == n;
    }
  }

  /** The sources and their order depend on the tails of the edges alone. */
  lemma SameSources(edges: seq<Edge>, others: seq<Edge>, r: seq<Edge>, t: seq<Edge>)
    requires Resolved(edges, r) && Resolved(others, t) && Tails(edges) == Tails(others)
    ensures Tails(r) == Tails(t)
  {
    forall n
      ensures n in Tails(r) <==> n in Tails(t)
    {
      TailsIff(edges, n);
      TailsIff(others, n);
      TailsIff(r, n);
      TailsIff(t, n);
    }
    DistinctSameSet(Tails(r), Tails(t));
    SortedUnique(Tails(r), Tails(t));
  }

  /** The same edges, each strength multiplied by the same positive factor, some of them negated. */
  ghost predicate Rescaled(edges: seq<Edge>, others: seq<Edge>, factor: real) {
    && factor > 0.0 && |others| == |edges|
    && forall i :: 0 <= i < |edges| ==>
         && others[i].from == edges[i].from && others[i].to == edges[i].to
         && others[i].existenceProb == edges[i].existenceProb
         && (others[i].causalStrength == Times(factor, edges[i].causalStrength)
             || others[i].causalStrength == -Times(factor, edges[i].causalStrength))
  }

  lemma ScoreRescaled(edges: seq<Edge>, others: seq<Edge>, factor: real, i: nat)
    requires Rescaled(edges, others, factor) && i < |edges|
    ensures Score(others[i]) == Times(factor, Score(edges[i]))
  {
    var p, c := edges[i].existenceProb, edges[i].causalStrength;
    MulMonotone(0.0, Abs(c), factor);
    assert Abs(others[i].causalStrength) == Times(factor, Abs(c));
    TimesAssociates(factor, p, Abs(c));
  }

  /** Neither the sign of a strength nor a common scale of the strengths decides which edge of a
      source is kept: the same keys are kept, in the same order. */
  lemma SameKeysKept(edges: seq<Edge>, others: seq<Edge>, factor: real, r: seq<Edge>, t: seq<Edge>)
    requires Rescaled(edges, others, factor) && Resolved(edges, r) && Resolved(others, t)
    ensures Arcs(r) == Arcs(t)
  {
    hide Score, Times;
    assert Tails(edges) == Tails(others);
    SameSources(edges, others, r, t);
    assert |Tails(r)| == |r| && |Tails(t)| == |t|;
    forall k | 0 <= k < |r|
      ensures Key(r[k]) == Key(t[k])
    {
      var src := r[k].from;
      assert Tails(r)[k] == Tails(t)[k];
      assert r[k] in r && t[k] in t;
      var i :| 0 <= i < |edges| && edges[i] == r[k] && FirstBest(edges, src, i);
      var j :| 0 <= j < |others| && others[j] == t[k] && FirstBest(others, src, j);
      ScoreRescaled(edges, others, factor, i);
      ScoreRescaled(edges, others, factor, j);
      FactorKeepsOrder(factor, Score(edges[i]), Score(edges[j]));
      FactorKeepsOrder(factor, Score(edges[j]), Score(edges[i]));
      assert i == j;
    }
  }

  lemma FactorKeepsOrder(factor: real, a: real, b: real)
    requires factor > 0.0
    ensures a <= b <==> Times(factor, a) <= Times(factor, b)
  {
    if a <= b {
      MulMonotone(a, b, factor);
    }
    if Times(factor, a) <= Times(factor, b) {
      CancelFactor(factor, a, b);
    }
  }

  /** A kept edge has the largest product of probability and magnitude among the edges of its
      source, and is the first of those that do. */
  lemma KeptIsLargest(edges: seq<Edge>, r: seq<Edge>, e: Edge) returns (i: nat)
    requires Resolved(edges, r) && e in r
    ensures i < |edges| && edges[i] == e
    ensures forall f :: f in edges && f.from == e.from ==>
              Times(f.existenceProb, Abs(f.causalStrength)) <= Times(e.existenceProb, Abs(e.causalStrength))
    ensures forall j :: 0 <= j < i && edges[j].from == e.from ==>
              Times(edges[j].existenceProb, Abs(edges[j].causalStrength)) < Times(e.existenceProb, Abs(e.causalStrength))
  {
    hide Score, Times;
    i :| 0 <= i < |edges| && edges[i] == e && FirstBest(edges, e.from, i);
    ScoreIsProduct(e);
    forall f | f in edges && f.from == e.from
      ensures Times(f.existenceProb, Abs(f.causalStrength)) <= Times(e.existenceProb, Abs(e.causalStrength))
    {
      ScoreIsProduct(f);
      var j :| 0 <= j < |edges| && edges[j] == f;
      assert Score(edges[j]) <= Score(edges[i]);
    }
    forall j | 0 <= j < i && edges[j].from == e.from
      ensures Times(edges[j].existenceProb, Abs(edges[j].causalStrength)) < Times(e.existenceProb, Abs(e.causalStrength))
    {
      ScoreIsProduct(edges[j]);
      assert Score(edges[j]) < Score(edges[i]);
    }
  }

  lemma ScoreIsProduct(e: Edge)
    ensures Score(e) == Times(e.existenceProb, Abs(e.causalStrength))
  {
  }

  /** A kept edge is not dominated: an edge of the same source that is at least as probable and at
      least as strong, either way, is no better in both, unless one of the two is worth nothing. */
  lemma KeptNotDominated(edges: seq<Edge>, r: seq<Edge>, e: Edge, f: Edge)
    requires Resolved(edges, r) && e in r && f in edges && f.from == e.from
    requires 0.0 <= e.existenceProb <= f.existenceProb && Abs(e.causalStrength) <= Abs(f.causalStrength)
    ensures e.existenceProb == f.existenceProb || f.causalStrength == 0.0
    ensures Abs(e.causalStrength) == Abs(f.causalStrength) || e.existenceProb == 0.0
  {
    var i := KeptIsLargest(edges, r, e);
    var p, q, c, d := e.existenceProb, f.existenceProb, Abs(e.causalStrength), Abs(f.causalStrength);
    MulMonotone(p, q, d);
    MulMonotone(c, d, p);
    TimesDistributes(d, q, p);
    TimesDistributes(p, d, c);
    if q > p && d > 0.0 {
      MulPositive(d, q - p);
    }
    if d > c && p > 0.0 {
      MulPositive(p, d - c);
    }
  }

  // ---------------------------------------------------------------------
  // The result is an in-tree

  /** A chain of edges of r from s to the target. */
  ghost predicate Chain(r: seq<Edge>, s: Node, target: Node, c: seq<Edge>) {
    && |c| >= 1 && c[0].from == s && c[|c| - 1].to == target
    && (forall i :: 0 <= i < |c| ==> c[i] in r)
    && (forall i :: 0 <= i < |c| - 1 ==> c[i].to == c[i + 1].from)
  }

  ghost predicate OneOutEdge(r: seq<Edge>) {
    forall i, j :: 0 <= i < j < |r| ==> r[i].from != r[j].from
  }

  ghost predicate InTree(r: seq<Edge>, target: Node) {
    && OneOutEdge(r)
    && !Leads(r, target)
    && (forall e :: e in r ==> e.to == target || Leads(r, e.to))
    && (forall s :: Leads(r, s) ==> exists c :: Chain(r, s, target, c))
  }

  lemma OutEdgeUnique(r: seq<Edge>, a: Edge, b: Edge)
    requires OneOutEdge(r) && a in r && b in r && a.from == b.from
    ensures a == b
  {
    var i :| 0 <= i < |r| && r[i] == a;
    var j :| 0 <= j < |r| && r[j] == b;
  }

  lemma {:induction false} ChainUnique(r: seq<Edge>, s: Node, target: Node, c: seq<Edge>, d: seq<Edge>)
    requires OneOutEdge(r) && !Leads(r, target) && Chain(r, s, target, c) && Chain(r, s, target, d)
    ensures c == d
    decreases |c|
  {
    OutEdgeUnique(r, c[0], d[0]);
    if |c| > 1 {
      ChainGoesOn(r, s, target, c);
    }
    if |d| > 1 {
      ChainGoesOn(r, s, target, d);
    }
    if |c| > 1 && |d| > 1 {
      ChainUnique(r, c[0].to, target, c[1..], d[1..]);
    }
  }

  lemma ChainGoesOn(r: seq<Edge>, s: Node, target: Node, c: seq<Edge>)
    requires Chain(r, s, target, c) && |c| > 1
    ensures Leads(r, c[0].to) && Chain(r, c[0].to, target, c[1..])
  {
    assert c[1] in r && c[0].to == c[0 + 1].from;
  }

  /** Following out-edges cannot go on for longer than there are sources. */
  lemma {:induction false} ChainExists(g: seq<Arc>, r: seq<Edge>, sources: set<Node>, target: Node, w: seq<Node>)
    returns (c: seq<Edge>)
    requires Acyclic(g) && (forall e :: e in r ==> HasArc(g, e.from, e.to))
    requires forall n :: Leads(r, n) <==> n in sources
    requires forall e :: e in r ==> e.to == target || e.to in sources
    requires IsWalk(g, w) && forall k :: 0 <= k < |w| ==> w[k] in sources
    ensures Chain(r, w[|w| - 1], target, c)
    decreases |sources| - |w|
  {
    var n := w[|w| - 1];
    AcyclicWalkDistinct(g, w);
    DistinctCard(w);
    SubsetCard(SeqSet(w), sources);
    assert Leads(r, n);
    var e :| e in r && e.from == n;
    if e.to == target {
      c := [e];
    } else {
      var v := w + [e.to];
      AcyclicWalkDistinct(g, v);
      DistinctCard(v);
      SubsetCard(SeqSet(v), sources);
      var rest := ChainExists(g, r, sources, target, v);
      c := [e] + rest;
    }
  }

  /** Following the edges of r, every source arrives. */
  lemma SourcesArrive(g: seq<Arc>, r: seq<Edge>, target: Node)
    requires Acyclic(g) && (forall e :: e in r ==> HasArc(g, e.from, e.to))
    requires forall e :: e in r ==> e.to == target || Leads(r, e.to)
    ensures forall s :: Leads(r, s) ==> exists c :: Chain(r, s, target, c)
  {
    var sources := set e | e in r :: e.from;
    assert forall n :: Leads(r, n) <==> n in sources;
    forall s | Leads(r, s)
      ensures exists c :: Chain(r, s, target, c)
    {
      assert IsWalk(g, [s]);
      var c := ChainExists(g, r, sources, target, [s]);
    }
  }

  /** On an acyclic graph, expansion from edges into the target followed by conflict
      resolution is an in-tree rooted at the target, and loses no source. */
  lemma ResolvedIsInTree(graph: seq<Edge>, initial: seq<Edge>, target: Node, expanded: seq<Edge>, resolved: seq<Edge>)
    requires Acyclic(Arcs(graph)) && forall s :: s in initial ==> s in graph && s.to == target
    requires Expanded(initial, graph, expanded) && Resolved(expanded, resolved)
    ensures InTree(resolved, target)
    ensures forall n :: Leads(resolved, n) <==> exists s :: s in initial && Reaches(Arcs(graph), n, s.from)
  {
    hide Acyclic, Reaches, Arcs, Chain;
    var g := Arcs(graph);
    TargetIsNoSource(graph, initial, target, expanded);
    forall e | e in resolved
      ensures e in expanded && HasArc(g, e.from, e.to) && (e.to == target || Leads(resolved, e.to))
    {
      BestFrom(expanded, e.from, e);
      ArcOfEdge(graph, e);
    }
    SourcesArrive(g, resolved, target);
  }

  lemma ChainIsWalk(r: seq<Edge>, s: Node, target: Node, c: seq<Edge>)
    requires Chain(r, s, target, c)
    ensures Ancestor(Arcs(r), s, target)
  {
    var w := seq(|c| + 1, i requires 0 <= i <= |c| => if i < |c| then c[i].from else target);
    forall i | 0 <= i < |w| - 1
      ensures HasArc(Arcs(r), w[i], w[i + 1])
    {
      assert w[i + 1] == c[i].to;
      ArcOfEdge(r, c[i]);
    }
    assert WalkFromTo(Arcs(r), w, s, target);
  }

  /** The candidate causes that a backward search from the target finds in an in-tree are
      exactly its sources. */
  lemma SourcesReachTarget(r: seq<Edge>, target: Node, n: Node)
    requires InTree(r, target)
    ensures Leads(r, n) <==> Ancestor(Arcs(r), n, target)
  {
    if Leads(r, n) {
      var c :| Chain(r, n, target, c);
      ChainIsWalk(r, n, target, c);
    }
    if Ancestor(Arcs(r), n, target) {
      var p := AncestorFirstArc(Arcs(r), n, target);
      var i :| 0 <= i < |r| && Arcs(r)[i] == Arc(n, p);
      assert r[i] in r;
    }
  }

  lemma TargetIsNoSource(graph: seq<Edge>, initial: seq<Edge>, target: Node, expanded: seq<Edge>)
    requires Acyclic(Arcs(graph)) && forall s :: s in initial ==> s in graph && s.to == target
    requires Expanded(initial, graph, expanded)
    ensures !Leads(expanded, target)
  {
    if Leads(expanded, target) {
      var s :| s in initial && Reaches(Arcs(graph), target, s.from);
      ArcOfEdge(graph, s);
      ArcIsAncestor(Arcs(graph), s.from, target);
      ReachesIff(Arcs(graph), s.from, target);
      ReachesTrans(Arcs(graph), target, s.from, target);
    }
  }

  /** The hypothesis of one target, as the builder assembles it. */
  method BuildHypothesis(graph: seq<Edge>, selected: seq<Edge>, target: Node) returns (resolved: seq<Edge>)
    requires forall s :: s in selected ==> s in graph && s.to == target
    ensures Acyclic(Arcs(graph)) ==> InTree(resolved, target)
    ensures forall n :: Leads(resolved, n) <==> exists s :: s in selected && Reaches(Arcs(graph), n, s.from)
  {
    hide InTree, BestOf;
    var expanded := ExpandCausalChainRecursive(selected, graph);
    resolved := ResolveConflicts(expanded);
    if Acyclic(Arcs(graph)) {
      ResolvedIsInTree(graph, selected, target, expanded, resolved);
    }
  }
}
