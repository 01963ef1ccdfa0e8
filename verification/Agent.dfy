/** The agent's copy of the counterfactual engine: clones keep the parent order they
    are given, and leftovers of a cycle are ordered too. */
module Agent {
  import opened Digraph
  import opened Ids
  import opened Kahn
  import opened RidgeFit
  import opened ScmSemantics
  import opened ScmGraph

  ghost function Cleared(m: Scm): Scm {
    Scm(map n | n in m.nodes :: m.nodes[n].(noise := 0.0), m.edges)
  }

  /** The agent's world keeps the parents in their own order. */
  ghost function AgentWorld(m: Scm, s: Values, acts: map<Node, real>): Scm {
    Scm(map n | n in m.nodes :: Equation(m.nodes[n].parents, FnUnder(m, acts, n), AbductedNoise(m, s, n)), m.edges)
  }

  lemma AgentWorldComposed(m: Scm, s: Values, acts: map<Node, real>)
    ensures WithNoise(Intervened(Cleared(m), acts), Noise(m, s)) == AgentWorld(m, s, acts)
  {
    SameModel(WithNoise(Intervened(Cleared(m), acts), Noise(m, s)), AgentWorld(m, s, acts));
  }

  method Evaluate(g: CausalGraph) returns (vals: Values)
    requires g.Valid()
    ensures IsEvaluation(old(g.Model()), vals)
  {
    hide TopologicalOrder, SortedRun, IsSeed, IsLeftover, Inputs, Grounded, Sorted, EvalFold;
    ghost var m := g.Model();
    var order := Topo(g.edges, g.nodes.Keys);
    TopologicalAll(g.edges, g.nodes.Keys, order);
    vals := map[];
    NothingYet(m);
    hide EvaluatedAlong;
    for i := 0 to |order|
      invariant EvaluatedAlong(m, order[..i], vals)
    {
      var n := g.nodes[order[i]];
      assert n.View() == m.nodes[order[i]];
      var inputs := GatherInputs(vals, n.parents);
      var val := n.fn(inputs, n.noise);
      EvaluatedNext(m, order[..i], order[i], vals, val);
      assert order[..i + 1] == order[..i] + [order[i]];
      vals := vals[order[i] := val];
    }
    assert order[..|order|] == order;
  }

  method Abduct(g: CausalGraph, mean: Values) returns (u: map<Node, real>)
    requires g.Valid()
    ensures u == Noise(old(g.Model()), mean)
  {
    hide TopologicalOrder, SortedRun, IsSeed, IsLeftover, Inputs, Noise, Grounded, Sorted;
    ghost var m := g.Model();
    var order := Topo(g.edges, g.nodes.Keys);
    TopologicalAll(g.edges, g.nodes.Keys, order);
    u := map[];
    for i := 0 to |order|
      invariant NoiseOf(m, mean, u)
      invariant forall k :: 0 <= k < i ==> order[k] in u
    {
      var n := g.nodes[order[i]];
      assert n.View() == m.nodes[order[i]];
      var inputs := GatherInputs(mean, n.parents);
      var base := n.fn(inputs, 0.0);
      u := u[order[i] := Lookup(mean, order[i]) - base];
    }
    AllNoise(m, mean, order, u);
  }

  /** Nodes are copied in map order; the order does not matter. */
  method Clone(g: CausalGraph) returns (c: CausalGraph)
    requires g.Valid()
    ensures fresh(c) && fresh(c.nodes.Values) && c.Valid() && c.nodes.Keys == g.nodes.Keys
    ensures c.Model() == Cleared(old(g.Model()))
  {
    hide Cleared;
    ghost var m := g.Model();
    var ids := Keys(g.nodes);
    assert forall n :: n in ids ==> n in SeqSet(ids);
    var nodes: map<Node, CausalNode> := map[];
    for i := 0 to |ids|
      invariant forall k :: 0 <= k < i ==> ids[k] in nodes
      invariant forall n :: n in nodes ==> n in m.nodes && fresh(nodes[n]) && nodes[n].id == n
      invariant forall n :: n in nodes ==> nodes[n].View() == m.nodes[n].(noise := 0.0)
    {
      var n := g.nodes[ids[i]];
      assert n.View() == m.nodes[ids[i]];
      var copy := new CausalNode(n.id, n.parents, n.fn, 0.0);
      assert copy.View() == n.View().(noise := 0.0);
      nodes := nodes[ids[i] := copy];
    }
    c := new CausalGraph(nodes, g.edges);
    AllCleared(c.Model(), m, ids);
  }

  lemma AllCleared(copy: Scm, m: Scm, ids: seq<Node>)
    requires copy.edges == m.edges && SeqSet(ids) == m.nodes.Keys
    requires forall k :: 0 <= k < |ids| ==> ids[k] in copy.nodes
    requires forall n :: n in copy.nodes ==> n in m.nodes && copy.nodes[n] == m.nodes[n].(noise := 0.0)
    ensures copy == Cleared(m) && copy.nodes.Keys == m.nodes.Keys
  {
    forall n | n in m.nodes
      ensures n in copy.nodes
    {
      assert n in SeqSet(ids);
    }
    SameModel(copy, Cleared(m));
  }

  method Intervene(g: CausalGraph, acts: map<Node, real>) returns (c: CausalGraph)
    requires g.Valid() && acts.Keys <= g.nodes.Keys
    ensures fresh(c) && fresh(c.nodes.Values) && c.Valid() && c.nodes.Keys == g.nodes.Keys
    ensures c.Model() == Intervened(Cleared(old(g.Model())), acts)
  {
    hide Cleared, Intervened;
    c := Clone(g);
    var ids := Keys(acts);
    SetConstants(c, ids, acts);
  }

  method Counterfactual(g: CausalGraph, mean: Values, acts: map<Node, real>) returns (vals: Values)
    requires g.Valid() && acts.Keys <= g.nodes.Keys
    ensures IsEvaluation(AgentWorld(old(g.Model()), mean, acts), vals)
  {
    hide Cleared, Intervened, WithNoise, Noise, AgentWorld, IsEvaluation;
    ghost var m := g.Model();
    var u := Abduct(g, mean);
    assert g.Model() == m;
    var c := Intervene(g, acts);
    var ids := Keys(c.nodes);
    assert c.Model() == Intervened(Cleared(m), acts);
    SetNoise(c, ids, u);
    vals := Evaluate(c);
    AgentWorldComposed(m, mean, acts);
  }
}
