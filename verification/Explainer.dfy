/** The counterfactual engine of the explanation phase: abduction, intervention on
    a clone, prediction. */
module Explainer {
  import opened Digraph
  import opened Ids
  import opened Kahn
  import opened RidgeFit
  import opened ScmSemantics
  import opened ScmGraph

  method EvaluateSCM(g: CausalGraph) returns (values: Values)
    requires g.Valid()
    ensures IsEvaluation(old(g.Model()), values)
  {
    hide TopologicalOrder, SortedRun, IsSeed, Inputs, EvalFold;
    ghost var m := g.Model();
    var order := TopoOrder(g.edges, g.nodes.Keys);
    TopologicalAll(g.edges, g.nodes.Keys, order);
    values := map[];
    NothingYet(m);
    hide EvaluatedAlong;
    for i := 0 to |order|
      invariant EvaluatedAlong(m, order[..i], values)
    {
      var n := g.nodes[order[i]];
      assert n.View() == m.nodes[order[i]];
      var inputs := GatherInputs(values, n.parents);
      var val := n.fn(inputs, n.noise);
      EvaluatedNext(m, order[..i], order[i], values, val);
      assert order[..i + 1] == order[..i] + [order[i]];
      values := values[order[i] := val];
    }
    assert order[..|order|] == order;
  }

  method Abduct(g: CausalGraph, sample: Values) returns (u: map<Node, real>)
    requires g.Valid()
    ensures u == Noise(old(g.Model()), sample)
  {
    hide TopologicalOrder, SortedRun, IsSeed, Inputs, Noise;
    ghost var m := g.Model();
    var order := TopoOrder(g.edges, g.nodes.Keys);
    TopologicalAll(g.edges, g.nodes.Keys, order);
    u := map[];
    for i := 0 to |order|
      invariant NoiseOf(m, sample, u)
      invariant forall k :: 0 <= k < i ==> order[k] in u
    {
      var n := g.nodes[order[i]];
      assert n.View() == m.nodes[order[i]];
      var inputs := GatherInputs(sample, n.parents);
      var base := n.fn(inputs, 0.0);
      u := u[order[i] := Lookup(sample, order[i]) - base];
    }
    AllNoise(m, sample, order, u);
  }

  method CopyNode(n: CausalNode) returns (copy: CausalNode)
    ensures fresh(copy) && copy.id == n.id
    ensures copy.View() == ClonedEquation(n.View())
  {
    var parents := SortIDs(n.parents);
    copy := new CausalNode(n.id, parents, n.fn, 0.0);
  }

  /** A fresh copy with parents in ID order; noise is not copied. */
  method CloneGraph(g: CausalGraph) returns (c: CausalGraph)
    requires g.Valid()
    ensures fresh(c) && fresh(c.nodes.Values) && c.Valid()
    ensures c.nodes.Keys == g.nodes.Keys && c.edges == g.edges
    ensures c.Model() == Cloned(old(g.Model()))
  {
    hide ClonedEquation, Cloned, Sorted;
    ghost var m := g.Model();
    var ids := SortedKeys(g.nodes);
    assert forall n :: n in ids ==> n in SeqSet(ids);
    var nodes: map<Node, CausalNode> := map[];
    for i := 0 to |ids|
      invariant forall k :: 0 <= k < i ==> ids[k] in nodes
      invariant forall n :: n in nodes ==> n in m.nodes && fresh(nodes[n]) && nodes[n].id == n
      invariant forall n :: n in nodes ==> nodes[n].View() == ClonedEquation(m.nodes[n])
    {
      var n := g.nodes[ids[i]];
      assert n.View() == m.nodes[ids[i]];
      var copy := CopyNode(n);
      nodes := nodes[ids[i] := copy];
    }
    c := new CausalGraph(nodes, g.edges);
    AllCloned(c.Model(), m, ids);
  }

  lemma AllCloned(copy: Scm, m: Scm, ids: seq<Node>)
    requires copy.edges == m.edges && SeqSet(ids) == m.nodes.Keys
    requires forall k :: 0 <= k < |ids| ==> ids[k] in copy.nodes
    requires forall n :: n in copy.nodes ==> n in m.nodes && copy.nodes[n] == ClonedEquation(m.nodes[n])
    ensures copy == Cloned(m) && copy.nodes.Keys == m.nodes.Keys
  {
    forall n | n in m.nodes
      ensures n in copy.nodes
    {
      assert n in SeqSet(ids);
    }
    SameModel(copy, Cloned(m));
  }

  /** The values given to the listed nodes; one without an entry is given zero. */
  function Chosen(ids: seq<Node>, values: map<Node, real>): map<Node, real> {
    map n | n in ids :: Lookup(values, n)
  }

  lemma ChosenAll(ids: seq<Node>, values: map<Node, real>)
    requires SeqSet(ids) == values.Keys
    ensures Chosen(ids, values) == values
  {
    assert forall n :: n in ids <==> n in SeqSet(ids);
  }

  method Intervene(g: CausalGraph, nodeIDs: seq<Node>, values: map<Node, real>) returns (c: CausalGraph)
    requires g.Valid() && SeqSet(nodeIDs) <= g.nodes.Keys
    ensures fresh(c) && fresh(c.nodes.Values) && c.Valid()
    ensures c.nodes.Keys == g.nodes.Keys
    ensures c.Model() == Intervened(Cloned(old(g.Model())), Chosen(nodeIDs, values))
  {
    hide Sort, Cloned, Intervened;
    c := CloneGraph(g);
    assert Chosen(nodeIDs, values).Keys == SeqSet(nodeIDs);
    SetConstants(c, nodeIDs, Chosen(nodeIDs, values));
  }

  /** The given graph is left untouched; the values are an evaluation of the world
      built from it. */
  method Counterfactual(g: CausalGraph, sample: Values, interventions: map<Node, real>) returns (values: Values)
    requires g.Valid() && interventions.Keys <= g.nodes.Keys
    ensures IsEvaluation(World(old(g.Model()), sample, interventions), values)
  {
    hide Sort, Cloned, Intervened, WithNoise, Noise, World, IsEvaluation;
    ghost var m := g.Model();
    var u := Abduct(g, sample);
    var keys := SortedKeys(interventions);
    ChosenAll(keys, interventions);
    assert g.Model() == m;
    var c := Intervene(g, keys, interventions);
    var nodeIDs := SortedKeys(c.nodes);
    assert c.Model() == Intervened(Cloned(m), interventions);
    SetNoise(c, nodeIDs, u);
    values := EvaluateSCM(c);
    WorldComposed(m, sample, interventions);
  }
}
