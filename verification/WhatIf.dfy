/** The what-if engine: the do-operator cuts the edges into the target, and inputs
    come in edge order rather than from the parent lists. */
module WhatIf {
  import opened Digraph
  import opened Ids
  import opened Kahn
  import opened RidgeFit
  import opened ScmSemantics
  import opened ScmGraph

  /** The tails of the edges into n, in edge order. */
  ghost function EdgeParents(edges: seq<Arc>, n: Node): seq<Node> {
    if edges == [] then []
    else
      var e := edges[|edges| - 1];
      var rest := EdgeParents(edges[..|edges| - 1], n);
      if e.to == n then rest + [e.from] else rest
  }

  ghost function CutInto(edges: seq<Arc>, target: Node): seq<Arc> {
    if edges == [] then []
    else
      var e := edges[|edges| - 1];
      var rest := CutInto(edges[..|edges| - 1], target);
      if e.to != target then rest + [e] else rest
  }

  /** The model whose parent lists are read off the edges. */
  ghost function EdgeModel(m: Scm): Scm {
    Scm(map n | n in m.nodes :: m.nodes[n].(parents := EdgeParents(m.edges, n)), m.edges)
  }

  ghost function MutilatedEquation(e: Equation, isTarget: bool, val: real): Equation {
    Equation([], if isTarget then Const(val) else e.fn, e.noise)
  }

  ghost function Mutilated(m: Scm, target: Node, val: real): Scm {
    Scm(map n | n in m.nodes :: MutilatedEquation(m.nodes[n], n == target, val), CutInto(m.edges, target))
  }

  lemma {:induction false} EdgeParentsIff(edges: seq<Arc>, n: Node)
    ensures forall p :: p in EdgeParents(edges, n) <==> HasArc(edges, p, n)
    decreases |edges|
  {
    if edges != [] {
      var init := edges[..|edges| - 1];
      EdgeParentsIff(init, n);
      assert forall p :: HasArc(edges, p, n) <==> HasArc(init, p, n) || edges[|edges| - 1] == Arc(p, n);
    }
  }

  lemma {:induction false} CutIntoIff(edges: seq<Arc>, target: Node)
    ensures forall a, b :: HasArc(CutInto(edges, target), a, b) <==> HasArc(edges, a, b) && b != target
    ensures forall n :: EdgeParents(CutInto(edges, target), n) == if n == target then [] else EdgeParents(edges, n)
    decreases |edges|
  {
    if edges != [] {
      var init, e := edges[..|edges| - 1], edges[|edges| - 1];
      CutIntoIff(init, target);
      var cut := CutInto(init, target);
      assert (cut + [e])[..|cut|] == cut;
      assert forall a, b :: HasArc(edges, a, b) <==> HasArc(init, a, b) || e == Arc(a, b);
      assert forall a, b :: HasArc(cut + [e], a, b) <==> HasArc(cut, a, b) || e == Arc(a, b);
    }
  }

  lemma CutEndpoints(edges: seq<Arc>, target: Node)
    ensures Endpoints(CutInto(edges, target)) <= Endpoints(edges)
  {
    CutIntoIff(edges, target);
    var cut := CutInto(edges, target);
    forall e | e in cut
      ensures e in edges
    {
      assert HasArc(cut, e.from, e.to);
      assert HasArc(edges, e.from, e.to);
      assert e == Arc(e.from, e.to);
    }
  }

  // ---------------------------------------------------------------------
  // The engine

  method CutEdges(edges: seq<Arc>, target: Node) returns (cut: seq<Arc>)
    ensures cut == CutInto(edges, target)
  {
    cut := [];
    for i := 0 to |edges|
      invariant cut == CutInto(edges[..i], target)
    {
      assert edges[..i + 1][..i] == edges[..i];
      if edges[i].to != target {
        cut := cut + [edges[i]];
      }
    }
    assert edges[..|edges|] == edges;
  }

  method CloneAndMutilate(g: CausalGraph, targetNode: Node, targetValue: real) returns (c: CausalGraph)
    requires g.Valid()
    ensures fresh(c) && fresh(c.nodes.Values) && c.Valid() && c.nodes.Keys == g.nodes.Keys
    ensures c.Model() == Mutilated(old(g.Model()), targetNode, targetValue)
  {
    hide Mutilated, MutilatedEquation, CutInto;
    ghost var m := g.Model();
    var ids := Keys(g.nodes);
    assert forall n :: n in ids ==> n in SeqSet(ids);
    var nodes: map<Node, CausalNode> := map[];
    for i := 0 to |ids|
      invariant forall k :: 0 <= k < i ==> ids[k] in nodes
      invariant forall n :: n in nodes ==> n in m.nodes && fresh(nodes[n]) && nodes[n].id == n
      invariant forall n :: n in nodes ==> nodes[n].View() == MutilatedEquation(m.nodes[n], n == targetNode, targetValue)
    {
      var n := g.nodes[ids[i]];
      assert n.id == ids[i] && n.View() == m.nodes[ids[i]];
      var copy := CopyMutilated(n, targetNode, targetValue);
      nodes := nodes[ids[i] := copy];
    }
    var cut := CutEdges(g.edges, targetNode);
    CutEndpoints(g.edges, targetNode);
    c := new CausalGraph(nodes, cut);
    AllMutilated(c.Model(), m, ids, targetNode, targetValue);
  }

  method CopyMutilated(n: CausalNode, targetNode: Node, targetValue: real) returns (copy: CausalNode)
    ensures fresh(copy) && copy.id == n.id
    ensures copy.View() == MutilatedEquation(n.View(), n.id == targetNode, targetValue)
  {
    copy := new CausalNode(n.id, [], n.fn, n.noise);
    if n.id == targetNode {
      copy.fn := Const(targetValue);
    }
  }

  lemma AllMutilated(copy: Scm, m: Scm, ids: seq<Node>, target: Node, val: real)
    requires copy.edges == CutInto(m.edges, target) && SeqSet(ids) == m.nodes.Keys
    requires forall k :: 0 <= k < |ids| ==> ids[k] in copy.nodes
    requires forall n :: n in copy.nodes ==> n in m.nodes && copy.nodes[n] == MutilatedEquation(m.nodes[n], n == target, val)
    ensures copy == Mutilated(m, target, val) && copy.nodes.Keys == m.nodes.Keys
  {
    forall n | n in m.nodes
      ensures n in copy.nodes
    {
      assert n in SeqSet(ids);
    }
    SameModel(copy, Mutilated(m, target, val));
  }

  /** The inputs of n, in edge order; a value not there yet reads as zero. */
  method EdgeInputs(edges: seq<Arc>, n: Node, v: Values) returns (inputs: seq<real>)
    ensures inputs == Inputs(v, EdgeParents(edges, n))
  {
    inputs := [];
    for i := 0 to |edges|
      invariant inputs == Inputs(v, EdgeParents(edges[..i], n))
    {
      assert edges[..i + 1][..i] == edges[..i];
      if edges[i].to == n {
        inputs := inputs + [Lookup(v, edges[i].from)];
      }
    }
    assert edges[..|edges|] == edges;
  }

  method AbductNoise(g: CausalGraph, sample: Values) returns (u: map<Node, real>)
    requires g.Valid()
    ensures u == Noise(EdgeModel(old(g.Model())), sample)
  {
    hide Inputs, Noise, NoiseOf, EdgeParents;
    ghost var m := EdgeModel(g.Model());
    var ids := Keys(g.nodes);
    assert forall n :: n in ids ==> n in SeqSet(ids);
    u := map[];
    NoNoise(m, sample);
    for i := 0 to |ids|
      invariant NoiseOf(m, sample, u)
      invariant forall k :: 0 <= k < i ==> ids[k] in u
    {
      var id := ids[i];
      var val := Lookup(sample, id);
      var inputs := EdgeInputs(g.edges, id, sample);
      var deterministicPart := g.nodes[id].fn(inputs, 0.0);
      OneNoise(m, sample, u, id, val - deterministicPart);
      u := u[id := val - deterministicPart];
    }
    assert forall n :: n in m.nodes ==> n in SeqSet(ids);
    AllNoise(m, sample, ids, u);
  }

  /** The result covers exactly the nodes without a cycle above them, and satisfies
      their equations. */
  ghost predicate EdgeEvaluation(m: Scm, v: Values) {
    && (forall n :: n in v <==> n in m.nodes && Grounded(m.edges, n))
    && (forall n :: n in v ==> Holds(EdgeModel(m).nodes, v, n))
  }

  /** Evaluate nodes as the queue serves them; released nodes join in edge order. */
  method EvaluateGraph(g: CausalGraph) returns (result: Values)
    requires g.Valid()
    ensures EdgeEvaluation(old(g.Model()), result)
  {
    hide Running, Releasing, Inputs, EdgeEvaluation, EvalFold, EvaluatedAlong, EdgeModel, EdgeParents, Sorted, Distinct, Pending, Grounded,
         Released, Sort, SeqSet, Endpoints;
    ghost var m := g.Model();
    var edges, nodes := g.edges, g.nodes;
    var inDegree := InDegrees(edges, nodes.Keys);
    var seeds := NodesWithDegree(inDegree, true);
    var queue := SortIDs(seeds);
    SameElements(queue, seeds);
    DistinctPermutation(seeds, queue);
    Seeded(edges, nodes.Keys, inDegree, queue);
    result := map[];
    ghost var done: seq<Node> := [];
    NothingYet(EdgeModel(m));
    while |queue| > 0
      invariant Running(edges, nodes.Keys, inDegree, done, queue)
      invariant EvaluatedAlong(EdgeModel(m), done, result)
      decreases |nodes.Keys| - |done|
    {
      RunningFront(edges, nodes.Keys, inDegree, done, queue);
      var nodeID := queue[0];
      ghost var was, rest := inDegree, queue[1..];
      assert queue == [nodeID] + rest;
      var n := nodes[nodeID];
      assert n.View() == m.nodes[nodeID];
      var inputs := EdgeInputs(edges, nodeID, result);
      var val := n.fn(inputs, n.noise);
      OneMoreEvaluated(m, done, result, nodeID, val);
      result := result[nodeID := val];
      var newly;
      inDegree, newly := Release(edges, nodes.Keys, inDegree, nodeID, done, rest);
      queue := queue[1..] + newly;
      Step(edges, nodes.Keys, was, done, nodeID, rest, inDegree, newly, newly);
      done := done + [nodeID];
    }
    assert queue == [];
    AllEvaluated(m, nodes.Keys, inDegree, done, result);
  }

  lemma OneMoreEvaluated(m: Scm, done: seq<Node>, v: Values, n: Node, val: real)
    requires EvaluatedAlong(EdgeModel(m), done, v) && n in m.nodes
    requires val == m.nodes[n].fn(Inputs(v, EdgeParents(m.edges, n)), m.nodes[n].noise)
    ensures EvaluatedAlong(EdgeModel(m), done + [n], v[n := val])
  {
    hide EdgeModel, EdgeParents, Inputs, EvaluatedAlong;
    EdgeInputsOf(m, n);
    EvaluatedNext(EdgeModel(m), done, n, v, val);
  }

  lemma EdgeInputsOf(m: Scm, n: Node)
    requires n in m.nodes
    ensures n in EdgeModel(m).nodes && EdgeModel(m).nodes[n] == m.nodes[n].(parents := EdgeParents(m.edges, n))
  {
  }

  lemma AllEvaluated(m: Scm, nodes: set<Node>, inDeg: map<Node, int>, done: seq<Node>, v: Values)
    requires nodes == m.nodes.Keys && Running(m.edges, nodes, inDeg, done, [])
    requires EvaluatedAlong(EdgeModel(m), done, v)
    ensures EdgeEvaluation(m, v)
  {
    DoneIffGrounded(m.edges, nodes, inDeg, done);
    assert forall n :: n in v <==> n in SeqSet(done);
    forall n | n in v
      ensures Holds(EdgeModel(m).nodes, v, n)
    {
      var i :| 0 <= i < |done| && done[i] == n;
      EdgeParentsIff(m.edges, n);
      FoldHolds(EdgeModel(m).nodes, done, i);
    }
  }

  /** The world evaluated for one sample and one intervention. */
  ghost function CutWorld(m: Scm, s: Values, target: Node, val: real): Scm {
    Scm(map n | n in m.nodes :: Equation([], if n == target then Const(val) else m.nodes[n].fn, EdgeNoise(m, s, n)),
        CutInto(m.edges, target))
  }

  /** The noise of n with its inputs read along the edges. */
  ghost function EdgeNoise(m: Scm, s: Values, n: Node): real
    requires n in m.nodes
  {
    Lookup(s, n) - m.nodes[n].fn(Inputs(s, EdgeParents(m.edges, n)), 0.0)
  }

  lemma CutWorldComposed(m: Scm, s: Values, target: Node, val: real)
    ensures WithNoise(Mutilated(m, target, val), Noise(EdgeModel(m), s)) == CutWorld(m, s, target, val)
  {
    SameModel(WithNoise(Mutilated(m, target, val), Noise(EdgeModel(m), s)), CutWorld(m, s, target, val));
  }

  /** The body of the simulation loop: mutilate, abduct, set noise, evaluate. */
  method SimulateOutcome(g: CausalGraph, sample: Values, targetNode: Node, targetValue: real) returns (outcome: Values)
    requires g.Valid()
    ensures EdgeEvaluation(CutWorld(old(g.Model()), sample, targetNode, targetValue), outcome)
  {
    hide Mutilated, WithNoise, Noise, EdgeEvaluation, EdgeModel, CutWorld;
    ghost var m := g.Model();
    var mutilated := CloneAndMutilate(g, targetNode, targetValue);
    assert g.Model() == m;
    var u := AbductNoise(g, sample);
    var ids := Keys(mutilated.nodes);
    assert mutilated.Model() == Mutilated(m, targetNode, targetValue);
    SetNoise(mutilated, ids, u);
    outcome := EvaluateGraph(mutilated);
    CutWorldComposed(m, sample, targetNode, targetValue);
  }
}
