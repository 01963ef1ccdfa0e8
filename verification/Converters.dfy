/** The bridge: building the explanation graph from the discovered one, with sorted
    parents and fitted functions, and converting it for the agent. */
module Converters {
  import opened Digraph
  import opened Ids
  import opened Kahn
  import opened RidgeFit
  import opened ScmSemantics
  import opened ScmGraph
  import opened WhatIf
  import opened Statistics

  /** The edges both of whose ends are nodes. */
  ghost function Within(edges: seq<Arc>, nodes: set<Node>): seq<Arc> {
    if edges == [] then []
    else
      var e := edges[|edges| - 1];
      var rest := Within(edges[..|edges| - 1], nodes);
      if e.from in nodes && e.to in nodes then rest + [e] else rest
  }

  lemma {:induction false} WithinIff(edges: seq<Arc>, nodes: set<Node>)
    ensures forall e :: e in Within(edges, nodes) <==> e in edges && e.from in nodes && e.to in nodes
    decreases |edges|
  {
    if edges != [] {
      WithinIff(edges[..|edges| - 1], nodes);
      assert edges == edges[..|edges| - 1] + [edges[|edges| - 1]];
    }
  }

  lemma NoEdges(nodes: set<Node>)
    ensures Within([], nodes) == [] && forall n :: EdgeParents([], n) == []
  {
  }

  lemma WithinNext(edges: seq<Arc>, nodes: set<Node>, i: nat)
    requires i < |edges|
    ensures Within(edges[..i + 1], nodes) ==
            if edges[i].from in nodes && edges[i].to in nodes then Within(edges[..i], nodes) + [edges[i]]
            else Within(edges[..i], nodes)
  {
    assert edges[..i + 1][..i] == edges[..i];
  }

  lemma EdgeParentsNext(edges: seq<Arc>, e: Arc)
    ensures forall n :: EdgeParents(edges + [e], n) ==
                        if e.to == n then EdgeParents(edges, n) + [e.from] else EdgeParents(edges, n)
  {
    assert (edges + [e])[..|edges|] == edges;
  }

  /** Collecting edges and parent references. */
  method ConnectParents(nodeIDs: set<Node>, arcs: seq<Arc>, nodes: map<Node, CausalNode>) returns (kept: seq<Arc>)
    requires nodes.Keys == nodeIDs && forall n :: n in nodes ==> nodes[n].id == n && nodes[n].parents == []
    modifies nodes.Values
    ensures kept == Within(arcs, nodeIDs)
    ensures forall n :: n in nodes ==>
              nodes[n].parents == EdgeParents(kept, n) && nodes[n].fn == old(nodes[n].fn) && nodes[n].noise == old(nodes[n].noise)
  {
    hide EdgeParents, Within;
    kept := [];
    NoEdges(nodeIDs);
    for i := 0 to |arcs|
      invariant kept == Within(arcs[..i], nodeIDs)
      invariant forall n :: n in nodes ==> nodes[n].parents == EdgeParents(kept, n)
      invariant forall n :: n in nodes ==> nodes[n].fn == old(nodes[n].fn) && nodes[n].noise == old(nodes[n].noise)
    {
      var e := arcs[i];
      WithinNext(arcs, nodeIDs, i);
      if e.from in nodes && e.to in nodes {
        EdgeParentsNext(kept, e);
        kept := kept + [e];
        nodes[e.to].parents := nodes[e.to].parents + [e.from];
      }
    }
    assert arcs[..|arcs|] == arcs;
  }

  /** Put every parent list in ID order. */
  method SortParents(nodes: map<Node, CausalNode>)
    requires forall n :: n in nodes ==> nodes[n].id == n
    modifies nodes.Values
    ensures forall n :: n in nodes ==>
              nodes[n].parents == Sort(old(nodes[n].parents)) && nodes[n].fn == old(nodes[n].fn) && nodes[n].noise == old(nodes[n].noise)
  {
    hide Sort, Sorted;
    var ids := Keys(nodes);
    assert forall n :: n in ids ==> n in SeqSet(ids);
    ghost var done: set<Node> := {};
    for i := 0 to |ids|
      invariant forall k :: 0 <= k < |ids| ==> (ids[k] in done <==> k < i)
      invariant forall n :: n in nodes ==>
                  nodes[n].parents == if n in done then Sort(old(nodes[n].parents)) else old(nodes[n].parents)
      invariant forall n :: n in nodes ==> nodes[n].fn == old(nodes[n].fn) && nodes[n].noise == old(nodes[n].noise)
    {
      var n := nodes[ids[i]];
      if |n.parents| >= 2 {
        var sorted := SortIDs(n.parents);
        n.parents := sorted;
      } else {
        ShortSorted(n.parents);
      }
      done := done + {ids[i]};
    }
    forall n | n in nodes
      ensures n in done
    {
      assert n in SeqSet(ids);
    }
  }

  lemma ShortSorted(s: seq<Node>)
    requires |s| < 2
    ensures Sort(s) == s
  {
    SortedFixed(s);
  }

  /** How a fitted function acts on as many inputs as it has coefficients. */
  ghost predicate LinearAt(f: StructuralFn, coefs: seq<real>) {
    exists a :: LinearWith(f, coefs, a)
  }

  ghost predicate LinearWith(f: StructuralFn, coefs: seq<real>, a: real) {
    forall inputs, noise :: |inputs| == |coefs| ==> f(inputs, noise) == a + WeightedSum(coefs, inputs, |coefs|) + noise
  }

  lemma {:induction false} WeightedSumPrefix(beta: seq<real>, inputs: seq<real>, n: nat, k: nat)
    requires n <= k <= |beta| && n <= |inputs|
    ensures WeightedSum(beta, inputs, n) == WeightedSum(beta[..k], inputs, n)
  {
    if n > 0 {
      WeightedSumPrefix(beta, inputs, n - 1, k);
    }
  }

  lemma OutputsLinear(f: StructuralFn, beta: seq<real>)
    requires Outputs(f, beta)
    ensures LinearAt(f, beta[..|beta| - 1])
  {
    var coefs := beta[..|beta| - 1];
    forall inputs: seq<real>, noise: real | |inputs| == |coefs|
      ensures f(inputs, noise) == beta[|beta| - 1] + WeightedSum(coefs, inputs, |coefs|) + noise
    {
      WeightedSumPrefix(beta, inputs, |coefs|, |coefs|);
      assert f(inputs, noise) == FittedOutput(beta, inputs, noise);
    }
    assert LinearWith(f, coefs, beta[|beta| - 1]);
  }

  ghost function Ones(k: nat): (r: seq<real>)
    ensures |r| == k
  {
    seq(k, _ => 1.0)
  }

  lemma {:induction false} SumIsWeighted(inputs: seq<real>, n: nat, k: nat)
    requires n <= |inputs| && n <= k
    ensures WeightedSum(Ones(k), inputs, n) == Sum(inputs[..n])
  {
    if n > 0 {
      SumIsWeighted(inputs, n - 1, k);
      assert inputs[..n][..n - 1] == inputs[..n - 1];
    }
  }

  lemma LinearIsLinear(k: nat)
    ensures LinearAt(Linear, Ones(k)) && Additive(Linear)
  {
    forall inputs: seq<real>, noise: real | |inputs| == k
      ensures Linear(inputs, noise) == 0.0 + WeightedSum(Ones(k), inputs, k) + noise
    {
      SumIsWeighted(inputs, k, k);
      assert inputs[..k] == inputs;
    }
    assert LinearWith(Linear, Ones(k), 0.0);
  }

  /** Additive, and linear in the given number of inputs. */
  ghost predicate Fitted(f: StructuralFn, k: nat) {
    Additive(f) && exists coefs {:trigger LinearAt(f, coefs)} :: |coefs| == k && LinearAt(f, coefs)
  }

  /** Without samples the plain sum; with samples, the ridge optimum of the node on its parents. */
  ghost predicate FittedTo(f: StructuralFn, parentIDs: seq<Node>, id: Node, samples: seq<Sample>) {
    && (|samples| == 0 ==> f == Linear)
    && (|samples| > 0 && 0 < |parentIDs| < MAX_UNKNOWNS ==>
          exists beta :: RidgeOptimum(Design(parentIDs, samples), |parentIDs| + 1, Targets(id, samples), beta)
                      && Outputs(f, beta))
  }

  /** The function for one node: fitted when there are samples, the plain sum otherwise. */
  method FitNode(parentIDs: seq<Node>, id: Node, samples: seq<Sample>) returns (f: StructuralFn)
    ensures Fitted(f, |parentIDs|) && FittedTo(f, parentIDs, id, samples)
  {
    if |samples| > 0 {
      f := FitLinearSCM(parentIDs, id, samples);
      if |parentIDs| == 0 {
        assert LinearWith(f, [], 0.0);
        assert LinearAt(f, []);
      } else {
        ghost var beta :| Outputs(f, beta) && |beta| == |parentIDs| + 1;
        OutputsLinear(f, beta);
      }
    } else {
      f := Linear;
      LinearIsLinear(|parentIDs|);
    }
  }

  /** Fit every node's function to its (already sorted) parents. */
  method FitFunctions(nodes: map<Node, CausalNode>, samples: seq<Sample>)
    requires forall n :: n in nodes ==> nodes[n].id == n
    modifies nodes.Values
    ensures forall n :: n in nodes ==>
              nodes[n].parents == old(nodes[n].parents) && nodes[n].noise == old(nodes[n].noise)
    ensures forall n :: n in nodes ==> Fitted(nodes[n].fn, |nodes[n].parents|)
    ensures forall n :: n in nodes ==> FittedTo(nodes[n].fn, nodes[n].parents, n, samples)
  {
    hide Fitted, FittedTo;
    var ids := Keys(nodes);
    assert forall n :: n in ids ==> n in SeqSet(ids);
    ghost var done: set<Node> := {};
    for i := 0 to |ids|
      invariant forall k :: 0 <= k < i ==> ids[k] in done
      invariant forall n :: n in nodes ==>
                  nodes[n].parents == old(nodes[n].parents) && nodes[n].noise == old(nodes[n].noise)
      invariant forall n :: n in nodes && n in done ==> Fitted(nodes[n].fn, |nodes[n].parents|)
      invariant forall n :: n in nodes && n in done ==> FittedTo(nodes[n].fn, nodes[n].parents, n, samples)
    {
      var n := nodes[ids[i]];
      var f := FitNode(n.parents, n.id, samples);
      n.fn := f;
      done := done + {ids[i]};
    }
    forall n | n in nodes
      ensures n in done
    {
      assert n in SeqSet(ids);
    }
  }

  /** What the bridge establishes for every node. */
  ghost predicate Bridged(m: Scm, nodeIDs: set<Node>, arcs: seq<Arc>) {
    && m.nodes.Keys == nodeIDs && m.edges == Within(arcs, nodeIDs)
    && forall n :: n in m.nodes ==>
         m.nodes[n].parents == Sort(EdgeParents(m.edges, n)) && m.nodes[n].noise == 0.0
         && Fitted(m.nodes[n].fn, |m.nodes[n].parents|)
  }

  /** One node per ID, with nothing but its ID set. */
  method BlankNodes(nodeIDs: set<Node>) returns (nodes: map<Node, CausalNode>)
    ensures nodes.Keys == nodeIDs
    ensures forall n :: n in nodes ==>
              fresh(nodes[n]) && nodes[n].id == n && nodes[n].parents == [] && nodes[n].noise == 0.0
  {
    nodes := map[];
    var left := nodeIDs;
    while left != {}
      invariant left <= nodeIDs && nodes.Keys == nodeIDs - left
      invariant forall n :: n in nodes ==> fresh(nodes[n]) && nodes[n].id == n
      invariant forall n :: n in nodes ==> nodes[n].parents == [] && nodes[n].noise == 0.0
      decreases left
    {
      var n :| n in left;
      left := left - {n};
      var node := new CausalNode(n, [], Linear, 0.0);
      nodes := nodes[n := node];
    }
  }

  /** Edges, sorted parents and fitted functions for blank nodes. */
  method FillNodes(nodeIDs: set<Node>, arcs: seq<Arc>, samples: seq<Sample>, nodes: map<Node, CausalNode>)
    returns (kept: seq<Arc>)
    requires nodes.Keys == nodeIDs
    requires forall n :: n in nodes ==> nodes[n].id == n && nodes[n].parents == [] && nodes[n].noise == 0.0
    modifies nodes.Values
    ensures kept == Within(arcs, nodeIDs)
    ensures forall n :: n in nodes ==> nodes[n].parents == Sort(EdgeParents(kept, n)) && nodes[n].noise == 0.0
    ensures forall n :: n in nodes ==> Fitted(nodes[n].fn, |nodes[n].parents|)
    ensures forall n :: n in nodes ==> FittedTo(nodes[n].fn, nodes[n].parents, n, samples)
  {
    hide Sort, Sorted, Fitted, FittedTo, EdgeParents, Within;
    kept := ConnectParents(nodeIDs, arcs, nodes);
    SortParents(nodes);
    FitFunctions(nodes, samples);
  }

  method ConvertPhase3ResultToPhase4Graph(nodeIDs: set<Node>, arcs: seq<Arc>, samples: seq<Sample>) returns (g: CausalGraph)
    ensures fresh(g) && fresh(g.nodes.Values) && g.Valid()
    ensures Bridged(g.Model(), nodeIDs, arcs)
    ensures forall n :: n in g.Model().nodes ==>
              FittedTo(g.Model().nodes[n].fn, g.Model().nodes[n].parents, n, samples)
  {
    hide Sort, Sorted, Fitted, FittedTo, EdgeParents, Within, Bridged;
    var nodes := BlankNodes(nodeIDs);
    var kept := FillNodes(nodeIDs, arcs, samples, nodes);
    WithinIff(arcs, nodeIDs);
    g := new CausalGraph(nodes, kept);
    hide CausalGraph.Valid;
    ghost var m := g.Model();
    forall n | n in m.nodes
      ensures m.nodes[n].parents == Sort(EdgeParents(kept, n)) && m.nodes[n].noise == 0.0
      ensures Fitted(m.nodes[n].fn, |m.nodes[n].parents|) && FittedTo(m.nodes[n].fn, m.nodes[n].parents, n, samples)
    {
      assert m.nodes[n] == nodes[n].View();
    }
    BridgedNodes(g.Model(), nodeIDs, arcs, kept);
  }

  lemma BridgedNodes(m: Scm, nodeIDs: set<Node>, arcs: seq<Arc>, kept: seq<Arc>)
    requires m.nodes.Keys == nodeIDs && m.edges == kept == Within(arcs, nodeIDs)
    requires forall n :: n in m.nodes ==> m.nodes[n].parents == Sort(EdgeParents(kept, n)) && m.nodes[n].noise == 0.0
    requires forall n :: n in m.nodes ==> Fitted(m.nodes[n].fn, |m.nodes[n].parents|)
    ensures Bridged(m, nodeIDs, arcs)
  {
  }

  /** What the bridge builds meets the conditions of the counterfactual theorems. */
  lemma BridgedIsReady(m: Scm, nodeIDs: set<Node>, arcs: seq<Arc>, s: Values)
    requires Bridged(m, nodeIDs, arcs)
    ensures WellFormed(m) && AllAdditive(m) && forall n :: n in m.nodes ==> Insensitive(m, s, n)
  {
    WithinIff(arcs, nodeIDs);
    forall n | n in m.nodes
      ensures Insensitive(m, s, n)
      ensures forall p :: p in m.nodes[n].parents <==> HasArc(m.edges, p, n)
    {
      SortedParentsInsensitive(m, s, n);
      EdgeParentsIff(m.edges, n);
      SameElements(m.nodes[n].parents, EdgeParents(m.edges, n));
    }
  }

  /** Copies of all nodes with empty parent lists. */
  method CopyWithoutParents(g: CausalGraph) returns (nodes: map<Node, CausalNode>)
    requires g.Valid()
    ensures nodes.Keys == g.nodes.Keys
    ensures forall n :: n in nodes ==>
              fresh(nodes[n]) && nodes[n].id == n && nodes[n].View() == old(g.Model()).nodes[n].(parents := [])
  {
    ghost var m := g.Model();
    var ids := Keys(g.nodes);
    assert forall n :: n in ids ==> n in SeqSet(ids);
    nodes := map[];
    for i := 0 to |ids|
      invariant forall k :: 0 <= k < i ==> ids[k] in nodes
      invariant forall n :: n in nodes ==> n in m.nodes && fresh(nodes[n]) && nodes[n].id == n
      invariant forall n :: n in nodes ==> nodes[n].View() == m.nodes[n].(parents := [])
    {
      var n := g.nodes[ids[i]];
      assert n.id == ids[i] && n.View() == m.nodes[ids[i]];
      var copy := new CausalNode(n.id, [], n.fn, n.noise);
      assert copy.View() == n.View().(parents := []);
      nodes := nodes[ids[i] := copy];
    }
    assert forall n :: n in nodes <==> n in m.nodes by {
      assert forall n :: n in m.nodes ==> n in SeqSet(ids);
    }
  }

  /** The agent's graph: the same functions, parents rebuilt in edge order. */
  method ConvertPhase4GraphToPhase5Graph(p4: CausalGraph) returns (p5: CausalGraph)
    requires p4.Valid()
    ensures fresh(p5) && fresh(p5.nodes.Values) && p5.Valid()
    ensures p5.Model() == EdgeModel(old(p4.Model()))
  {
    hide EdgeModel, EdgeParents, Within;
    ghost var m := p4.Model();
    var nodes := CopyWithoutParents(p4);
    WithinAll(p4.edges, nodes.Keys);
    assert forall n :: n in nodes ==> nodes[n].View() == m.nodes[n].(parents := []);
    var kept := ConnectParents(nodes.Keys, p4.edges, nodes);
    p5 := new CausalGraph(nodes, kept);
    Rebuilt(p5.Model(), m);
  }

  lemma {:induction false} WithinAll(edges: seq<Arc>, nodes: set<Node>)
    requires Endpoints(edges) <= nodes
    ensures Within(edges, nodes) == edges
    decreases |edges|
  {
    if edges != [] {
      var init := edges[..|edges| - 1];
      assert edges == init + [edges[|edges| - 1]];
      assert edges[|edges| - 1] in edges;
      assert forall e :: e in init ==> e in edges;
      WithinAll(init, nodes);
    }
  }

  lemma Rebuilt(m5: Scm, m: Scm)
    requires m5.edges == m.edges && m5.nodes.Keys == m.nodes.Keys
    requires forall n :: n in m.nodes ==> m5.nodes[n] == m.nodes[n].(parents := EdgeParents(m.edges, n))
    ensures m5 == EdgeModel(m)
  {
    SameModel(m5, EdgeModel(m));
  }
}
