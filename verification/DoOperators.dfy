/** The three do-operators of the engine compute the same values: a constant
    function on a sorted clone, cut in-edges, and the agent after graph conversion.
    On acyclic graphs a model has one evaluation. */
module DoOperators {
  import opened Digraph
  import opened Ids
  import opened Kahn
  import opened ScmSemantics
  import opened ScmGraph
  import opened WhatIf
  import opened Agent

  /** Equations that hold at every node of an acyclic model have one solution. */
  lemma {:induction false} SolutionsAgreeAt(m: Scm, v: Values, w: Values, order: seq<Node>, j: nat)
    requires WellFormed(m) && Acyclic(m.edges) && TopologicalOrder(m.edges, m.nodes.Keys, order) && j < |order|
    requires forall n :: n in m.nodes ==> Holds(m.nodes, v, n) && Holds(m.nodes, w, n)
    ensures order[j] in v && order[j] in w && v[order[j]] == w[order[j]]
    decreases j
  {
    var n := order[j];
    assert n in SeqSet(order);
    AcyclicGrounded(m.edges, n);
    var ps := m.nodes[n].parents;
    forall k | 0 <= k < |ps|
      ensures Inputs(v, ps)[k] == Inputs(w, ps)[k]
    {
      assert ps[k] in ps;
      assert ps[k] in order[..j];
      var i :| 0 <= i < j && order[i] == ps[k];
      SolutionsAgreeAt(m, v, w, order, i);
    }
    assert Inputs(v, ps) == Inputs(w, ps);
  }

  lemma SolutionsAgree(m: Scm, v: Values, w: Values)
    requires WellFormed(m) && Acyclic(m.edges) && IsEvaluation(m, v)
    requires w.Keys == m.nodes.Keys && forall n :: n in m.nodes ==> Holds(m.nodes, w, n)
    ensures v == w
  {
    var order :| TopologicalOrder(m.edges, m.nodes.Keys, order) && EvaluatedAlong(m, order, v);
    forall n | n in m.nodes
      ensures n in v && Holds(m.nodes, v, n)
    {
      AcyclicGrounded(m.edges, n);
      EvaluationHolds(m, v, n);
    }
    assert v.Keys == m.nodes.Keys;
    forall n | n in m.nodes
      ensures v[n] == w[n]
    {
      assert n in SeqSet(order);
      var j :| 0 <= j < |order| && order[j] == n;
      SolutionsAgreeAt(m, v, w, order, j);
    }
  }

  /** On an acyclic graph the values do not depend on the order chosen. */
  lemma EvaluationsAgree(m: Scm, v: Values, w: Values)
    requires WellFormed(m) && Acyclic(m.edges) && IsEvaluation(m, v) && IsEvaluation(m, w)
    ensures v == w
  {
    forall n | n in m.nodes
      ensures n in w && Holds(m.nodes, w, n)
    {
      AcyclicGrounded(m.edges, n);
      EvaluationHolds(m, w, n);
    }
    KeysOfEvaluation(m, w);
    SolutionsAgree(m, v, w);
  }

  lemma KeysOfEvaluation(m: Scm, w: Values)
    requires IsEvaluation(m, w)
    ensures w.Keys == m.nodes.Keys
  {
  }

  /** Every parent list is the list of in-edge tails in edge order, and that order is ID order. */
  ghost predicate EdgesInIdOrder(m: Scm) {
    forall n :: n in m.nodes ==> m.nodes[n].parents == EdgeParents(m.edges, n) && Sorted(m.nodes[n].parents)
  }

  lemma InIdOrder(m: Scm)
    requires EdgesInIdOrder(m)
    ensures EdgeModel(m) == m && Cloned(m) == Cleared(m)
    ensures Endpoints(m.edges) <= m.nodes.Keys ==> WellFormed(m)
  {
    SameModel(EdgeModel(m), m);
    forall n | n in m.nodes
      ensures Sort(m.nodes[n].parents) == m.nodes[n].parents
    {
      SortedFixed(m.nodes[n].parents);
    }
    SameModel(Cloned(m), Cleared(m));
    forall n, p | n in m.nodes
      ensures p in m.nodes[n].parents <==> HasArc(m.edges, p, n)
    {
      EdgeParentsIff(m.edges, n);
    }
  }

  /** The explanation phase and the agent build the same world. */
  lemma SameWorld(m: Scm, s: Values, acts: map<Node, real>)
    requires EdgesInIdOrder(m)
    ensures AgentWorld(EdgeModel(m), s, acts) == World(m, s, acts)
  {
    InIdOrder(m);
  }

  /** Cutting edges cannot create a cycle. */
  lemma CutAcyclic(edges: seq<Arc>, target: Node)
    requires Acyclic(edges)
    ensures Acyclic(CutInto(edges, target))
  {
    CutIntoIff(edges, target);
    var cut := CutInto(edges, target);
    forall n
      ensures !Ancestor(cut, n, n)
    {
      if w :| WalkFromTo(cut, w, n, n) && |w| >= 2 {
        forall i | 0 <= i < |w| - 1
          ensures HasArc(edges, w[i], w[i + 1])
        {
          assert HasArc(cut, w[i], w[i + 1]);
        }
        assert WalkFromTo(edges, w, n, n);
        assert Ancestor(edges, n, n);
      }
    }
  }

  /** At every node the cut world and the explanation phase's world share an equation. */
  lemma CutEquation(m: Scm, s: Values, target: Node, val: real, n: Node)
    requires EdgesInIdOrder(m) && n in m.nodes
    ensures var c, w := EdgeModel(CutWorld(m, s, target, val)).nodes[n], World(m, s, map[target := val]).nodes[n];
            c.fn == w.fn && c.noise == w.noise && (if n == target then c.fn == Const(val) else c.parents == w.parents)
  {
    InIdOrder(m);
    CutIntoIff(m.edges, target);
    SortedFixed(m.nodes[n].parents);
  }

  /** An equation that agrees in function and noise holds as well, if it is constant
      or has the same inputs. */
  lemma HoldsToo(nodes: map<Node, Equation>, others: map<Node, Equation>, v: Values, n: Node, isConst: bool, val: real)
    requires n in nodes && n in others && Holds(nodes, v, n)
    requires nodes[n].fn == others[n].fn && nodes[n].noise == others[n].noise
    requires if isConst then nodes[n].fn == Const(val) else nodes[n].parents == others[n].parents
    ensures Holds(others, v, n)
  {
  }

  lemma CutShape(m: Scm, s: Values, target: Node, val: real)
    ensures CutWorld(m, s, target, val).nodes.Keys == World(m, s, map[target := val]).nodes.Keys == m.nodes.Keys
    ensures CutWorld(m, s, target, val).edges == CutInto(m.edges, target)
  {
  }

  lemma EvaluatedAt(m: Scm, v: Values, n: Node)
    requires EdgeEvaluation(m, v) && n in m.nodes && Grounded(m.edges, n)
    ensures n in v && n in EdgeModel(m).nodes && Holds(EdgeModel(m).nodes, v, n)
  {
  }

  /** The what-if outcome satisfies the equations of the explanation phase's world. */
  lemma CutOutcomeHolds(m: Scm, s: Values, target: Node, val: real, v: Values)
    requires EdgesInIdOrder(m) && Acyclic(m.edges) && target in m.nodes
    requires EdgeEvaluation(CutWorld(m, s, target, val), v)
    ensures forall n :: n in m.nodes ==> n in World(m, s, map[target := val]).nodes
    ensures forall n :: n in m.nodes ==> Holds(World(m, s, map[target := val]).nodes, v, n)
  {
    hide EdgeModel, EdgeParents, Inputs, World, CutWorld, EdgeEvaluation, Holds, EdgesInIdOrder;
    var c := CutWorld(m, s, target, val);
    var w := World(m, s, map[target := val]);
    CutAcyclic(m.edges, target);
    CutShape(m, s, target, val);
    forall n | n in m.nodes
      ensures Holds(w.nodes, v, n)
    {
      AcyclicGrounded(c.edges, n);
      CutEquation(m, s, target, val, n);
      EvaluatedAt(c, v, n);
      HoldsToo(EdgeModel(c).nodes, w.nodes, v, n, n == target, val);
    }
  }

  lemma CutOutcomeKeys(m: Scm, s: Values, target: Node, val: real, v: Values)
    requires Acyclic(m.edges) && EdgeEvaluation(CutWorld(m, s, target, val), v)
    ensures v.Keys == m.nodes.Keys
  {
    CutAcyclic(m.edges, target);
    CutShape(m, s, target, val);
    forall n | n in m.nodes
      ensures n in v
    {
      AcyclicGrounded(CutInto(m.edges, target), n);
    }
  }

  /** One intervention, three engines, one answer. */
  lemma ThreeDoOperatorsAgree(m: Scm, s: Values, target: Node, val: real,
                              explained: Values, simulated: Values, agent: Values)
    requires EdgesInIdOrder(m) && Endpoints(m.edges) <= m.nodes.Keys && Acyclic(m.edges) && target in m.nodes
    requires IsEvaluation(World(m, s, map[target := val]), explained)
    requires EdgeEvaluation(CutWorld(m, s, target, val), simulated)
    requires IsEvaluation(AgentWorld(EdgeModel(m), s, map[target := val]), agent)
    ensures explained == simulated == agent
  {
    InIdOrder(m);
    var acts := map[target := val];
    SameWorld(m, s, acts);
    WorldWellFormed(m, s, acts);
    EvaluationsAgree(World(m, s, acts), explained, agent);
    CutOutcomeHolds(m, s, target, val, simulated);
    CutOutcomeKeys(m, s, target, val, simulated);
    SolutionsAgree(World(m, s, acts), explained, simulated);
  }

  /** For any set of simultaneous interventions, the first and the last agree. */
  lemma ExplanationAgreesWithAgent(m: Scm, s: Values, acts: map<Node, real>, explained: Values, agent: Values)
    requires EdgesInIdOrder(m) && Endpoints(m.edges) <= m.nodes.Keys && Acyclic(m.edges)
    requires IsEvaluation(World(m, s, acts), explained)
    requires IsEvaluation(AgentWorld(EdgeModel(m), s, acts), agent)
    ensures explained == agent
  {
    InIdOrder(m);
    SameWorld(m, s, acts);
    WorldWellFormed(m, s, acts);
    EvaluationsAgree(World(m, s, acts), explained, agent);
  }
}
