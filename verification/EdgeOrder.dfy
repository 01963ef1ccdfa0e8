/** Which engines still agree when edges are not in ID order. */
module EdgeOrder {
  import opened Digraph
  import opened Ids
  import opened Kahn
  import opened LinearAlgebra
  import opened RealArith
  import opened RidgeFit
  import opened ScmSemantics
  import opened WhatIf
  import opened Agent
  import opened Converters
  import opened DoOperators

  /** As on the graphs the bridge builds: parents are the in-edge tails, sorted, but the edges come
      as found. */
  ghost predicate ParentsSorted(m: Scm) {
    && Endpoints(m.edges) <= m.nodes.Keys
    && forall n :: n in m.nodes ==> m.nodes[n].parents == Sort(EdgeParents(m.edges, n))
  }

  lemma BridgedParentsSorted(m: Scm, nodeIDs: set<Node>, arcs: seq<Arc>)
    requires Bridged(m, nodeIDs, arcs)
    ensures ParentsSorted(m) && AllAdditive(m)
  {
    BridgedIsReady(m, nodeIDs, arcs, map[]);
  }

  /** The change of f from w to v, its inputs read in the given order. */
  ghost function Shift(f: StructuralFn, ps: seq<Node>, v: Values, w: Values): real {
    f(Inputs(v, ps), 0.0) - f(Inputs(w, ps), 0.0)
  }

  /** No change of n's function tells ID order from edge order. */
  ghost predicate OrderBlind(m: Scm, n: Node)
    requires n in m.nodes
  {
    forall v: Values, w: Values ::
      Shift(m.nodes[n].fn, m.nodes[n].parents, v, w) == Shift(m.nodes[n].fn, EdgeParents(m.edges, n), v, w)
  }

  /** The explanation phase and the agent give the same values for every sample and every set of
      simultaneous interventions. */
  ghost predicate AlwaysAgree(m: Scm) {
    forall s: Values, acts: map<Node, real>, explained: Values, agent: Values ::
      (acts.Keys <= m.nodes.Keys && IsEvaluation(World(m, s, acts), explained)
       && IsEvaluation(AgentWorld(EdgeModel(m), s, acts), agent)) ==> explained == agent
  }

  // ---------------------------------------------------------------------
  // The two worlds, equation by equation

  lemma SortedShape(m: Scm)
    requires ParentsSorted(m)
    ensures WellFormed(m) && WellFormed(EdgeModel(m))
    ensures EdgeModel(m).nodes.Keys == m.nodes.Keys && EdgeModel(m).edges == m.edges
  {
    forall n, p | n in m.nodes
      ensures p in m.nodes[n].parents <==> HasArc(m.edges, p, n)
      ensures p in EdgeModel(m).nodes[n].parents <==> HasArc(m.edges, p, n)
    {
      EdgeParentsIff(m.edges, n);
      SameElements(m.nodes[n].parents, EdgeParents(m.edges, n));
    }
  }

  lemma AgentWorldShape(m: Scm, s: Values, acts: map<Node, real>)
    requires ParentsSorted(m)
    ensures var a := AgentWorld(EdgeModel(m), s, acts);
            WellFormed(a) && a.edges == m.edges && a.nodes.Keys == m.nodes.Keys
  {
    SortedShape(m);
  }

  /** In the explanation phase's world a free node is at its sample value plus its function's change. */
  lemma WorldEquation(m: Scm, s: Values, acts: map<Node, real>, v: Values, n: Node)
    requires ParentsSorted(m) && AllAdditive(m) && n in m.nodes
    ensures n in World(m, s, acts).nodes
    ensures Holds(World(m, s, acts).nodes, v, n) <==>
              n in v && v[n] == if n in acts then acts[n] else Lookup(s, n) + Shift(m.nodes[n].fn, m.nodes[n].parents, v, s)
  {
    var e := World(m, s, acts).nodes[n];
    SortedFixed(m.nodes[n].parents);
    assert n !in acts ==> e.fn(Inputs(v, e.parents), e.noise) == e.fn(Inputs(v, e.parents), 0.0) + e.noise;
  }

  /** In the agent's world the same, with inputs in edge order. */
  lemma AgentEquation(m: Scm, s: Values, acts: map<Node, real>, v: Values, n: Node)
    requires AllAdditive(m) && n in m.nodes
    ensures n in AgentWorld(EdgeModel(m), s, acts).nodes
    ensures Holds(AgentWorld(EdgeModel(m), s, acts).nodes, v, n) <==>
              n in v && v[n] == if n in acts then acts[n]
                                else Lookup(s, n) + Shift(m.nodes[n].fn, EdgeParents(m.edges, n), v, s)
  {
    var e := AgentWorld(EdgeModel(m), s, acts).nodes[n];
    assert n !in acts ==> e.fn(Inputs(v, e.parents), e.noise) == e.fn(Inputs(v, e.parents), 0.0) + e.noise;
  }

  // ---------------------------------------------------------------------
  // Blind to the order: everything agrees

  lemma BlindAgree(m: Scm, s: Values, acts: map<Node, real>, explained: Values, agent: Values)
    requires ParentsSorted(m) && AllAdditive(m) && Acyclic(m.edges)
    requires forall n :: n in m.nodes ==> OrderBlind(m, n)
    requires IsEvaluation(World(m, s, acts), explained) && IsEvaluation(AgentWorld(EdgeModel(m), s, acts), agent)
    ensures explained == agent
  {
    hide World, AgentWorld, EdgeModel, IsEvaluation, Holds, Shift, ParentsSorted;
    SortedShape(m);
    WorldWellFormed(m, s, acts);
    AgentWorldShape(m, s, acts);
    KeysOfEvaluation(AgentWorld(EdgeModel(m), s, acts), agent);
    forall n | n in m.nodes
      ensures Holds(World(m, s, acts).nodes, agent, n)
    {
      AcyclicGrounded(m.edges, n);
      EvaluationHolds(AgentWorld(EdgeModel(m), s, acts), agent, n);
      AgentEquation(m, s, acts, agent, n);
      WorldEquation(m, s, acts, agent, n);
      assert OrderBlind(m, n);
    }
    SolutionsAgree(World(m, s, acts), explained, agent);
  }

  // ---------------------------------------------------------------------
  // Agreement everywhere: blind to the order

  /** An acyclic graph has a topological order. */
  lemma {:induction false} OrderExists(g: seq<Arc>, nodes: set<Node>, done: seq<Node>) returns (order: seq<Node>)
    requires Acyclic(g) && Endpoints(g) <= nodes && SeqSet(done) <= nodes && Distinct(done)
    requires forall i, p :: 0 <= i < |done| && HasArc(g, p, done[i]) ==> p in done[..i]
    ensures TopologicalOrder(g, nodes, order)
    decreases nodes - SeqSet(done)
  {
    var left := nodes - SeqSet(done);
    if left == {} {
      assert forall n :: n in nodes && n !in SeqSet(done) ==> n in left;
      order := done;
    } else {
      var n :| n in left;
      if forall b :: b in left ==> HasParentIn(g, left, b) {
        var c := NoSourceMeansCycle(g, left, n);
      }
      var next :| next in left && !HasParentIn(g, left, next);
      forall p | HasArc(g, p, next)
        ensures p in done
      {
        assert Arc(p, next) in g && p in Endpoints(g);
      }
      var longer := done + [next];
      assert SeqSet(longer) == SeqSet(done) + {next};
      forall i, p | 0 <= i < |longer| && HasArc(g, p, longer[i])
        ensures p in longer[..i]
      {
        assert longer[..|done|] == done;
        assert i < |done| ==> longer[..i] == done[..i];
      }
      order := OrderExists(g, nodes, longer);
    }
  }

  lemma EvaluationExists(m: Scm) returns (v: Values)
    requires WellFormed(m) && Acyclic(m.edges)
    ensures IsEvaluation(m, v)
  {
    var order := OrderExists(m.edges, m.nodes.Keys, []);
    assert forall n :: n in order ==> n in SeqSet(order);
    v := EvalFold(m.nodes, order);
    assert EvaluatedAlong(m, order, v);
  }

  /** Holding all parents of n at v, the two values of n differ by the two shifts. */
  lemma AgreeingIsBlind(m: Scm, n: Node, v: Values, w: Values)
    requires ParentsSorted(m) && AllAdditive(m) && Acyclic(m.edges) && AlwaysAgree(m) && n in m.nodes
    ensures Shift(m.nodes[n].fn, m.nodes[n].parents, v, w) == Shift(m.nodes[n].fn, EdgeParents(m.edges, n), v, w)
  {
    hide World, AgentWorld, EdgeModel, IsEvaluation, Holds, ParentsSorted;
    SortedShape(m);
    var acts := map p | p in m.nodes[n].parents :: Lookup(v, p);
    ParentsKnown(m, n);
    WorldWellFormed(m, w, acts);
    AgentWorldShape(m, w, acts);
    var explained := EvaluationExists(World(m, w, acts));
    var agent := EvaluationExists(AgentWorld(EdgeModel(m), w, acts));
    assert explained == agent;
    forall p | p in m.nodes[n].parents
      ensures Lookup(explained, p) == Lookup(v, p)
    {
      Effectiveness(m, w, acts, explained, p);
    }
    NotOwnParent(m, n);
    AcyclicGrounded(m.edges, n);
    EvaluationHolds(World(m, w, acts), explained, n);
    EvaluationHolds(AgentWorld(EdgeModel(m), w, acts), agent, n);
    WorldEquation(m, w, acts, explained, n);
    AgentEquation(m, w, acts, agent, n);
    SameInputs(m.nodes[n].parents, explained, v);
    EdgeTails(m, n);
    SameInputs(EdgeParents(m.edges, n), explained, v);
  }

  lemma NotOwnParent(m: Scm, n: Node)
    requires WellFormed(m) && Acyclic(m.edges) && n in m.nodes
    ensures n !in m.nodes[n].parents
  {
    if HasArc(m.edges, n, n) {
      ArcIsAncestor(m.edges, n, n);
    }
  }

  lemma EdgeTails(m: Scm, n: Node)
    requires ParentsSorted(m) && n in m.nodes
    ensures forall p :: p in EdgeParents(m.edges, n) <==> p in m.nodes[n].parents
  {
    SameElements(m.nodes[n].parents, EdgeParents(m.edges, n));
  }

  lemma SameInputs(ps: seq<Node>, v: Values, w: Values)
    requires forall p :: p in ps ==> Lookup(v, p) == Lookup(w, p)
    ensures Inputs(v, ps) == Inputs(w, ps)
  {
  }

  /** On an acyclic graph with additive functions and sorted parents, the explanation phase and
      the agent always agree exactly when no function tells ID order from edge order. */
  lemma AlwaysAgreeIff(m: Scm)
    requires ParentsSorted(m) && AllAdditive(m) && Acyclic(m.edges)
    ensures AlwaysAgree(m) <==> forall n :: n in m.nodes ==> OrderBlind(m, n)
  {
    if AlwaysAgree(m) {
      forall n, v: Values, w: Values | n in m.nodes
        ensures Shift(m.nodes[n].fn, m.nodes[n].parents, v, w) == Shift(m.nodes[n].fn, EdgeParents(m.edges, n), v, w)
      {
        AgreeingIsBlind(m, n, v, w);
      }
    }
    if forall n :: n in m.nodes ==> OrderBlind(m, n) {
      forall s: Values, acts: map<Node, real>, explained: Values, agent: Values |
        acts.Keys <= m.nodes.Keys && IsEvaluation(World(m, s, acts), explained)
        && IsEvaluation(AgentWorld(EdgeModel(m), s, acts), agent)
        ensures explained == agent
      {
        BlindAgree(m, s, acts, explained, agent);
      }
    }
  }

  // ---------------------------------------------------------------------
  // The what-if engine

  lemma CutAgentEquation(m: Scm, s: Values, target: Node, val: real, n: Node)
    requires n in m.nodes
    ensures var c, a := EdgeModel(CutWorld(m, s, target, val)).nodes[n],
                        AgentWorld(EdgeModel(m), s, map[target := val]).nodes[n];
            c.fn == a.fn && c.noise == a.noise && (if n == target then c.fn == Const(val) else c.parents == a.parents)
  {
    CutIntoIff(m.edges, target);
  }

  /** On every acyclic graph, whatever the edge order and the functions, the what-if engine and
      the agent agree: both read inputs along the edges. */
  lemma WhatIfAgreesWithAgent(m: Scm, s: Values, target: Node, val: real, simulated: Values, agent: Values)
    requires Endpoints(m.edges) <= m.nodes.Keys && Acyclic(m.edges) && target in m.nodes
    requires EdgeEvaluation(CutWorld(m, s, target, val), simulated)
    requires IsEvaluation(AgentWorld(EdgeModel(m), s, map[target := val]), agent)
    ensures simulated == agent
  {
    hide EdgeModel, EdgeParents, Inputs, AgentWorld, CutWorld, EdgeEvaluation, Holds, IsEvaluation;
    var c, a := CutWorld(m, s, target, val), AgentWorld(EdgeModel(m), s, map[target := val]);
    EdgeWorldShape(m, s, map[target := val]);
    CutAcyclic(m.edges, target);
    CutShape(m, s, target, val);
    CutOutcomeKeys(m, s, target, val, simulated);
    forall n | n in m.nodes
      ensures Holds(a.nodes, simulated, n)
    {
      AcyclicGrounded(c.edges, n);
      CutAgentEquation(m, s, target, val, n);
      EvaluatedAt(c, simulated, n);
      HoldsToo(EdgeModel(c).nodes, a.nodes, simulated, n, n == target, val);
    }
    SolutionsAgree(a, agent, simulated);
  }

  lemma EdgeWorldShape(m: Scm, s: Values, acts: map<Node, real>)
    requires Endpoints(m.edges) <= m.nodes.Keys
    ensures var a := AgentWorld(EdgeModel(m), s, acts);
            WellFormed(a) && a.edges == m.edges && a.nodes.Keys == m.nodes.Keys
  {
    forall n
      ensures forall p :: p in EdgeParents(m.edges, n) <==> HasArc(m.edges, p, n)
    {
      EdgeParentsIff(m.edges, n);
    }
  }

  /** So all three agree on one intervention wherever no function tells the orders apart. */
  lemma ThreeAgreeWhenBlind(m: Scm, s: Values, target: Node, val: real,
                            explained: Values, simulated: Values, agent: Values)
    requires ParentsSorted(m) && AllAdditive(m) && Acyclic(m.edges) && target in m.nodes
    requires forall n :: n in m.nodes ==> OrderBlind(m, n)
    requires IsEvaluation(World(m, s, map[target := val]), explained)
    requires EdgeEvaluation(CutWorld(m, s, target, val), simulated)
    requires IsEvaluation(AgentWorld(EdgeModel(m), s, map[target := val]), agent)
    ensures explained == simulated == agent
  {
    hide World, CutWorld, AgentWorld, EdgeModel, IsEvaluation, EdgeEvaluation, OrderBlind;
    BlindAgree(m, s, map[target := val], explained, agent);
    WhatIfAgreesWithAgent(m, s, target, val, simulated, agent);
  }

  // ---------------------------------------------------------------------
  // Linear functions

  /** What the first k coefficients give to p in all. */
  ghost function Gain(coefs: seq<real>, ps: seq<Node>, k: nat, p: Node): real
    requires k <= |coefs| && k <= |ps|
  {
    if k == 0 then 0.0 else Gain(coefs, ps, k - 1, p) + if ps[k - 1] == p then coefs[k - 1] else 0.0
  }

  lemma {:induction false} OneInput(coefs: seq<real>, ps: seq<Node>, k: nat, d: Values, p: Node)
    requires k <= |coefs| && k <= |ps| && p in d
    ensures WeightedSum(coefs, Inputs(d, ps), k)
         == WeightedSum(coefs, Inputs(d - {p}, ps), k) + Times(d[p], Gain(coefs, ps, k, p))
  {
    if k > 0 {
      OneInput(coefs, ps, k - 1, d, p);
      TimesDistributes(d[p], Gain(coefs, ps, k - 1, p), coefs[k - 1]);
      assert Times(coefs[k - 1], d[p]) == Times(d[p], coefs[k - 1]);
    }
    TimesUnits(d[p]);
    if k > 0 {
      TimesUnits(coefs[k - 1]);
    }
  }

  lemma {:induction false} NoInput(coefs: seq<real>, ps: seq<Node>, k: nat)
    requires k <= |coefs| && k <= |ps|
    ensures WeightedSum(coefs, Inputs(map[], ps), k) == 0.0
  {
    if k > 0 {
      NoInput(coefs, ps, k - 1);
      TimesUnits(coefs[k - 1]);
    }
  }

  /** Every parent has the same coefficient in both orders. */
  ghost predicate SameGains(coefs: seq<real>, ps: seq<Node>, qs: seq<Node>)
    requires |ps| == |qs| == |coefs|
  {
    forall p :: Gain(coefs, ps, |coefs|, p) == Gain(coefs, qs, |coefs|, p)
  }

  lemma {:induction false} SameGainsSameSum(coefs: seq<real>, ps: seq<Node>, qs: seq<Node>, d: Values)
    requires |ps| == |qs| == |coefs| && SameGains(coefs, ps, qs)
    ensures WeightedSum(coefs, Inputs(d, ps), |coefs|) == WeightedSum(coefs, Inputs(d, qs), |coefs|)
    decreases |d|
  {
    if p :| p in d {
      OneInput(coefs, ps, |coefs|, d, p);
      OneInput(coefs, qs, |coefs|, d, p);
      SameGainsSameSum(coefs, ps, qs, d - {p});
    } else {
      assert d == map[];
      NoInput(coefs, ps, |coefs|);
      NoInput(coefs, qs, |coefs|);
    }
  }

  /** For a linear function the orders are told apart exactly when some parent gets another
      coefficient: the condition to check on a fitted graph. */
  lemma LinearBlindIff(m: Scm, n: Node, coefs: seq<real>)
    requires n in m.nodes && LinearAt(m.nodes[n].fn, coefs)
    requires |coefs| == |m.nodes[n].parents| == |EdgeParents(m.edges, n)|
    ensures OrderBlind(m, n) <==> SameGains(coefs, m.nodes[n].parents, EdgeParents(m.edges, n))
  {
    hide LinearAt, Shift, WeightedSum, Inputs, EdgeParents;
    var f, ps, qs, k := m.nodes[n].fn, m.nodes[n].parents, EdgeParents(m.edges, n), |coefs|;
    if OrderBlind(m, n) {
      forall p
        ensures Gain(coefs, ps, k, p) == Gain(coefs, qs, k, p)
      {
        var d: Values := map[p := 1.0];
        assert d - {p} == map[];
        assert Shift(f, ps, d, map[]) == Shift(f, qs, d, map[]);
        LinearShift(f, coefs, ps, d, map[]);
        LinearShift(f, coefs, qs, d, map[]);
        OneInput(coefs, ps, k, d, p);
        OneInput(coefs, qs, k, d, p);
        NoInput(coefs, ps, k);
        NoInput(coefs, qs, k);
        OneTimes(Gain(coefs, ps, k, p));
        OneTimes(Gain(coefs, qs, k, p));
      }
    }
    if SameGains(coefs, ps, qs) {
      forall v: Values, w: Values
        ensures Shift(f, ps, v, w) == Shift(f, qs, v, w)
      {
        LinearShift(f, coefs, ps, v, w);
        LinearShift(f, coefs, qs, v, w);
        SameGainsSameSum(coefs, ps, qs, v);
        SameGainsSameSum(coefs, ps, qs, w);
      }
    }
  }

  lemma OneTimes(a: real)
    ensures Times(1.0, a) == a
  {
  }

  lemma LinearShift(f: StructuralFn, coefs: seq<real>, ps: seq<Node>, v: Values, w: Values)
    requires LinearAt(f, coefs) && |ps| == |coefs|
    ensures Shift(f, ps, v, w)
         == WeightedSum(coefs, Inputs(v, ps), |coefs|) - WeightedSum(coefs, Inputs(w, ps), |coefs|)
  {
  }

  // ---------------------------------------------------------------------
  // The bridge builds graphs that fail the condition

  const TWO_INTO_T := [Arc("b", "t"), Arc("a", "t")]
  const ONE_SAMPLE: seq<Sample> := [map["b" := 1.0, "t" := 1.0]]

  /** What the ridge fit gives the parents a and b of t, and the intercept. */
  const HALVES: seq<real> := [0.0, 1.0 / 2.0001, 1.0 / 2.0001]

  lemma TwoIntoTAcyclic()
    ensures Acyclic(TWO_INTO_T)
  {
    var g := TWO_INTO_T;
    assert "t"[0] != "a"[0] && "t"[0] != "b"[0];
    forall n
      ensures !Ancestor(g, n, n)
    {
      if w :| WalkFromTo(g, w, n, n) && |w| >= 2 {
        assert HasArc(g, w[0], w[0 + 1]) && w[1] == "t";
        assert HasArc(g, w[|w| - 2], w[|w| - 2 + 1]);
      }
    }
  }

  lemma TwoSorted()
    ensures Sort(["b", "a"]) == ["a", "b"]
  {
    hide Sort;
    var s := ["b", "a"];
    assert multiset(s) == multiset(["a", "b"]);
    assert "a"[0] < "b"[0] && !Less("b", "a");
    assert Sorted(["a", "b"]);
    SortedUnique(Sort(s), ["a", "b"]);
  }

  lemma TwoIntoT()
    ensures EdgeParents(TWO_INTO_T, "t") == ["b", "a"]
    ensures Within(TWO_INTO_T, {"a", "b", "t"}) == TWO_INTO_T
  {
    var g := TWO_INTO_T;
    var first := [g[0]];
    assert g[..1] == first && first[..0] == [];
    assert EdgeParents(first, "t") == EdgeParents([], "t") + ["b"];
    assert EdgeParents(g, "t") == EdgeParents(first, "t") + ["a"];
    WithinAll(g, {"a", "b", "t"});
  }

  lemma DotOfOne(a: real, b: real)
    ensures DotFrom([a], [b], 0) == a * b
  {
    assert DotFrom([a], [b], 1) == 0.0;
  }

  lemma DotOfThree(a: seq<real>, b: seq<real>)
    requires |a| == |b| == 3
    ensures DotFrom(a, b, 0) == a[0] * b[0] + a[1] * b[1] + a[2] * b[2]
  {
    assert DotFrom(a, b, 3) == 0.0;
    assert DotFrom(a, b, 2) == a[2] * b[2];
    assert DotFrom(a, b, 1) == a[1] * b[1] + a[2] * b[2];
  }

  /** One row [0, 1, 1] with target 1. */
  lemma HalvesFit()
    ensures RidgeOptimum(Design(["a", "b"], ONE_SAMPLE), 3, Targets("t", ONE_SAMPLE), HALVES)
  {
    var x, y := Design(["a", "b"], ONE_SAMPLE), Targets("t", ONE_SAMPLE);
    var row := [0.0, 1.0, 1.0];
    var s := ONE_SAMPLE[0];
    assert "a"[0] != "b"[0] && "a"[0] != "t"[0];
    assert Lookup(s, "a") == 0.0 && Lookup(s, "b") == 1.0 && Lookup(s, "t") == 1.0;
    assert DesignRow(["a", "b"], s) == row;
    assert x == [row] && y == [1.0];
    forall i | 0 <= i < 3
      ensures Dot(NormalMatrix(x, 3)[i], HALVES) == TransVec(x, 3, y)[i]
    {
      assert Column(x, 3, i) == [row[i]];
      forall j | 0 <= j < 3
        ensures NormalRow(x, 3, i)[j] == row[i] * row[j] + if i == j then RIDGE else 0.0
      {
        assert Column(x, 3, j) == [row[j]];
        DotOfOne(row[i], row[j]);
      }
      DotOfOne(row[i], 1.0);
      DotOfThree(NormalRow(x, 3, i), HALVES);
    }
    SolutionIsOptimum(x, 3, y, HALVES);
  }

  /** On that graph the function fitted to t's parents in ID order gives a nothing and b about a
      half; read in edge order it gives them the other way round. */
  lemma BridgeCanDisagree(m: Scm)
    requires Bridged(m, {"a", "b", "t"}, TWO_INTO_T)
    requires FittedTo(m.nodes["t"].fn, m.nodes["t"].parents, "t", ONE_SAMPLE)
    ensures !OrderBlind(m, "t") && !AlwaysAgree(m)
  {
    hide RidgeOptimum, Outputs, OrderBlind, LinearAt, Fitted, Sort, EdgeParents, Acyclic, Within;
    var f, ps, qs := m.nodes["t"].fn, ["a", "b"], ["b", "a"];
    TwoIntoT();
    TwoSorted();
    TwoIntoTAcyclic();
    assert m.nodes["t"].parents == ps && EdgeParents(m.edges, "t") == qs;
    var x, y := Design(ps, ONE_SAMPLE), Targets("t", ONE_SAMPLE);
    var beta :| RidgeOptimum(x, 3, y, beta) && Outputs(f, beta);
    HalvesFit();
    OptimumUnique(x, 3, y, beta, HALVES);
    OutputsLinear(f, HALVES);
    var coefs := HALVES[..2];
    LinearBlindIff(m, "t", coefs);
    assert Gain(coefs, ps, 2, "a") == 0.0 + 0.0 by {
      assert Gain(coefs, ps, 1, "a") == 0.0;
    }
    assert Gain(coefs, qs, 2, "a") == coefs[1] by {
      assert Gain(coefs, qs, 1, "a") == 0.0;
    }
    BridgedParentsSorted(m, {"a", "b", "t"}, TWO_INTO_T);
    AlwaysAgreeIff(m);
  }
}
