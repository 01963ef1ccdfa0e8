/** Structural causal models as values: evaluating one along an order, the world
    that abduction and intervention build, and what holds in that world.
    The three implementations are all proved against it. */
module ScmSemantics {
  import opened Digraph
  import opened Ids
  import opened Kahn
  import opened RidgeFit

  /** One node: its parents in input order, its function and its noise term. */
  datatype Equation = Equation(parents: seq<Node>, fn: StructuralFn, noise: real)

  datatype Scm = Scm(nodes: map<Node, Equation>, edges: seq<Arc>)

  type Values = map<Node, real>

  function Inputs(v: Values, parents: seq<Node>): (r: seq<real>)
    ensures |r| == |parents|
  {
    seq(|parents|, i requires 0 <= i < |parents| => Lookup(v, parents[i]))
  }

  /** The equation that ignores its inputs and its noise. */
  function Const(val: real): StructuralFn {
    (inputs: seq<real>, noise: real) => val
  }

  /** Parents are exactly the tails of the edges into a node, and no edge leaves the node set. */
  ghost predicate WellFormed(m: Scm) {
    && Endpoints(m.edges) <= m.nodes.Keys
    && forall n, p :: n in m.nodes ==> (p in m.nodes[n].parents <==> HasArc(m.edges, p, n))
  }

  // ---------------------------------------------------------------------
  // Evaluation along an order

  ghost function EvalFold(nodes: map<Node, Equation>, order: seq<Node>): (v: Values)
    requires forall n :: n in order ==> n in nodes
    ensures v.Keys == SeqSet(order)
    decreases |order|
  {
    if order == [] then map[]
    else
      var n := order[|order| - 1];
      var init := order[..|order| - 1];
      var prev := EvalFold(nodes, init);
      assert SeqSet(order) == SeqSet(init) + {n};
      prev[n := nodes[n].fn(Inputs(prev, nodes[n].parents), nodes[n].noise)]
  }

  lemma FoldOne(nodes: map<Node, Equation>, order: seq<Node>, n: Node)
    requires n in nodes && forall k :: k in order ==> k in nodes
    ensures var v := EvalFold(nodes, order);
            EvalFold(nodes, order + [n]) == v[n := nodes[n].fn(Inputs(v, nodes[n].parents), nodes[n].noise)]
  {
    assert (order + [n])[..|order|] == order;
  }

  /** v satisfies the equation of n. */
  ghost predicate Holds(nodes: map<Node, Equation>, v: Values, n: Node)
    requires n in nodes
  {
    n in v && v[n] == nodes[n].fn(Inputs(v, nodes[n].parents), nodes[n].noise)
  }

  /** Later evaluations do not touch earlier values. */
  lemma {:induction false} FoldStable(nodes: map<Node, Equation>, order: seq<Node>, j: nat, n: Node)
    requires forall k :: k in order ==> k in nodes
    requires Distinct(order) && j <= |order| && n in order[..j]
    ensures n in EvalFold(nodes, order) && EvalFold(nodes, order)[n] == EvalFold(nodes, order[..j])[n]
    decreases |order|
  {
    if j < |order| {
      var init := order[..|order| - 1];
      assert init[..j] == order[..j];
      FoldStable(nodes, init, j, n);
      assert order[|order| - 1] !in order[..j];
    } else {
      assert order[..j] == order;
    }
  }

  /** A node evaluated after all its parents satisfies its equation in the final result. */
  lemma FoldHolds(nodes: map<Node, Equation>, order: seq<Node>, i: nat)
    requires forall k :: k in order ==> k in nodes
    requires Distinct(order) && i < |order| && forall p :: p in nodes[order[i]].parents ==> p in order[..i]
    ensures Holds(nodes, EvalFold(nodes, order), order[i])
  {
    var n := order[i];
    var v, prev := EvalFold(nodes, order), EvalFold(nodes, order[..i]);
    var upto := order[..i + 1];
    assert upto[..|upto| - 1] == order[..i] && upto[|upto| - 1] == n;
    FoldStable(nodes, order, i + 1, n);
    forall k | 0 <= k < |nodes[n].parents|
      ensures Inputs(v, nodes[n].parents)[k] == Inputs(prev, nodes[n].parents)[k]
    {
      FoldStable(nodes, order, i, nodes[n].parents[k]);
    }
    assert Inputs(v, nodes[n].parents) == Inputs(prev, nodes[n].parents);
  }

  /** A constant equation yields its constant wherever it stands in the order. */
  lemma FoldConst(nodes: map<Node, Equation>, order: seq<Node>, i: nat, val: real)
    requires forall k :: k in order ==> k in nodes
    requires Distinct(order) && i < |order| && nodes[order[i]].fn == Const(val)
    ensures order[i] in EvalFold(nodes, order) && EvalFold(nodes, order)[order[i]] == val
  {
    var upto := order[..i + 1];
    assert upto[..|upto| - 1] == order[..i] && upto[|upto| - 1] == order[i];
    FoldStable(nodes, order, i + 1, order[i]);
  }

  ghost predicate IsEvaluation(m: Scm, v: Values) {
    exists order :: TopologicalOrder(m.edges, m.nodes.Keys, order) && EvaluatedAlong(m, order, v)
  }

  ghost predicate EvaluatedAlong(m: Scm, order: seq<Node>, v: Values) {
    (forall n :: n in order ==> n in m.nodes) && v == EvalFold(m.nodes, order)
  }

  lemma NothingYet(m: Scm)
    ensures EvaluatedAlong(m, [], map[])
  {
  }

  /** One more node along the order. */
  lemma EvaluatedNext(m: Scm, done: seq<Node>, n: Node, v: Values, val: real)
    requires EvaluatedAlong(m, done, v) && n in m.nodes
    requires val == m.nodes[n].fn(Inputs(v, m.nodes[n].parents), m.nodes[n].noise)
    ensures EvaluatedAlong(m, done + [n], v[n := val])
  {
    hide EvalFold, Inputs;
    FoldOne(m.nodes, done, n);
  }

  /** Evaluation covers every node, and satisfies the equation of every node that
      has no cycle above it. */
  lemma EvaluationHolds(m: Scm, v: Values, n: Node)
    requires WellFormed(m) && IsEvaluation(m, v) && n in m.nodes
    ensures v.Keys == m.nodes.Keys
    ensures Grounded(m.edges, n) ==> Holds(m.nodes, v, n)
  {
    var order :| TopologicalOrder(m.edges, m.nodes.Keys, order) && EvaluatedAlong(m, order, v);
    assert n in SeqSet(order);
    var i :| 0 <= i < |order| && order[i] == n;
    if Grounded(m.edges, n) {
      FoldHolds(m.nodes, order, i);
    }
  }

  lemma EvaluationConst(m: Scm, v: Values, n: Node, val: real)
    requires IsEvaluation(m, v) && n in m.nodes && m.nodes[n].fn == Const(val)
    ensures n in v && v[n] == val
  {
    var order :| TopologicalOrder(m.edges, m.nodes.Keys, order) && EvaluatedAlong(m, order, v);
    assert n in SeqSet(order);
    var i :| 0 <= i < |order| && order[i] == n;
    FoldConst(m.nodes, order, i, val);
  }

  // ---------------------------------------------------------------------
  // Abduction, action, prediction

  /** The noise under which the equation of n reproduces the sample. */
  ghost function AbductedNoise(m: Scm, s: Values, n: Node): real
    requires n in m.nodes
  {
    Lookup(s, n) - m.nodes[n].fn(Inputs(s, m.nodes[n].parents), 0.0)
  }

  ghost function Noise(m: Scm, s: Values): (u: map<Node, real>)
    ensures u.Keys == m.nodes.Keys
  {
    map n | n in m.nodes :: AbductedNoise(m, s, n)
  }

  /** u holds abducted noise for some of the nodes. */
  ghost predicate NoiseOf(m: Scm, s: Values, u: map<Node, real>) {
    forall n :: n in u ==> n in m.nodes && u[n] == AbductedNoise(m, s, n)
  }

  lemma NoNoise(m: Scm, s: Values)
    ensures NoiseOf(m, s, map[])
  {
  }

  lemma OneNoise(m: Scm, s: Values, u: map<Node, real>, n: Node, val: real)
    requires NoiseOf(m, s, u) && n in m.nodes && val == AbductedNoise(m, s, n)
    ensures NoiseOf(m, s, u[n := val])
  {
  }

  lemma AllNoise(m: Scm, s: Values, ids: seq<Node>, u: map<Node, real>)
    requires NoiseOf(m, s, u) && forall n :: n in m.nodes ==> n in ids
    requires forall k :: 0 <= k < |ids| ==> ids[k] in u
    ensures u == Noise(m, s)
  {
  }

  /** A copied node: parents in ID order, noise cleared. */
  ghost function ClonedEquation(e: Equation): Equation {
    Equation(Sort(e.parents), e.fn, 0.0)
  }

  ghost function Cloned(m: Scm): Scm {
    Scm(map n | n in m.nodes :: ClonedEquation(m.nodes[n]), m.edges)
  }

  ghost function Intervened(m: Scm, acts: map<Node, real>): Scm {
    Scm(map n | n in m.nodes :: if n in acts then m.nodes[n].(fn := Const(acts[n])) else m.nodes[n], m.edges)
  }

  ghost function WithNoise(m: Scm, u: map<Node, real>): Scm {
    Scm(map n | n in m.nodes :: m.nodes[n].(noise := Lookup(u, n)), m.edges)
  }

  ghost function FnUnder(m: Scm, acts: map<Node, real>, n: Node): StructuralFn
    requires n in m.nodes
  {
    if n in acts then Const(acts[n]) else m.nodes[n].fn
  }

  /** The world of one sample and one intervention: parents in ID order, constants at the
      intervened nodes, the noise that explains the sample. */
  ghost function World(m: Scm, s: Values, acts: map<Node, real>): Scm {
    Scm(map n | n in m.nodes :: Equation(Sort(m.nodes[n].parents), FnUnder(m, acts, n), AbductedNoise(m, s, n)), m.edges)
  }

  /** It is what cloning, intervening and setting the noise, in this order, arrive at. */
  lemma WorldComposed(m: Scm, s: Values, acts: map<Node, real>)
    ensures WithNoise(Intervened(Cloned(m), acts), Noise(m, s)) == World(m, s, acts)
  {
    var w, c := World(m, s, acts), WithNoise(Intervened(Cloned(m), acts), Noise(m, s));
    assert c.nodes.Keys == w.nodes.Keys;
    assert forall n :: n in w.nodes ==> c.nodes[n] == w.nodes[n];
    assert c.nodes == w.nodes;
  }

  ghost predicate AllAdditive(m: Scm) {
    forall n :: n in m.nodes ==> Additive(m.nodes[n].fn)
  }

  /** At this sample, putting the inputs in ID order does not change the value of n's function. */
  ghost predicate Insensitive(m: Scm, s: Values, n: Node)
    requires n in m.nodes
  {
    m.nodes[n].fn(Inputs(s, Sort(m.nodes[n].parents)), 0.0) == m.nodes[n].fn(Inputs(s, m.nodes[n].parents), 0.0)
  }

  lemma SortedParentsInsensitive(m: Scm, s: Values, n: Node)
    requires n in m.nodes && Sorted(m.nodes[n].parents)
    ensures Insensitive(m, s, n)
  {
    SortedFixed(m.nodes[n].parents);
  }

  lemma WorldWellFormed(m: Scm, s: Values, acts: map<Node, real>)
    requires WellFormed(m)
    ensures WellFormed(World(m, s, acts)) && World(m, s, acts).edges == m.edges
    ensures World(m, s, acts).nodes.Keys == m.nodes.Keys
  {
    forall n | n in m.nodes
      ensures forall p :: p in Sort(m.nodes[n].parents) <==> p in m.nodes[n].parents
    {
      SameElements(Sort(m.nodes[n].parents), m.nodes[n].parents);
    }
  }

  /** Effectiveness: an intervened node takes exactly its set value, on any graph. */
  lemma Effectiveness(m: Scm, s: Values, acts: map<Node, real>, v: Values, n: Node)
    requires IsEvaluation(World(m, s, acts), v) && n in m.nodes && n in acts
    ensures n in v && v[n] == acts[n]
  {
    EvaluationConst(World(m, s, acts), v, n, acts[n]);
  }

  ghost predicate Reached(g: seq<Arc>, acts: set<Node>, n: Node) {
    exists t :: t in acts && Reaches(g, t, n)
  }

  lemma UnreachedParent(g: seq<Arc>, acts: set<Node>, p: Node, n: Node)
    requires !Reached(g, acts, n) && HasArc(g, p, n)
    ensures !Reached(g, acts, p)
  {
    if t :| t in acts && Reaches(g, t, p) {
      ArcIsAncestor(g, p, n);
      ReachesIff(g, p, n);
      ReachesTrans(g, t, p, n);
    }
  }

  /** The value of an un-intervened node whose inputs all have their sample values. */
  lemma WorldValue(m: Scm, s: Values, acts: map<Node, real>, v: Values, n: Node)
    requires WellFormed(m) && n in m.nodes && n !in acts && Additive(m.nodes[n].fn)
    requires Holds(World(m, s, acts).nodes, v, n)
    requires forall p :: p in m.nodes[n].parents ==> Lookup(v, p) == Lookup(s, p)
    ensures v[n] - Lookup(s, n) ==
            m.nodes[n].fn(Inputs(s, Sort(m.nodes[n].parents)), 0.0) - m.nodes[n].fn(Inputs(s, m.nodes[n].parents), 0.0)
  {
    var e := World(m, s, acts).nodes[n];
    SameElements(e.parents, m.nodes[n].parents);
    assert Inputs(v, e.parents) == Inputs(s, e.parents);
    assert e.fn(Inputs(s, e.parents), e.noise) == e.fn(Inputs(s, e.parents), 0.0) + e.noise;
  }

  /** Locality: a node that no intervened node reaches keeps its sample value, if
      there is no cycle above it. With no interventions this is consistency. */
  lemma {:induction false} LocalityAt(m: Scm, s: Values, acts: map<Node, real>, v: Values, order: seq<Node>, j: nat)
    requires WellFormed(m) && AllAdditive(m) && IsEvaluation(World(m, s, acts), v)
    requires TopologicalOrder(m.edges, m.nodes.Keys, order) && j < |order|
    requires Grounded(m.edges, order[j]) && !Reached(m.edges, acts.Keys, order[j])
    requires forall n :: n in m.nodes ==> Insensitive(m, s, n)
    ensures order[j] in v && v[order[j]] == Lookup(s, order[j])
    decreases j
  {
    var n := order[j];
    assert n in SeqSet(order);
    WorldWellFormed(m, s, acts);
    EvaluationHolds(World(m, s, acts), v, n);
    ReachesSelf(m.edges, n);
    forall p | p in m.nodes[n].parents
      ensures Lookup(v, p) == Lookup(s, p)
    {
      GroundedParent(m.edges, p, n);
      UnreachedParent(m.edges, acts.Keys, p, n);
      assert p in order[..j];
      var i :| 0 <= i < j && order[i] == p;
      LocalityAt(m, s, acts, v, order, i);
    }
    WorldValue(m, s, acts, v, n);
    assert Insensitive(m, s, n);
  }

  lemma Locality(m: Scm, s: Values, acts: map<Node, real>, v: Values, n: Node)
    requires WellFormed(m) && AllAdditive(m) && IsEvaluation(World(m, s, acts), v)
    requires n in m.nodes && Grounded(m.edges, n) && !Reached(m.edges, acts.Keys, n)
    requires forall k :: k in m.nodes ==> Insensitive(m, s, k)
    ensures n in v && v[n] == Lookup(s, n)
  {
    WorldWellFormed(m, s, acts);
    var order :| TopologicalOrder(m.edges, World(m, s, acts).nodes.Keys, order);
    assert n in SeqSet(order);
    var j :| 0 <= j < |order| && order[j] == n;
    LocalityAt(m, s, acts, v, order, j);
  }

  ghost predicate Reproduces(m: Scm, s: Values, v: Values) {
    forall n :: n in m.nodes ==> n in v && v[n] == Lookup(s, n)
  }

  /** On an acyclic graph, the counterfactual without interventions reproduces the
      sample exactly when no function notices that its inputs were put in ID order. */
  lemma ConsistencyIff(m: Scm, s: Values, v: Values)
    requires WellFormed(m) && AllAdditive(m) && Acyclic(m.edges) && IsEvaluation(World(m, s, map[]), v)
    ensures Reproduces(m, s, v) <==> forall n :: n in m.nodes ==> Insensitive(m, s, n)
  {
    hide World, IsEvaluation, Insensitive, WellFormed;
    var none: map<Node, real> := map[];
    if forall n :: n in m.nodes ==> Insensitive(m, s, n) {
      forall n | n in m.nodes
        ensures n in v && v[n] == Lookup(s, n)
      {
        AcyclicGrounded(m.edges, n);
        NoneReached(m.edges, none.Keys, n);
        Locality(m, s, none, v, n);
      }
    }
    if Reproduces(m, s, v) {
      WorldWellFormed(m, s, none);
      forall n | n in m.nodes
        ensures Insensitive(m, s, n)
      {
        AcyclicGrounded(m.edges, n);
        EvaluationHolds(World(m, s, none), v, n);
        ParentsKnown(m, n);
        WorldValue(m, s, none, v, n);
        SameDifference(m, s, n);
      }
    }
  }

  lemma NoneReached(g: seq<Arc>, acts: set<Node>, n: Node)
    requires acts == {}
    ensures !Reached(g, acts, n)
  {
  }

  lemma ParentsKnown(m: Scm, n: Node)
    requires WellFormed(m) && n in m.nodes
    ensures forall p :: p in m.nodes[n].parents ==> p in m.nodes
  {
    forall p | p in m.nodes[n].parents
      ensures p in m.nodes
    {
      assert Arc(p, n) in m.edges;
    }
  }

  lemma SameDifference(m: Scm, s: Values, n: Node)
    requires n in m.nodes
    ensures Insensitive(m, s, n) <==>
              m.nodes[n].fn(Inputs(s, Sort(m.nodes[n].parents)), 0.0) - m.nodes[n].fn(Inputs(s, m.nodes[n].parents), 0.0) == 0.0
  {
  }
}
