/** The effect estimate of the explanation phase. For linear structural functions it
    is the sum over directed paths of the products of edge coefficients, whatever
    the dataset, with no spread between samples. */
module BackdoorEffect {
  import opened Digraph
  import opened Ids
  import opened Kahn
  import opened RealArith
  import opened RidgeFit
  import opened ScmSemantics
  import opened ScmGraph
  import opened Explainer
  import opened Converters
  import opened Statistics

  // ---------------------------------------------------------------------
  // Directed paths, read backwards from the effect

  /** One step of a path: which parent of the node it came from. */
  datatype Hop = Hop(node: Node, parent: nat)

  type Coefs = map<Node, seq<real>>

  ghost predicate CoefsFor(m: Scm, coefs: Coefs) {
    coefs.Keys == m.nodes.Keys &&
    forall n :: n in m.nodes ==> |coefs[n]| == |m.nodes[n].parents| && LinearAt(m.nodes[n].fn, coefs[n])
  }

  /** path leads from n back to cause, one parent reference at a time. */
  ghost predicate IsPath(m: Scm, cause: Node, n: Node, path: seq<Hop>)
    decreases |path|
  {
    if path == [] then n == cause
    else
      n != cause && path[0].node == n && n in m.nodes && path[0].parent < |m.nodes[n].parents| &&
      IsPath(m, cause, m.nodes[n].parents[path[0].parent], path[1..])
  }

  ghost predicate InRange(coefs: Coefs, h: Hop) {
    h.node in coefs && h.parent < |coefs[h.node]|
  }

  ghost function Weight(coefs: Coefs, path: seq<Hop>): real {
    if path == [] then 1.0
    else Times(if InRange(coefs, path[0]) then coefs[path[0].node][path[0].parent] else 0.0, Weight(coefs, path[1..]))
  }

  ghost function Prefixed(h: Hop, paths: seq<seq<Hop>>): (r: seq<seq<Hop>>)
    ensures |r| == |paths|
  {
    seq(|paths|, i requires 0 <= i < |paths| => [h] + paths[i])
  }

  /** All paths with at most `fuel` hops, through the first k parents of n. */
  ghost function PathsThrough(m: Scm, cause: Node, n: Node, fuel: nat, k: nat): seq<seq<Hop>>
    requires n in m.nodes && k <= |m.nodes[n].parents| && fuel > 0
    decreases fuel, 0, k
  {
    if k == 0 then []
    else
      PathsThrough(m, cause, n, fuel, k - 1) +
      Prefixed(Hop(n, k - 1), Paths(m, cause, m.nodes[n].parents[k - 1], fuel - 1))
  }

  /** All paths from cause to n with at most `fuel` hops. */
  ghost function Paths(m: Scm, cause: Node, n: Node, fuel: nat): seq<seq<Hop>>
    decreases fuel, 1, 0
  {
    if n == cause then [[]]
    else if fuel == 0 || n !in m.nodes then []
    else PathsThrough(m, cause, n, fuel, |m.nodes[n].parents|)
  }

  ghost function WeightSum(coefs: Coefs, paths: seq<seq<Hop>>): real {
    if paths == [] then 0.0 else WeightSum(coefs, paths[..|paths| - 1]) + Weight(coefs, paths[|paths| - 1])
  }

  /** The sum over all directed paths of the products of their coefficients. */
  ghost function TotalEffect(m: Scm, coefs: Coefs, cause: Node, target: Node): real {
    WeightSum(coefs, Paths(m, cause, target, |m.nodes|))
  }

  // The enumeration is what it says: exactly the paths, each once.

  lemma {:induction false} PathsSound(m: Scm, cause: Node, n: Node, fuel: nat, path: seq<Hop>)
    ensures path in Paths(m, cause, n, fuel) <==> IsPath(m, cause, n, path) && |path| <= fuel
    decreases fuel, 1, 0
  {
    if n != cause && fuel > 0 && n in m.nodes {
      PathsThroughSound(m, cause, n, fuel, |m.nodes[n].parents|, path);
    }
  }

  lemma {:induction false} PathsThroughSound(m: Scm, cause: Node, n: Node, fuel: nat, k: nat, path: seq<Hop>)
    requires n in m.nodes && k <= |m.nodes[n].parents| && fuel > 0 && n != cause
    ensures path in PathsThrough(m, cause, n, fuel, k) <==>
            IsPath(m, cause, n, path) && 0 < |path| <= fuel && path[0].parent < k
    decreases fuel, 0, k
  {
    if k > 0 {
      PathsThroughSound(m, cause, n, fuel, k - 1, path);
      var p := m.nodes[n].parents[k - 1];
      var tails := Paths(m, cause, p, fuel - 1);
      var mine := Prefixed(Hop(n, k - 1), tails);
      if path != [] {
        PathsSound(m, cause, p, fuel - 1, path[1..]);
        if path[0] == Hop(n, k - 1) && path[1..] in tails {
          var i :| 0 <= i < |tails| && tails[i] == path[1..];
          assert mine[i] == path;
        }
      }
      if path in mine {
        var i :| 0 <= i < |mine| && mine[i] == path;
        assert path == [Hop(n, k - 1)] + tails[i];
        assert path[1..] == tails[i] && path[0] == Hop(n, k - 1);
      }
    }
  }

  lemma {:induction false} PathsDistinct(m: Scm, cause: Node, n: Node, fuel: nat)
    ensures Distinct(Paths(m, cause, n, fuel))
    decreases fuel, 1, 0
  {
    if n != cause && fuel > 0 && n in m.nodes {
      PathsThroughDistinct(m, cause, n, fuel, |m.nodes[n].parents|);
    }
  }

  lemma {:induction false} PathsThroughDistinct(m: Scm, cause: Node, n: Node, fuel: nat, k: nat)
    requires n in m.nodes && k <= |m.nodes[n].parents| && fuel > 0 && n != cause
    ensures Distinct(PathsThrough(m, cause, n, fuel, k))
    decreases fuel, 0, k
  {
    if k > 0 {
      var tails := Paths(m, cause, m.nodes[n].parents[k - 1], fuel - 1);
      var before, mine := PathsThrough(m, cause, n, fuel, k - 1), Prefixed(Hop(n, k - 1), tails);
      PathsThroughDistinct(m, cause, n, fuel, k - 1);
      PathsDistinct(m, cause, m.nodes[n].parents[k - 1], fuel - 1);
      forall i, j | 0 <= i < j < |mine|
        ensures mine[i] != mine[j]
      {
        assert mine[i][1..] == tails[i] && mine[j][1..] == tails[j];
      }
      forall i, j | 0 <= i < |before| && 0 <= j < |mine|
        ensures before[i] != mine[j]
      {
        assert before[i] in before;
        PathsThroughSound(m, cause, n, fuel, k - 1, before[i]);
      }
    }
  }

  /** On an acyclic graph no path has more hops than there are nodes. */
  lemma PathShort(m: Scm, cause: Node, n: Node, path: seq<Hop>)
    requires WellFormed(m) && Acyclic(m.edges) && IsPath(m, cause, n, path)
    ensures |path| <= |m.nodes|
  {
    var w := PathWalk(m, cause, n, path);
    AcyclicWalkDistinct(m.edges, w);
    var v := w[1..];
    DistinctCard(v);
    SubsetCard(SeqSet(v), m.nodes.Keys);
  }

  /** The nodes of a path, from cause to effect, form a directed walk. */
  lemma {:induction false} PathWalk(m: Scm, cause: Node, n: Node, path: seq<Hop>) returns (w: seq<Node>)
    requires WellFormed(m) && IsPath(m, cause, n, path)
    ensures WalkFromTo(m.edges, w, cause, n) && |w| == |path| + 1
    ensures forall k :: 1 <= k < |w| ==> w[k] in m.nodes
    decreases |path|
  {
    if path == [] {
      w := [n];
    } else {
      var p := m.nodes[n].parents[path[0].parent];
      var v := PathWalk(m, cause, p, path[1..]);
      assert p in m.nodes[n].parents;
      w := v + [n];
    }
  }

  /** On an acyclic graph the enumeration used by TotalEffect misses no path. */
  lemma AllPathsEnumerated(m: Scm, cause: Node, n: Node, path: seq<Hop>)
    requires WellFormed(m) && Acyclic(m.edges)
    ensures path in Paths(m, cause, n, |m.nodes|) <==> IsPath(m, cause, n, path)
    ensures Distinct(Paths(m, cause, n, |m.nodes|))
  {
    PathsSound(m, cause, n, |m.nodes|, path);
    PathsDistinct(m, cause, n, |m.nodes|);
    if IsPath(m, cause, n, path) {
      PathShort(m, cause, n, path);
    }
  }

  // ---------------------------------------------------------------------
  // The sum over paths obeys the same recursion as the change of the values

  lemma {:induction false} WeightSumConcat(coefs: Coefs, a: seq<seq<Hop>>, b: seq<seq<Hop>>)
    ensures WeightSum(coefs, a + b) == WeightSum(coefs, a) + WeightSum(coefs, b)
    decreases |b|
  {
    if b == [] {
      assert a + b == a;
    } else {
      assert (a + b)[..|a + b| - 1] == a + b[..|b| - 1];
      WeightSumConcat(coefs, a, b[..|b| - 1]);
    }
  }

  lemma {:induction false} WeightSumPrefixed(coefs: Coefs, h: Hop, paths: seq<seq<Hop>>)
    requires InRange(coefs, h)
    ensures WeightSum(coefs, Prefixed(h, paths)) == Times(coefs[h.node][h.parent], WeightSum(coefs, paths))
    decreases |paths|
  {
    hide Times;
    var c := coefs[h.node][h.parent];
    if paths != [] {
      var init, last := paths[..|paths| - 1], paths[|paths| - 1];
      WeightSumPrefixed(coefs, h, init);
      assert Prefixed(h, paths)[..|paths| - 1] == Prefixed(h, init);
      assert ([h] + last)[1..] == last;
      TimesDistributes(c, WeightSum(coefs, init), Weight(coefs, last));
    } else {
      assert Prefixed(h, paths) == [];
      TimesUnits(c);
    }
  }

  /** The change of every input, weighted and summed. */
  ghost function EffectOfParents(m: Scm, coefs: Coefs, cause: Node, n: Node, fuel: nat, k: nat): real
    requires n in m.nodes && n in coefs && |coefs[n]| == |m.nodes[n].parents| && k <= |coefs[n]|
  {
    if k == 0 then 0.0
    else EffectOfParents(m, coefs, cause, n, fuel, k - 1) +
         Times(coefs[n][k - 1], WeightSum(coefs, Paths(m, cause, m.nodes[n].parents[k - 1], fuel)))
  }

  lemma {:induction false} PathsRecursion(m: Scm, coefs: Coefs, cause: Node, n: Node, fuel: nat, k: nat)
    requires CoefsFor(m, coefs) && n in m.nodes && fuel > 0 && k <= |m.nodes[n].parents|
    ensures WeightSum(coefs, PathsThrough(m, cause, n, fuel, k)) == EffectOfParents(m, coefs, cause, n, fuel - 1, k)
    decreases k
  {
    hide Times, Paths, LinearAt;
    if k > 0 {
      PathsRecursion(m, coefs, cause, n, fuel, k - 1);
      var tails := Paths(m, cause, m.nodes[n].parents[k - 1], fuel - 1);
      WeightSumConcat(coefs, PathsThrough(m, cause, n, fuel, k - 1), Prefixed(Hop(n, k - 1), tails));
      WeightSumPrefixed(coefs, Hop(n, k - 1), tails);
    }
  }

  /** If every input moves by step times its path sum, the weighted sum moves likewise. */
  lemma {:induction false} WeightedChange(m: Scm, coefs: Coefs, cause: Node, n: Node, fuel: nat, k: nat,
                                          x: seq<real>, y: seq<real>, step: real)
    requires CoefsFor(m, coefs) && n in m.nodes && k <= |m.nodes[n].parents| == |x| == |y|
    requires forall i :: 0 <= i < k ==>
               y[i] - x[i] == Times(step, WeightSum(coefs, Paths(m, cause, m.nodes[n].parents[i], fuel)))
    ensures WeightedSum(coefs[n], y, k) - WeightedSum(coefs[n], x, k) ==
            Times(step, EffectOfParents(m, coefs, cause, n, fuel, k))
    decreases k
  {
    hide Times, Paths, LinearAt, WeightSum;
    if k > 0 {
      WeightedChange(m, coefs, cause, n, fuel, k - 1, x, y, step);
      var c, t := coefs[n][k - 1], WeightSum(coefs, Paths(m, cause, m.nodes[n].parents[k - 1], fuel));
      TimesDistributes(c, y[k - 1], x[k - 1]);
      TimesAssociates(c, step, t);
      TimesDistributes(step, EffectOfParents(m, coefs, cause, n, fuel, k - 1), Times(c, t));
    } else {
      TimesUnits(step);
    }
  }

  // ---------------------------------------------------------------------
  // The change of every value when the cause is moved by `step`

  lemma LinearChange(f: StructuralFn, coefs: seq<real>, x: seq<real>, y: seq<real>, noise: real)
    requires LinearAt(f, coefs) && |x| == |y| == |coefs|
    ensures f(y, noise) - f(x, noise) == WeightedSum(coefs, y, |coefs|) - WeightedSum(coefs, x, |coefs|)
  {
    var a :| LinearWith(f, coefs, a);
    assert f(y, noise) == a + WeightedSum(coefs, y, |coefs|) + noise;
    assert f(x, noise) == a + WeightedSum(coefs, x, |coefs|) + noise;
  }

  ghost predicate Ready(m: Scm, coefs: Coefs) {
    && WellFormed(m) && Acyclic(m.edges) && AllAdditive(m) && CoefsFor(m, coefs)
    && forall n :: n in m.nodes ==> Sorted(m.nodes[n].parents)
  }

  /** The intervention that moves the cause away from its sample value. */
  ghost function Moved(s: Values, cause: Node, step: real): map<Node, real> {
    map[cause := Lookup(s, cause) + step]
  }

  /** How far v is from the sample at n. */
  ghost function Change(v: Values, s: Values, n: Node): real {
    Lookup(v, n) - Lookup(s, n)
  }

  ghost function PathSum(m: Scm, coefs: Coefs, cause: Node, n: Node, fuel: nat): real {
    WeightSum(coefs, Paths(m, cause, n, fuel))
  }

  /** The change at n is the weighted change of its inputs. */
  lemma OwnEquation(m: Scm, coefs: Coefs, s: Values, cause: Node, step: real, v: Values, n: Node)
    requires Ready(m, coefs) && n in m.nodes && n != cause
    requires Holds(World(m, s, Moved(s, cause, step)).nodes, v, n)
    ensures var ps := m.nodes[n].parents;
            Change(v, s, n) == WeightedSum(coefs[n], Inputs(v, ps), |ps|) - WeightedSum(coefs[n], Inputs(s, ps), |ps|)
  {
    var e := m.nodes[n];
    SortedFixed(e.parents);
    var x, y := Inputs(s, e.parents), Inputs(v, e.parents);
    var noise := AbductedNoise(m, s, n);
    assert v[n] == e.fn(y, noise);
    assert e.fn(x, noise) == e.fn(x, 0.0) + noise;
    LinearChange(e.fn, coefs[n], x, y, noise);
  }

  lemma PathSumThrough(m: Scm, coefs: Coefs, cause: Node, n: Node, fuel: nat)
    requires CoefsFor(m, coefs) && n in m.nodes && n != cause && fuel > 0
    ensures PathSum(m, coefs, cause, n, fuel) == EffectOfParents(m, coefs, cause, n, fuel - 1, |m.nodes[n].parents|)
  {
    PathsRecursion(m, coefs, cause, n, fuel, |m.nodes[n].parents|);
  }

  /** The value of n after moving the cause, through its own equation. */
  lemma MovedValue(m: Scm, coefs: Coefs, s: Values, cause: Node, step: real, v: Values, n: Node, fuel: nat)
    requires Ready(m, coefs) && n in m.nodes && n != cause && fuel > 0
    requires Holds(World(m, s, Moved(s, cause, step)).nodes, v, n)
    requires forall p :: p in m.nodes[n].parents ==> Change(v, s, p) == Times(step, PathSum(m, coefs, cause, p, fuel - 1))
    ensures Change(v, s, n) == Times(step, PathSum(m, coefs, cause, n, fuel))
  {
    hide Times, Paths, WeightSum, LinearAt, World, Holds, Sorted, WeightedSum, EffectOfParents;
    var ps := m.nodes[n].parents;
    OwnEquation(m, coefs, s, cause, step, v, n);
    var x, y := Inputs(s, ps), Inputs(v, ps);
    forall i | 0 <= i < |ps|
      ensures y[i] - x[i] == Times(step, WeightSum(coefs, Paths(m, cause, ps[i], fuel - 1)))
    {
      assert ps[i] in ps;
      assert Change(v, s, ps[i]) == Times(step, PathSum(m, coefs, cause, ps[i], fuel - 1));
    }
    WeightedChange(m, coefs, cause, n, fuel - 1, |ps|, x, y, step);
    PathSumThrough(m, coefs, cause, n, fuel);
  }

  lemma CauseMoved(m: Scm, coefs: Coefs, s: Values, cause: Node, step: real, v: Values, fuel: nat)
    requires cause in m.nodes && IsEvaluation(World(m, s, Moved(s, cause, step)), v)
    ensures cause in v && Change(v, s, cause) == Times(step, PathSum(m, coefs, cause, cause, fuel))
  {
    hide Times, World, IsEvaluation, Paths, WeightSum;
    Effectiveness(m, s, Moved(s, cause, step), v, cause);
    EmptyPathSum(m, coefs, cause, fuel);
    TimesUnits(step);
  }

  lemma EmptyPathSum(m: Scm, coefs: Coefs, cause: Node, fuel: nat)
    ensures PathSum(m, coefs, cause, cause, fuel) == 1.0
  {
    var one: seq<seq<Hop>> := [[]];
    assert one[..0] == [] && WeightSum(coefs, one) == WeightSum(coefs, one[..0]) + Weight(coefs, one[0]);
  }

  lemma {:induction false} MovedBy(m: Scm, coefs: Coefs, s: Values, cause: Node, step: real, v: Values,
                                   order: seq<Node>, j: nat, fuel: nat)
    requires Ready(m, coefs) && cause in m.nodes
    requires IsEvaluation(World(m, s, Moved(s, cause, step)), v)
    requires TopologicalOrder(m.edges, m.nodes.Keys, order) && j < |order| && fuel > j
    ensures Change(v, s, order[j]) == Times(step, PathSum(m, coefs, cause, order[j], fuel))
    decreases j
  {
    hide Times, PathSum, World, Moved, IsEvaluation, Change, CoefsFor, AllAdditive;
    var n := order[j];
    assert n in SeqSet(order);
    if n == cause {
      CauseMoved(m, coefs, s, cause, step, v, fuel);
    } else {
      AcyclicGrounded(m.edges, n);
      WorldWellFormed(m, s, Moved(s, cause, step));
      EvaluationHolds(World(m, s, Moved(s, cause, step)), v, n);
      forall p | p in m.nodes[n].parents
        ensures Change(v, s, p) == Times(step, PathSum(m, coefs, cause, p, fuel - 1))
      {
        assert p in order[..j];
        var i :| 0 <= i < j && order[i] == p;
        MovedBy(m, coefs, s, cause, step, v, order, i, fuel - 1);
      }
      MovedValue(m, coefs, s, cause, step, v, n, fuel);
    }
  }

  /** Moving the cause by `step` moves every node by step times its total effect. */
  lemma InterventionEffect(m: Scm, coefs: Coefs, s: Values, cause: Node, step: real, v: Values, target: Node)
    requires Ready(m, coefs) && cause in m.nodes && target in m.nodes
    requires IsEvaluation(World(m, s, Moved(s, cause, step)), v)
    ensures Change(v, s, target) == Times(step, TotalEffect(m, coefs, cause, target))
  {
    hide Times, Paths, WeightSum, Moved, Change, Ready;
    WorldKeys(m, s, Moved(s, cause, step));
    var order :| TopologicalOrder(m.edges, World(m, s, Moved(s, cause, step)).nodes.Keys, order);
    assert target in SeqSet(order);
    var j :| 0 <= j < |order| && order[j] == target;
    DistinctCard(order);
    assert |m.nodes| == |m.nodes.Keys| == |order|;
    MovedBy(m, coefs, s, cause, step, v, order, j, |m.nodes|);
  }

  lemma WorldKeys(m: Scm, s: Values, acts: map<Node, real>)
    ensures World(m, s, acts).nodes.Keys == m.nodes.Keys && World(m, s, acts).edges == m.edges
  {
  }

  // ---------------------------------------------------------------------
  // Sample statistics

  method ComputeMean(x: seq<real>) returns (m: real)
    ensures m == Mean(x)
  {
    if |x| == 0 {
      return 0.0;
    }
    var s := 0.0;
    for i := 0 to |x|
      invariant s == Sum(x[..i])
    {
      assert x[..i + 1][..i] == x[..i];
      s := s + x[i];
    }
    assert x[..|x|] == x;
    m := s / |x| as real;
  }

  method ComputeSquaresAround(x: seq<real>, m: real) returns (sumSq: real)
    ensures sumSq == SquaresAround(x, m)
  {
    sumSq := 0.0;
    for i := 0 to |x|
      invariant sumSq == SquaresAround(x[..i], m)
    {
      assert x[..i + 1][..i] == x[..i];
      var d := x[i] - m;
      sumSq := sumSq + d * d;
    }
    assert x[..|x|] == x;
  }

  method ComputeVariance(x: seq<real>) returns (v: real)
    ensures v == Variance(x)
  {
    if |x| == 0 {
      return 0.0;
    }
    var m := ComputeMean(x);
    var sumSq := ComputeSquaresAround(x, m);
    v := sumSq / |x| as real;
  }

  method ComputeStdDev(sqrt: real -> real, x: seq<real>) returns (sd: real)
    ensures sd == StdDev(sqrt, x)
  {
    if |x| < 2 {
      return 0.0;
    }
    var m := ComputeMean(x);
    var sumSq := ComputeSquaresAround(x, m);
    sd := sqrt(sumSq / (|x| - 1) as real);
  }

  /** The values of the cause in the samples that have one. */
  ghost function Observed(samples: seq<Values>, cause: Node): seq<real> {
    if samples == [] then []
    else
      var last := samples[|samples| - 1];
      var rest := Observed(samples[..|samples| - 1], cause);
      if cause in last then rest + [last[cause]] else rest
  }

  /** Samples without the cause are passed over ... */
  lemma {:induction false} ObservedSkips(before: seq<Values>, s: Values, after: seq<Values>, cause: Node)
    requires cause !in s
    ensures Observed(before + [s] + after, cause) == Observed(before + after, cause)
    decreases |after|
  {
    var all, rest := before + [s] + after, before + after;
    if after == [] {
      assert all[..|all| - 1] == before && rest == before;
    } else {
      ObservedSkips(before, s, after[..|after| - 1], cause);
      assert all[..|all| - 1] == before + [s] + after[..|after| - 1];
      assert rest[..|rest| - 1] == before + after[..|after| - 1];
    }
  }

  /** ... and the others give their value, in order. */
  lemma {:induction false} ObservedAll(samples: seq<Values>, cause: Node)
    requires forall s :: s in samples ==> cause in s
    ensures |Observed(samples, cause)| == |samples|
    ensures forall i :: 0 <= i < |samples| ==> Observed(samples, cause)[i] == samples[i][cause]
  {
    if samples != [] {
      ObservedAll(samples[..|samples| - 1], cause);
    }
  }

  // ---------------------------------------------------------------------
  // The estimate

  const SD_FLOOR := 0.000000001

  /** outcomes[i] is a value of the target in the world of sample i with the cause
      moved by step, or left alone. */
  ghost predicate Outcomes(m: Scm, samples: seq<Values>, cause: Node, target: Node, move: bool, step: real, outcomes: seq<real>) {
    |outcomes| == |samples| &&
    forall i :: 0 <= i < |samples| ==> OutcomeOf(m, samples[i], cause, target, move, step, outcomes[i])
  }

  ghost predicate OutcomeOf(m: Scm, s: Values, cause: Node, target: Node, move: bool, step: real, outcome: real) {
    exists v :: IsEvaluation(World(m, s, if move then Moved(s, cause, step) else map[]), v) && outcome == Lookup(v, target)
  }

  /** What the estimate is computed from: baseline outcomes, outcomes under the moved
      cause, and a second run of the latter for the per-sample effects. */
  ghost predicate Estimate(m: Scm, samples: seq<Values>, cause: Node, target: Node, sd: real, effect: real, spread: real) {
    exists base, moved, again ::
      && Outcomes(m, samples, cause, target, false, sd, base)
      && Outcomes(m, samples, cause, target, true, sd, moved)
      && Outcomes(m, samples, cause, target, true, sd, again)
      && Times(effect, sd) == Mean(moved) - Mean(base)
      && spread == Variance(PerSample(base, again, sd))
  }

  ghost function PerSample(base: seq<real>, moved: seq<real>, sd: real): (r: seq<real>)
    requires |base| == |moved|
    ensures |r| == |base|
  {
    seq(|base|, i requires 0 <= i < |base| => if sd == 0.0 then 0.0 else (moved[i] - base[i]) / sd)
  }

  method RunWorlds(g: CausalGraph, samples: seq<Values>, cause: Node, target: Node, move: bool, step: real)
    returns (outcomes: seq<real>)
    requires g.Valid() && cause in g.nodes
    ensures g.Valid() && g.Model() == old(g.Model())
    ensures Outcomes(old(g.Model()), samples, cause, target, move, step, outcomes)
  {
    hide OutcomeOf, IsEvaluation, World;
    ghost var m := g.Model();
    outcomes := [];
    for i := 0 to |samples|
      invariant |outcomes| == i
      invariant forall k :: 0 <= k < i ==> OutcomeOf(m, samples[k], cause, target, move, step, outcomes[k])
    {
      var s := samples[i];
      var acts: map<Node, real> := map[];
      if move {
        acts := map[cause := Lookup(s, cause) + step];
      }
      assert g.Model() == m;
      var world := Counterfactual(g, s, acts);
      OneOutcome(m, s, cause, target, move, step, world);
      outcomes := outcomes + [Lookup(world, target)];
    }
  }

  lemma OneOutcome(m: Scm, s: Values, cause: Node, target: Node, move: bool, step: real, v: Values)
    requires IsEvaluation(World(m, s, if move then Moved(s, cause, step) else map[]), v)
    ensures OutcomeOf(m, s, cause, target, move, step, Lookup(v, target))
  {
  }

  method CollectObserved(samples: seq<Values>, cause: Node) returns (vals: seq<real>)
    ensures vals == Observed(samples, cause)
  {
    vals := [];
    for i := 0 to |samples|
      invariant vals == Observed(samples[..i], cause)
    {
      assert samples[..i + 1][..i] == samples[..i];
      if cause in samples[i] {
        vals := vals + [samples[i][cause]];
      }
    }
    assert samples[..|samples|] == samples;
  }

  /** The effect of the cause on the target, and its spread over the samples. */
  method BackdoorAdjustment(g: CausalGraph, samples: seq<Values>, target: Node, cause: Node, sqrt: real -> real)
    returns (effect: real, spread: real)
    requires g.Valid()
    requires Observed(samples, cause) != [] && StdDev(sqrt, Observed(samples, cause)) >= SD_FLOOR ==> cause in g.nodes
    ensures var sd := StdDev(sqrt, Observed(samples, cause));
            if Observed(samples, cause) == [] || sd < SD_FLOOR then effect == 0.0 && spread == 0.0
            else Estimate(old(g.Model()), samples, cause, target, sd, effect, spread)
    ensures forall coefs ::
              Ready(old(g.Model()), coefs) && target in g.nodes &&
              Observed(samples, cause) != [] && StdDev(sqrt, Observed(samples, cause)) >= SD_FLOOR ==>
                effect == TotalEffect(old(g.Model()), coefs, cause, target) && spread == 0.0
    ensures IsSquareRoot(sqrt) && !Varies(Observed(samples, cause)) ==> effect == 0.0 && spread == 0.0
    ensures AllEqual(Observed(samples, cause)) && IsSquareRoot(sqrt) ==> effect == 0.0 && spread == 0.0
    ensures forall coefs :: Ready(old(g.Model()), coefs) && target in g.nodes && IsSquareRoot(sqrt) ==>
              effect == (if Varies(Observed(samples, cause)) then TotalEffect(old(g.Model()), coefs, cause, target) else 0.0)
              && spread == 0.0
  {
    ghost var observed := Observed(samples, cause);
    AnswersByVariation(sqrt, observed);
    hide Varies, IsSquareRoot, AllEqual, PairSquares, SquaresAround;
    hide Outcomes, Ready, TotalEffect, Mean, Variance, StdDev, Estimate, Times, PerSample, Endpoints;
    ghost var m := g.Model();
    if |samples| == 0 {
      return 0.0, 0.0;
    }
    var causeVals := CollectObserved(samples, cause);
    if |causeVals| == 0 {
      return 0.0, 0.0;
    }
    var sd := ComputeStdDev(sqrt, causeVals);
    if sd < SD_FLOOR {
      return 0.0, 0.0;
    }
    var baseVals := RunWorlds(g, samples, cause, target, false, sd);
    assert g.Model() == m && Outcomes(m, samples, cause, target, false, sd, baseVals);
    var baseMean := ComputeMean(baseVals);
    var intervVals := RunWorlds(g, samples, cause, target, true, sd);
    assert g.Model() == m && Outcomes(m, samples, cause, target, true, sd, intervVals);
    var intervMean := ComputeMean(intervVals);
    effect := Divide(intervMean - baseMean, sd);
    var again := RunWorlds(g, samples, cause, target, true, sd);
    assert Outcomes(m, samples, cause, target, true, sd, again);
    SizesMatch(m, samples, cause, target, sd, baseVals, again);
    var perSampleEffects := PerSampleEffects(baseVals, again, sd);
    spread := ComputeVariance(perSampleEffects);
    Estimated(m, samples, cause, target, sd, baseVals, intervVals, again, effect, spread);
    EstimateWhenLinear(m, samples, cause, target, sd, effect, spread);
  }

  lemma AnswersByVariation(sqrt: real -> real, observed: seq<real>)
    ensures IsSquareRoot(sqrt) ==> (StdDev(sqrt, observed) >= SD_FLOOR <==> Varies(observed))
    ensures AllEqual(observed) ==> !Varies(observed)
    ensures observed == [] ==> !Varies(observed)
  {
    if IsSquareRoot(sqrt) {
      DeviationIff(sqrt, observed);
    }
    if AllEqual(observed) {
      EqualDoNotVary(observed);
    }
  }

  method PerSampleEffects(base: seq<real>, moved: seq<real>, sd: real) returns (effects: seq<real>)
    requires |base| == |moved| && sd > 0.0
    ensures effects == PerSample(base, moved, sd)
  {
    effects := [];
    for i := 0 to |base|
      invariant |effects| == i
      invariant forall k :: 0 <= k < i ==> effects[k] == (moved[k] - base[k]) / sd
    {
      effects := effects + [(moved[i] - base[i]) / sd];
    }
    assert effects == PerSample(base, moved, sd);
  }

  lemma Estimated(m: Scm, samples: seq<Values>, cause: Node, target: Node, sd: real,
                  base: seq<real>, moved: seq<real>, again: seq<real>, effect: real, spread: real)
    requires Outcomes(m, samples, cause, target, false, sd, base)
    requires Outcomes(m, samples, cause, target, true, sd, moved)
    requires Outcomes(m, samples, cause, target, true, sd, again)
    requires |base| == |again| && Times(effect, sd) == Mean(moved) - Mean(base)
    requires spread == Variance(PerSample(base, again, sd))
    ensures Estimate(m, samples, cause, target, sd, effect, spread)
  {
  }

  lemma SizesMatch(m: Scm, samples: seq<Values>, cause: Node, target: Node, sd: real, base: seq<real>, moved: seq<real>)
    requires Outcomes(m, samples, cause, target, false, sd, base) && Outcomes(m, samples, cause, target, true, sd, moved)
    ensures |base| == |moved| == |samples|
  {
  }

  // ---------------------------------------------------------------------
  // The path-coefficient rule

  /** Without an intervention every outcome is the sample's own value. */
  lemma BaselineIsSample(m: Scm, coefs: Coefs, s: Values, cause: Node, target: Node, step: real, outcome: real)
    requires Ready(m, coefs) && target in m.nodes && OutcomeOf(m, s, cause, target, false, step, outcome)
    ensures outcome == Lookup(s, target)
  {
    var none: map<Node, real> := map[];
    var v :| IsEvaluation(World(m, s, none), v) && outcome == Lookup(v, target);
    forall n | n in m.nodes
      ensures Insensitive(m, s, n)
    {
      SortedParentsInsensitive(m, s, n);
    }
    AcyclicGrounded(m.edges, target);
    Locality(m, s, none, v, target);
  }

  lemma MovedOutcome(m: Scm, coefs: Coefs, s: Values, cause: Node, target: Node, step: real, outcome: real)
    requires Ready(m, coefs) && target in m.nodes && cause in m.nodes && OutcomeOf(m, s, cause, target, true, step, outcome)
    ensures outcome == Lookup(s, target) + Times(step, TotalEffect(m, coefs, cause, target))
  {
    hide Times, TotalEffect, Ready;
    var v :| IsEvaluation(World(m, s, Moved(s, cause, step)), v) && outcome == Lookup(v, target);
    InterventionEffect(m, coefs, s, cause, step, v, target);
  }

  lemma ConstantHasNoSpread(x: seq<real>, c: real)
    requires forall i :: 0 <= i < |x| ==> x[i] == c
    ensures Variance(x) == 0.0
  {
    SumConstant(x, c);
    if x != [] {
      var n := |x| as real;
      assert (n * c) / n == c;
      assert Mean(x) == c;
    }
  }

  lemma CancelStep(sd: real, t: real)
    requires sd > 0.0
    ensures Times(sd, t) / sd == t
  {
    assert (sd * t) / sd == t;
  }

  /** For linear functions the estimate is the sum over directed paths, for every
      dataset, and the per-sample effects do not vary at all. */
  lemma LinearEstimate(m: Scm, coefs: Coefs, samples: seq<Values>, cause: Node, target: Node,
                       sd: real, effect: real, spread: real)
    requires Ready(m, coefs) && cause in m.nodes && target in m.nodes && |samples| > 0 && sd > 0.0
    requires Estimate(m, samples, cause, target, sd, effect, spread)
    ensures effect == TotalEffect(m, coefs, cause, target) && spread == 0.0
  {
    hide Ready, TotalEffect, Times, OutcomeOf, Mean, Variance;
    var base, moved, again :|
      && Outcomes(m, samples, cause, target, false, sd, base)
      && Outcomes(m, samples, cause, target, true, sd, moved)
      && Outcomes(m, samples, cause, target, true, sd, again)
      && Times(effect, sd) == Mean(moved) - Mean(base)
      && spread == Variance(PerSample(base, again, sd));
    var t := TotalEffect(m, coefs, cause, target);
    forall i | 0 <= i < |samples|
      ensures moved[i] == base[i] + Times(sd, t) && again[i] == base[i] + Times(sd, t)
      ensures PerSample(base, again, sd)[i] == t
    {
      BaselineIsSample(m, coefs, samples[i], cause, target, sd, base[i]);
      MovedOutcome(m, coefs, samples[i], cause, target, sd, moved[i]);
      MovedOutcome(m, coefs, samples[i], cause, target, sd, again[i]);
      CancelStep(sd, t);
    }
    MeanShift(base, moved, Times(sd, t));
    SameFactor(effect, t, sd);
    ConstantHasNoSpread(PerSample(base, again, sd), t);
  }

  lemma EstimateWhenLinear(m: Scm, samples: seq<Values>, cause: Node, target: Node, sd: real, effect: real, spread: real)
    requires cause in m.nodes && |samples| > 0 && sd > 0.0
    requires Estimate(m, samples, cause, target, sd, effect, spread)
    ensures forall coefs :: Ready(m, coefs) && target in m.nodes ==>
              effect == TotalEffect(m, coefs, cause, target) && spread == 0.0
  {
    hide Ready, Estimate, TotalEffect;
    forall coefs | Ready(m, coefs) && target in m.nodes
      ensures effect == TotalEffect(m, coefs, cause, target) && spread == 0.0
    {
      LinearEstimate(m, coefs, samples, cause, target, sd, effect, spread);
    }
  }

  lemma SameFactor(x: real, y: real, sd: real)
    requires sd > 0.0 && Times(x, sd) == Times(sd, y)
    ensures x == y
  {
    assert (x * sd) / sd == x && (sd * y) / sd == y;
  }

  ghost function SomeCoefs(f: StructuralFn, k: nat): (coefs: seq<real>)
    requires Fitted(f, k)
    ensures |coefs| == k && LinearAt(f, coefs)
  {
    var coefs :| |coefs| == k && LinearAt(f, coefs);
    coefs
  }

  /** Every acyclic graph the bridge builds has coefficients to which the
      path-coefficient rule applies. */
  lemma BridgedHasCoefs(m: Scm, nodeIDs: set<Node>, arcs: seq<Arc>) returns (coefs: Coefs)
    requires Bridged(m, nodeIDs, arcs) && Acyclic(m.edges)
    ensures Ready(m, coefs)
  {
    BridgedIsReady(m, nodeIDs, arcs, map[]);
    coefs := map n | n in m.nodes :: SomeCoefs(m.nodes[n].fn, |m.nodes[n].parents|);
  }
}
