/** Backward root-cause search over temporally valid arcs, each root scored by a
    forward propagation to the target. */
module RootCause {
  import opened Digraph
  import opened Distances
  import opened QueuePropagation
  import opened RealArith
  import opened Timestamps

  datatype RootCauseResult = RootCauseResult(nodeID: Node, score: real, isOverloaded: bool, queueLength: real,
                                             load: real, chain: PropagationChain)

  ghost predicate NotLater(states: map<Node, NodeState>, a: Node, b: Node) {
    StateOf(states, a).timestamp <= StateOf(states, b).timestamp
  }

  /** A walk on which no node is later than the next. */
  ghost predicate TimedWalk(g: seq<Arc>, states: map<Node, NodeState>, w: seq<Node>) {
    IsWalk(g, w) && forall i :: 0 <= i < |w| - 1 ==> NotLater(states, w[i], w[i + 1])
  }

  ghost predicate TimedReaches(g: seq<Arc>, states: map<Node, NodeState>, a: Node, b: Node) {
    exists w {:trigger TimedWalk(g, states, w)} :: TimedWalk(g, states, w) && w[0] == a && w[|w| - 1] == b
  }

  ghost predicate NoPredecessor(g: seq<Arc>, n: Node) {
    forall p :: !HasArc(g, p, n)
  }

  /** Strength of the chain, boosted by overload and by the dominant signal. */
  function Score(state: NodeState, chain: PropagationChain): real {
    var base := if state.load > 1.0 then chain.finalStrength * state.load else chain.finalStrength;
    var reached := if chain.isPhysicallyValid then base else base * 0.5;
    if state.dominantSignal == "network" then reached * 1.3
    else if state.dominantSignal == "memory" then reached * 1.5
    else reached
  }

  ghost predicate ResultFor(g: seq<Arc>, model: QueueModel, states: map<Node, NodeState>, target: Node, r: RootCauseResult) {
    && Result(g, model, states, r.nodeID, target, r.chain)
    && r.chain.isPhysicallyValid
    && r.score == Score(StateOf(states, r.nodeID), r.chain)
    && (r.isOverloaded <==> StateOf(states, r.nodeID).load > 1.0)
    && r.queueLength == StateOf(states, r.nodeID).queueLength
    && r.load == StateOf(states, r.nodeID).load
  }

  /** The nodes found, in the order found. */
  ghost function Found(results: seq<RootCauseResult>): (r: seq<Node>)
    ensures |r| == |results|
  {
    seq(|results|, i requires 0 <= i < |results| => results[i].nodeID)
  }

  ghost predicate Descending(results: seq<RootCauseResult>) {
    forall i, j :: 0 <= i < j < |results| ==> results[i].score >= results[j].score
  }

  // ---------------------------------------------------------------------
  // The backward walk

  ghost predicate BackState(g: seq<Arc>, states: map<Node, NodeState>, target: Node, visited: set<Node>, stack: seq<Node>) {
    && (target in visited || target in stack)
    && (forall n :: n in visited || n in stack ==> TimedReaches(g, states, n, target))
    && (forall p, n :: n in visited && HasArc(g, p, n) && NotLater(states, p, n) ==> p in visited || p in stack)
  }

  lemma ExtendBack(g: seq<Arc>, states: map<Node, NodeState>, p: Node, n: Node, target: Node)
    requires HasArc(g, p, n) && NotLater(states, p, n) && TimedReaches(g, states, n, target)
    ensures TimedReaches(g, states, p, target)
  {
    var w :| TimedWalk(g, states, w) && w[0] == n && w[|w| - 1] == target;
    assert TimedWalk(g, states, [p] + w);
    assert ([p] + w)[0] == p && ([p] + w)[|w|] == target;
  }

  lemma {:induction false} BackComplete(g: seq<Arc>, states: map<Node, NodeState>, target: Node, visited: set<Node>, w: seq<Node>)
    requires BackState(g, states, target, visited, [])
    requires TimedWalk(g, states, w) && w[|w| - 1] == target
    ensures w[0] in visited
    decreases |w|
  {
    if |w| > 1 {
      BackComplete(g, states, target, visited, w[1..]);
      assert HasArc(g, w[0], w[0 + 1]) && NotLater(states, w[0], w[0 + 1]);
    }
  }

  lemma BackDone(g: seq<Arc>, states: map<Node, NodeState>, target: Node, visited: set<Node>)
    requires BackState(g, states, target, visited, [])
    ensures forall n :: n in visited <==> TimedReaches(g, states, n, target)
  {
    forall n | TimedReaches(g, states, n, target)
      ensures n in visited
    {
      var w :| TimedWalk(g, states, w) && w[0] == n && w[|w| - 1] == target;
      BackComplete(g, states, target, visited, w);
    }
  }

  /** The loop over the arcs into n: push every admissible unvisited predecessor. */
  method PushPredecessors(g: seq<Arc>, states: map<Node, NodeState>, n: Node, visited: set<Node>, rest: seq<Node>)
    returns (stack: seq<Node>, hasPredecessor: bool)
    ensures hasPredecessor <==> !NoPredecessor(g, n)
    ensures |rest| <= |stack| && stack[..|rest|] == rest
    ensures forall p :: p in stack[|rest|..] ==> HasArc(g, p, n) && NotLater(states, p, n)
    ensures forall p :: HasArc(g, p, n) && NotLater(states, p, n) ==> p in visited || p in stack
  {
    stack, hasPredecessor := rest, false;
    for i := 0 to |g|
      invariant hasPredecessor <==> exists k :: 0 <= k < i && g[k].to == n
      invariant |rest| <= |stack| && stack[..|rest|] == rest
      invariant forall p :: p in stack[|rest|..] ==> HasArc(g, p, n) && NotLater(states, p, n)
      invariant forall k :: 0 <= k < i && g[k].to == n && NotLater(states, g[k].from, n) ==>
                  g[k].from in visited || g[k].from in stack
    {
      var edge := g[i];
      if edge.to != n {
        continue;
      }
      hasPredecessor := true;
      if StateOf(states, edge.from).timestamp > StateOf(states, n).timestamp {
        continue;
      }
      if edge.from !in visited {
        assert (stack + [edge.from])[|rest|..] == stack[|rest|..] + [edge.from];
        stack := stack + [edge.from];
      }
    }
    if k :| 0 <= k < |g| && g[k].to == n {
      assert HasArc(g, g[k].from, n);
    }
  }

  lemma BackStep(g: seq<Arc>, states: map<Node, NodeState>, target: Node, visited: set<Node>,
                 rest: seq<Node>, n: Node, stack: seq<Node>)
    requires BackState(g, states, target, visited, rest + [n])
    requires |rest| <= |stack| && stack[..|rest|] == rest
    requires forall p :: p in stack[|rest|..] ==> HasArc(g, p, n) && NotLater(states, p, n)
    requires forall p :: HasArc(g, p, n) && NotLater(states, p, n) ==> p in visited + {n} || p in stack
    ensures BackState(g, states, target, visited + {n}, stack)
  {
    assert stack == rest + stack[|rest|..];
    assert (rest + [n])[|rest|] == n;
    assert TimedReaches(g, states, n, target);
    forall p | p in stack
      ensures TimedReaches(g, states, p, target)
    {
      if p in rest {
        assert p in rest + [n];
      } else {
        ExtendBack(g, states, p, n, target);
      }
    }
    forall p, m | m in visited + {n} && HasArc(g, p, m) && NotLater(states, p, m)
      ensures p in visited + {n} || p in stack
    {
      if m in visited {
        assert p in visited || p in rest + [n];
      }
    }
  }

  lemma BackSkip(g: seq<Arc>, states: map<Node, NodeState>, target: Node, visited: set<Node>, rest: seq<Node>, n: Node)
    requires BackState(g, states, target, visited, rest + [n]) && n in visited
    ensures BackState(g, states, target, visited, rest)
  {
    forall p | p in rest
      ensures TimedReaches(g, states, p, target)
    {
      assert p in rest + [n];
    }
    forall p | p in rest + [n] && p !in visited
      ensures p in rest
    {
    }
  }

  lemma TimedIsReach(g: seq<Arc>, states: map<Node, NodeState>, a: Node, b: Node)
    requires TimedReaches(g, states, a, b)
    ensures Reaches(g, a, b)
  {
    var w :| TimedWalk(g, states, w) && w[0] == a && w[|w| - 1] == b;
    assert WalkFromTo(g, w, a, b);
  }

  /** results holds exactly the visited nodes without predecessors, each once. */
  ghost predicate Collected(g: seq<Arc>, model: QueueModel, states: map<Node, NodeState>, target: Node,
                            visited: set<Node>, results: seq<RootCauseResult>) {
    && Distinct(Found(results))
    && (forall n :: n in Found(results) <==> n in visited && NoPredecessor(g, n))
    && (forall r :: r in results ==> ResultFor(g, model, states, target, r))
  }

  lemma CollectOne(g: seq<Arc>, model: QueueModel, states: map<Node, NodeState>, target: Node,
                   visited: set<Node>, results: seq<RootCauseResult>, r: RootCauseResult)
    requires Collected(g, model, states, target, visited, results)
    requires r.nodeID !in visited && NoPredecessor(g, r.nodeID) && ResultFor(g, model, states, target, r)
    ensures Collected(g, model, states, target, visited + {r.nodeID}, results + [r])
  {
    assert Found(results + [r]) == Found(results) + [r.nodeID];
  }

  lemma CollectNone(g: seq<Arc>, model: QueueModel, states: map<Node, NodeState>, target: Node,
                    visited: set<Node>, results: seq<RootCauseResult>, n: Node)
    requires Collected(g, model, states, target, visited, results) && !NoPredecessor(g, n)
    ensures Collected(g, model, states, target, visited + {n}, results)
  {
  }

  /** The search before sorting. */
  method TraceRoots(graph: seq<Arc>, model: QueueModel, states: map<Node, NodeState>, targetNode: Node)
    returns (results: seq<RootCauseResult>, ghost visited: set<Node>)
    ensures forall n :: n in visited <==> TimedReaches(graph, states, n, targetNode)
    ensures Collected(graph, model, states, targetNode, visited, results)
  {
    hide Collected, BackState, TimedReaches, NoPredecessor, Result, ResultFor;
    results := [];
    var seen: set<Node> := {};
    var stack := [targetNode];
    ghost var universe := Endpoints(graph) + {targetNode};
    TraceStart(graph, model, states, targetNode);
    while |stack| > 0
      invariant BackState(graph, states, targetNode, seen, stack)
      invariant Collected(graph, model, states, targetNode, seen, results)
      invariant seen <= universe && forall n :: n in stack ==> n in universe
      decreases universe - seen, |stack|
    {
      var n := stack[|stack| - 1];
      ghost var rest := stack[..|stack| - 1];
      assert stack == rest + [n];
      if n in seen {
        BackSkip(graph, states, targetNode, seen, rest, n);
        stack := stack[..|stack| - 1];
        continue;
      }
      var hasPredecessor;
      stack, hasPredecessor := PushPredecessors(graph, states, n, seen + {n}, stack[..|stack| - 1]);
      FrontReaches(graph, states, targetNode, seen, rest, n);
      BackStep(graph, states, targetNode, seen, rest, n, stack);
      StackWithin(graph, states, universe, rest, n, stack);
      if !hasPredecessor {
        var state := StateOf(states, n);
        var chain := PropagateQueueLoad(graph, model, states, n, targetNode);
        var score := chain.finalStrength;
        if state.load > 1.0 {
          score := score * state.load;
        }
        if !chain.isPhysicallyValid {
          score := score * 0.5;
        }
        if state.dominantSignal == "network" {
          score := score * 1.3;
        } else if state.dominantSignal == "memory" {
          score := score * 1.5;
        }
        var r := RootCauseResult(n, score, state.load > 1.0, state.queueLength, state.load, chain);
        ScoredRoot(graph, model, states, targetNode, r);
        CollectOne(graph, model, states, targetNode, seen, results, r);
        results := results + [r];
      } else {
        CollectNone(graph, model, states, targetNode, seen, results, n);
      }
      seen := seen + {n};
    }
    assert stack == [];
    BackDone(graph, states, targetNode, seen);
    visited := seen;
  }

  lemma TraceStart(g: seq<Arc>, model: QueueModel, states: map<Node, NodeState>, target: Node)
    ensures BackState(g, states, target, {}, [target]) && Collected(g, model, states, target, {}, [])
  {
    assert TimedWalk(g, states, [target]) && [target][0] == target;
  }

  lemma FrontReaches(g: seq<Arc>, states: map<Node, NodeState>, target: Node, visited: set<Node>, rest: seq<Node>, n: Node)
    requires BackState(g, states, target, visited, rest + [n])
    ensures TimedReaches(g, states, n, target) && Reaches(g, n, target)
  {
    assert (rest + [n])[|rest|] == n;
    TimedIsReach(g, states, n, target);
  }

  lemma StackWithin(g: seq<Arc>, states: map<Node, NodeState>, universe: set<Node>, rest: seq<Node>, n: Node, stack: seq<Node>)
    requires Endpoints(g) <= universe && forall p :: p in rest + [n] ==> p in universe
    requires |rest| <= |stack| && stack[..|rest|] == rest
    requires forall p :: p in stack[|rest|..] ==> HasArc(g, p, n) && NotLater(states, p, n)
    ensures forall p :: p in stack ==> p in universe
  {
    assert stack == rest + stack[|rest|..];
    forall p | p in stack
      ensures p in universe
    {
      if p in rest {
        assert p in rest + [n];
      } else {
        assert Arc(p, n) in g;
      }
    }
  }

  /** A root found by the search reaches the target, so its chain is valid and the
      penalty for an unreached target never applies. */
  lemma ScoredRoot(g: seq<Arc>, model: QueueModel, states: map<Node, NodeState>, target: Node, r: RootCauseResult)
    requires Result(g, model, states, r.nodeID, target, r.chain) && Reaches(g, r.nodeID, target)
    requires r.score == Score(StateOf(states, r.nodeID), r.chain)
    requires r.isOverloaded <==> StateOf(states, r.nodeID).load > 1.0
    requires r.queueLength == StateOf(states, r.nodeID).queueLength && r.load == StateOf(states, r.nodeID).load
    ensures ResultFor(g, model, states, target, r)
  {
    hide ReachedAt, IsRouteHop;
  }

  // ---------------------------------------------------------------------
  // Ranking

  /** Place one result after every result that scores at least as much. */
  method InsertByScore(ranked: seq<RootCauseResult>, r: RootCauseResult) returns (longer: seq<RootCauseResult>)
    requires Descending(ranked)
    ensures Descending(longer) && multiset(longer) == multiset(ranked) + multiset{r}
  {
    var k := 0;
    while k < |ranked| && ranked[k].score >= r.score
      invariant 0 <= k <= |ranked|
      invariant forall j :: 0 <= j < k ==> ranked[j].score >= r.score
    {
      k := k + 1;
    }
    longer := ranked[..k] + [r] + ranked[k..];
    assert ranked == ranked[..k] + ranked[k..];
    InsertedDescending(ranked, r, k);
  }

  lemma InsertedDescending(ranked: seq<RootCauseResult>, r: RootCauseResult, k: nat)
    requires Descending(ranked) && k <= |ranked|
    requires forall j :: 0 <= j < k ==> ranked[j].score >= r.score
    requires k < |ranked| ==> ranked[k].score <= r.score
    ensures Descending(ranked[..k] + [r] + ranked[k..])
  {
  }

  method SortByScore(results: seq<RootCauseResult>) returns (ranked: seq<RootCauseResult>)
    ensures Descending(ranked) && multiset(ranked) == multiset(results)
  {
    hide Descending;
    ranked := [];
    NothingDescending();
    for i := 0 to |results|
      invariant Descending(ranked) && multiset(ranked) == multiset(results[..i])
    {
      assert results[..i + 1] == results[..i] + [results[i]];
      ranked := InsertByScore(ranked, results[i]);
    }
    assert results[..|results|] == results;
  }

  lemma NothingDescending()
    ensures Descending([])
  {
  }

  lemma RankedKeeps(g: seq<Arc>, model: QueueModel, states: map<Node, NodeState>, target: Node,
                    visited: set<Node>, results: seq<RootCauseResult>, ranked: seq<RootCauseResult>)
    requires Collected(g, model, states, target, visited, results) && multiset(ranked) == multiset(results)
    ensures Collected(g, model, states, target, visited, ranked)
  {
    hide ResultFor, NoPredecessor;
    forall r
      ensures r in ranked <==> r in results
    {
      assert r in ranked <==> r in multiset(ranked);
      assert r in results <==> r in multiset(results);
    }
    forall n
      ensures n in Found(ranked) <==> n in Found(results)
    {
      FoundIff(ranked, n);
      FoundIff(results, n);
    }
    if i, j :| 0 <= i < j < |ranked| && ranked[i].nodeID == ranked[j].nodeID {
      SameIdSameResult(results, ranked[i], ranked[j]);
      TwiceMeansTwice(results, ranked, i, j);
    }
  }

  lemma FoundIff(results: seq<RootCauseResult>, n: Node)
    ensures n in Found(results) <==> exists r :: r in results && r.nodeID == n
  {
    if r :| r in results && r.nodeID == n {
      var i :| 0 <= i < |results| && results[i] == r;
      assert Found(results)[i] == n;
    }
  }

  lemma SameIdSameResult(results: seq<RootCauseResult>, a: RootCauseResult, b: RootCauseResult)
    requires Distinct(Found(results)) && a in results && b in results && a.nodeID == b.nodeID
    ensures a == b
  {
    var i :| 0 <= i < |results| && results[i] == a;
    var j :| 0 <= j < |results| && results[j] == b;
    assert Found(results)[i] == Found(results)[j];
  }

  /** A sequence without repeated IDs has no permutation that repeats an element. */
  lemma TwiceMeansTwice(results: seq<RootCauseResult>, ranked: seq<RootCauseResult>, i: nat, j: nat)
    requires multiset(ranked) == multiset(results) && i < j < |ranked| && ranked[i] == ranked[j]
    ensures !Distinct(Found(results))
  {
    var r := ranked[i];
    assert ranked == ranked[..i] + [r] + ranked[i + 1..j] + [r] + ranked[j + 1..];
    assert multiset(ranked)[r] >= 2;
    var k, m := TwoPlaces(results, r);
    assert Found(results)[m] == Found(results)[k];
  }

  lemma TwoPlaces(s: seq<RootCauseResult>, r: RootCauseResult) returns (k: nat, m: nat)
    requires multiset(s)[r] >= 2
    ensures k < |s| && m < |s| && k != m && s[k] == r == s[m]
  {
    assert r in multiset(s);
    k :| 0 <= k < |s| && s[k] == r;
    assert s == s[..k] + [r] + s[k + 1..];
    if r in s[..k] {
      m :| 0 <= m < k && s[m] == r;
    } else {
      assert multiset(s) == multiset(s[..k]) + multiset{r} + multiset(s[k + 1..]);
      assert r in s[k + 1..];
      m :| k < m < |s| && s[m] == r;
    }
  }

  /** The roots: nodes without incoming arcs from which the target is reached along
      arcs that never run backwards in time, each once, best score first. */
  method FindRootCauseByPropagation(graph: seq<Arc>, model: QueueModel, states: map<Node, NodeState>, targetNode: Node)
    returns (results: seq<RootCauseResult>)
    ensures Descending(results) && Distinct(Found(results))
    ensures forall n :: n in Found(results) <==> TimedReaches(graph, states, n, targetNode) && NoPredecessor(graph, n)
    ensures forall r :: r in results ==> ResultFor(graph, model, states, targetNode, r)
    ensures forall r :: r in results ==> ScoredByDistance(graph, states, targetNode, r)
  {
    hide TimedReaches, NoPredecessor, ResultFor, ScoredByDistance;
    ghost var visited;
    results, visited := TraceRoots(graph, model, states, targetNode);
    var ranked := SortByScore(results);
    RankedKeeps(graph, model, states, targetNode, visited, results, ranked);
    results := ranked;
    forall r | r in results
      ensures ScoredByDistance(graph, states, targetNode, r)
    {
      ScoreAtDistance(graph, model, states, targetNode, r);
    }
  }

  // ---------------------------------------------------------------------
  // What the ranking prefers

  /** 0.72 to the distance, times the load when overloaded, times 1.5 for memory and 1.3 for network. */
  ghost predicate ScoredByDistance(g: seq<Arc>, states: map<Node, NodeState>, target: Node, r: RootCauseResult) {
    exists d: nat :: IsDistance(g, r.nodeID, target, d) && ScoredAt(StateOf(states, r.nodeID), d, r.score)
  }

  ghost predicate ScoredAt(s: NodeState, d: nat, score: real) {
    score == Times(Power(0.72, d), if s.load > 1.0 then s.load else 1.0)
             * (if s.dominantSignal == "memory" then 1.5 else if s.dominantSignal == "network" then 1.3 else 1.0)
  }

  lemma ScoreAtDistance(g: seq<Arc>, model: QueueModel, states: map<Node, NodeState>, target: Node, r: RootCauseResult)
    requires ResultFor(g, model, states, target, r)
    ensures ScoredByDistance(g, states, target, r)
  {
    hide IsDistance, SimpleFrom, Reaches, IsRouteHop, Power, TotalDelay, Arrival, AtEnd, Decay;
    var route := ShortestRoute(g, model, states, r.nodeID, target, r.chain);
    StrengthAtEnd(model, states, route);
    assert "memory" != "network";
    TimesUnits(r.chain.finalStrength);
    assert ScoredAt(StateOf(states, r.nodeID), |route| - 1, r.score);
  }

  lemma PowerPositive(n: nat)
    ensures Power(0.72, n) > 0.0 && Power(0.72, n + 1) == 0.72 * Power(0.72, n)
  {
    if n > 0 {
      PowerPositive(n - 1);
    }
  }

  /** The root at index i lies d arcs from the target, is not overloaded and shows this signal. */
  ghost predicate IdleRootAt(g: seq<Arc>, states: map<Node, NodeState>, target: Node, r: RootCauseResult, d: nat) {
    IsDistance(g, r.nodeID, target, d) && StateOf(states, r.nodeID).load <= 1.0
  }

  lemma IdleScore(g: seq<Arc>, states: map<Node, NodeState>, target: Node, r: RootCauseResult, d: nat)
    requires ScoredByDistance(g, states, target, r) && IdleRootAt(g, states, target, r, d)
    ensures var p, signal := Power(0.72, d), StateOf(states, r.nodeID).dominantSignal;
            r.score == if signal == "memory" then 1.5 * p else if signal == "network" then 1.3 * p else p
  {
    hide IsDistance;
    var e: nat :| IsDistance(g, r.nodeID, target, e) && ScoredAt(StateOf(states, r.nodeID), e, r.score);
    DistanceUnique(g, r.nodeID, target, d, e);
    TimesUnits(Power(0.72, d));
  }

  /** At one distance, without overload, memory roots come before network roots, and those before the rest. */
  lemma SignalsRanked(g: seq<Arc>, states: map<Node, NodeState>, target: Node, results: seq<RootCauseResult>,
                      i: nat, j: nat, d: nat)
    requires Descending(results) && i < |results| && j < |results|
    requires forall r :: r in results ==> ScoredByDistance(g, states, target, r)
    requires IdleRootAt(g, states, target, results[i], d) && IdleRootAt(g, states, target, results[j], d)
    ensures var a, b := StateOf(states, results[i].nodeID).dominantSignal, StateOf(states, results[j].nodeID).dominantSignal;
            && (a == "memory" && b != "memory" ==> i < j)
            && (a == "network" && b != "memory" && b != "network" ==> i < j)
  {
    hide ScoredByDistance, IdleRootAt, Power;
    PowerPositive(d);
    IdleScore(g, states, target, results[i], d);
    IdleScore(g, states, target, results[j], d);
    assert "memory" != "network";
  }

  /** Without overload, a memory root one arc farther from the target still comes before a plain
      root, but after a network root; two arcs farther, after the plain root as well. */
  lemma FartherMemory(g: seq<Arc>, states: map<Node, NodeState>, target: Node, results: seq<RootCauseResult>,
                      i: nat, j: nat, d: nat, farther: nat)
    requires Descending(results) && i < |results| && j < |results| && 1 <= farther <= 2
    requires forall r :: r in results ==> ScoredByDistance(g, states, target, r)
    requires IdleRootAt(g, states, target, results[i], d + farther) && IdleRootAt(g, states, target, results[j], d)
    requires StateOf(states, results[i].nodeID).dominantSignal == "memory"
    ensures var b := StateOf(states, results[j].nodeID).dominantSignal;
            && (b != "memory" && b != "network" ==> (i < j <==> farther == 1) && i != j)
            && (b == "network" ==> j < i)
  {
    hide ScoredByDistance, IdleRootAt, Power;
    PowerPositive(d);
    PowerPositive(d + 1);
    IdleScore(g, states, target, results[i], d + farther);
    IdleScore(g, states, target, results[j], d);
    assert "memory" != "network";
  }

  /** Overload multiplies: two roots that differ in load alone score as their loads do. */
  lemma OverloadMultiplies(d: nat, idle: NodeState, load: real, score: real, overloaded: real)
    requires idle.load <= 1.0 < load
    requires ScoredAt(idle, d, score) && ScoredAt(idle.(load := load), d, overloaded)
    ensures overloaded == Times(load, score) && overloaded > score
  {
    hide Power;
    PowerPositive(d);
    var p := Power(0.72, d);
    TimesUnits(p);
    MulMonotone(1.0, load, p);
    MulPositive(p, load - 1.0);
    assert Times(p, load - 1.0) == Times(p, load) - p;
  }

  /** No root is later than what it explains, however the search reached it. */
  lemma RootNotLater(g: seq<Arc>, states: map<Node, NodeState>, a: Node, b: Node)
    requires TimedReaches(g, states, a, b)
    ensures StateOf(states, a).timestamp <= StateOf(states, b).timestamp
  {
    var w :| TimedWalk(g, states, w) && w[0] == a && w[|w| - 1] == b;
    TimedAlong(g, states, w, |w| - 1);
  }

  lemma {:induction false} TimedAlong(g: seq<Arc>, states: map<Node, NodeState>, w: seq<Node>, k: nat)
    requires TimedWalk(g, states, w) && k < |w|
    ensures StateOf(states, w[0]).timestamp <= StateOf(states, w[k]).timestamp
  {
    if k > 0 {
      TimedAlong(g, states, w, k - 1);
      assert NotLater(states, w[k - 1], w[k - 1 + 1]);
    }
  }

  /** When no arc runs backwards in time, the time check removes nothing: the roots
      are exactly the source nodes from which the target can be reached at all. */
  lemma ForwardTimeReaches(g: seq<Arc>, states: map<Node, NodeState>, a: Node, b: Node)
    requires ForwardInTime(g, states)
    ensures TimedReaches(g, states, a, b) <==> Reaches(g, a, b)
  {
    if TimedReaches(g, states, a, b) {
      TimedIsReach(g, states, a, b);
    }
    if w :| WalkFromTo(g, w, a, b) {
      forall i | 0 <= i < |w| - 1
        ensures NotLater(states, w[i], w[i + 1])
      {
        assert HasArc(g, w[i], w[i + 1]);
      }
      assert TimedWalk(g, states, w);
    }
  }

  ghost predicate StampedWith(states: map<Node, NodeState>, n: Node, d: nat) {
    StateOf(states, n).timestamp == d as real
  }

  ghost predicate HasDepthTimestamp(full: seq<Arc>, nodes: set<Node>, states: map<Node, NodeState>, n: Node) {
    exists d: nat :: IsDepth(full, GroundedNodes(full, nodes), n, d) && StampedWith(states, n, d)
  }

  /** With depth timestamps taken from an acyclic graph, the search on any subset
      of its arcs finds exactly the sources that reach the target. */
  lemma DepthTimestampsRemoveNothing(full: seq<Arc>, g: seq<Arc>, nodes: set<Node>, states: map<Node, NodeState>, a: Node, b: Node)
    requires Acyclic(full) && Endpoints(full) <= nodes && forall e :: e in g ==> e in full
    requires forall n :: n in nodes ==> HasDepthTimestamp(full, nodes, states, n)
    ensures TimedReaches(g, states, a, b) <==> Reaches(g, a, b)
  {
    forall p, n | HasArc(g, p, n)
      ensures NotLater(states, p, n)
    {
      assert Arc(p, n) in full;
      assert p in Endpoints(full) && n in Endpoints(full);
      var dp: nat :| IsDepth(full, GroundedNodes(full, nodes), p, dp) && StampedWith(states, p, dp);
      var dn: nat :| IsDepth(full, GroundedNodes(full, nodes), n, dn) && StampedWith(states, n, dn);
      DepthGrows(full, nodes, p, n, dp, dn);
    }
    ForwardTimeReaches(g, states, a, b);
  }
}
