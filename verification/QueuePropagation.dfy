/** Forward propagation of queue load over all simple paths. */
module QueuePropagation {
  import opened Digraph
  import opened Distances
  import opened RealArith

  const SPILLOVER_FACTOR := 0.6
  const STRENGTH_DECAY_PER_HOP := 0.72
  const SERVICE_FLOOR := 0.000000001

  datatype NodeState = NodeState(arrivalRate: real, serviceRate: real, queueLength: real,
                                 load: real, timestamp: real, dominantSignal: string)

  /** Reading a missing state gives the zero state. */
  function StateOf(states: map<Node, NodeState>, n: Node): NodeState {
    if n in states then states[n] else NodeState(0.0, 0.0, 0.0, 0.0, 0.0, "")
  }

  datatype QueueHop = QueueHop(node: Node, arrivalRate: real, serviceRate: real, queueLength: real,
                               isOverloaded: bool, generatedDelay: real, accumulatedDelay: real,
                               hopCount: nat, causalStrength: real, temporalValid: bool)

  datatype PropagationChain = PropagationChain(rootNode: Node, targetNode: Node, hops: seq<QueueHop>,
                                               totalDelay: real, finalStrength: real, isPhysicallyValid: bool)

  /** The primary queue model: arrival rate, service rate, overload flag, hop
      count and node state to queue length and delay. */
  type QueueModel = (real, real, bool, nat, NodeState) -> (real, real)

  datatype Frame = Frame(node: Node, accDelay: real, strength: real, hopCount: nat,
                         spilloverIn: real, upstreamTimestamp: real, path: set<Node>)

  // ---------------------------------------------------------------------
  // What a route through the graph accumulates

  function ServiceOf(s: NodeState): real {
    if s.serviceRate < SERVICE_FLOOR then SERVICE_FLOOR else s.serviceRate
  }

  function EffectiveArrival(s: NodeState, spillover: real): real {
    var own := s.arrivalRate + spillover;
    if own < s.arrivalRate then s.arrivalRate else own
  }

  /** The overflow arriving at the last node of a route: what its predecessor could not serve. */
  ghost function Spill(states: map<Node, NodeState>, route: seq<Node>): real
    requires |route| >= 1
  {
    if |route| == 1 then 0.0
    else
      var up := StateOf(states, route[|route| - 2]);
      var excess := EffectiveArrival(up, Spill(states, route[..|route| - 1])) - ServiceOf(up);
      if excess > 0.0 then excess * SPILLOVER_FACTOR else 0.0
  }

  ghost function Arrival(states: map<Node, NodeState>, route: seq<Node>): real
    requires |route| >= 1
  {
    EffectiveArrival(StateOf(states, route[|route| - 1]), Spill(states, route))
  }

  /** Queue length and delay at the last node of a route. */
  ghost function AtEnd(model: QueueModel, states: map<Node, NodeState>, route: seq<Node>): (real, real)
    requires |route| >= 1
  {
    var s := StateOf(states, route[|route| - 1]);
    var arrival := Arrival(states, route);
    model(arrival, ServiceOf(s), arrival > ServiceOf(s), |route| - 1, s)
  }

  ghost function TotalDelay(model: QueueModel, states: map<Node, NodeState>, route: seq<Node>): real {
    if route == [] then 0.0
    else TotalDelay(model, states, route[..|route| - 1]) + AtEnd(model, states, route).1
  }

  /** 0.72 to the n. */
  function Decay(n: nat): real {
    if n == 0 then 1.0 else Decay(n - 1) * STRENGTH_DECAY_PER_HOP
  }

  ghost function UpstreamTime(states: map<Node, NodeState>, route: seq<Node>): real
    requires |route| >= 1
  {
    StateOf(states, if |route| == 1 then route[0] else route[|route| - 2]).timestamp
  }

  ghost function HopOf(model: QueueModel, states: map<Node, NodeState>, route: seq<Node>): QueueHop
    requires |route| >= 1
  {
    var s := StateOf(states, route[|route| - 1]);
    var arrival := Arrival(states, route);
    QueueHop(route[|route| - 1], arrival, ServiceOf(s), AtEnd(model, states, route).0, arrival > ServiceOf(s),
             AtEnd(model, states, route).1, TotalDelay(model, states, route), |route| - 1, Decay(|route| - 1),
             s.timestamp >= UpstreamTime(states, route))
  }

  // ---------------------------------------------------------------------
  // The frames in the queue

  ghost predicate SimpleFrom(g: seq<Arc>, root: Node, route: seq<Node>) {
    |route| >= 1 && route[0] == root && IsWalk(g, route) && Distinct(route)
  }

  ghost predicate FrameFor(model: QueueModel, states: map<Node, NodeState>, f: Frame, route: seq<Node>) {
    && |route| >= 1
    && f.node == route[|route| - 1]
    && f.hopCount == |route| - 1
    && f.path == SeqSet(route)
    && f.accDelay == TotalDelay(model, states, route[..|route| - 1])
    && f.strength == Decay(if |route| == 1 then 0 else |route| - 2)
    && f.spilloverIn == Spill(states, route)
    && f.upstreamTimestamp == UpstreamTime(states, route)
  }

  ghost predicate FramesFor(g: seq<Arc>, root: Node, model: QueueModel, states: map<Node, NodeState>,
                            queue: seq<Frame>, routes: seq<seq<Node>>) {
    && |queue| == |routes|
    && (forall i :: 0 <= i < |queue| ==> FrameFor(model, states, queue[i], routes[i]))
    && (forall i :: 0 <= i < |queue| ==> SimpleFrom(g, root, routes[i]))
  }

  /** Shorter routes first, and never more than one arc apart. */
  ghost predicate ByLength(routes: seq<seq<Node>>) {
    && (forall i, j :: 0 <= i < j < |routes| ==> |routes[i]| <= |routes[j]|)
    && (forall i :: 0 <= i < |routes| ==> |routes[i]| <= |routes[0]| + 1)
  }

  /** Every simple path to the target still has a prefix waiting. */
  ghost predicate Covers(g: seq<Arc>, root: Node, target: Node, routes: seq<seq<Node>>) {
    forall p {:trigger SimpleFrom(g, root, p)} {:trigger HasPrefixIn(routes, p)} ::
      SimpleFrom(g, root, p) && p[|p| - 1] == target ==> HasPrefixIn(routes, p)
  }

  ghost predicate HasPrefixIn(routes: seq<seq<Node>>, p: seq<Node>) {
    exists i :: 0 <= i < |routes| && routes[i] <= p
  }

  /** Every simple route from the root has its hop recorded, or continues a waiting route. */
  ghost predicate Recorded(g: seq<Arc>, model: QueueModel, states: map<Node, NodeState>, root: Node,
                           hops: seq<QueueHop>, routes: seq<seq<Node>>) {
    forall p {:trigger SimpleFrom(g, root, p)} ::
      SimpleFrom(g, root, p) ==> HopOf(model, states, p) in hops || HasPrefixIn(routes, p)
  }

  // ---------------------------------------------------------------------
  // Termination: a frame with r unused nodes weighs 1 + |E| times a frame with r - 1

  ghost function Weight(arcs: nat, r: nat): nat {
    if r == 0 then 1 else 1 + arcs * Weight(arcs, r - 1)
  }

  ghost function QueueWeight(arcs: nat, universe: set<Node>, queue: seq<Frame>): nat {
    if queue == [] then 0
    else QueueWeight(arcs, universe, queue[..|queue| - 1]) + Weight(arcs, |universe - queue[|queue| - 1].path|)
  }

  lemma {:induction false} QueueWeightHead(arcs: nat, universe: set<Node>, queue: seq<Frame>)
    requires |queue| > 0
    ensures QueueWeight(arcs, universe, queue) ==
            Weight(arcs, |universe - queue[0].path|) + QueueWeight(arcs, universe, queue[1..])
    decreases |queue|
  {
    if |queue| > 1 {
      QueueWeightHead(arcs, universe, queue[..|queue| - 1]);
      assert queue[1..][..|queue| - 2] == queue[..|queue| - 1][1..];
    } else {
      assert queue[..0] == queue[1..] == [];
    }
  }

  /** What one child of a frame weighs. */
  ghost function ChildWeight(arcs: nat, universe: set<Node>, f: Frame): nat {
    if universe - f.path == {} then 0 else Weight(arcs, |universe - f.path| - 1)
  }

  /** Appending children of one frame, one per arc at most. */
  ghost predicate Lighter(arcs: nat, universe: set<Node>, rest: seq<Frame>, f: Frame, queue: seq<Frame>, i: nat) {
    QueueWeight(arcs, universe, queue) <= QueueWeight(arcs, universe, rest) + i * ChildWeight(arcs, universe, f)
  }

  lemma LighterStep(arcs: nat, universe: set<Node>, rest: seq<Frame>, f: Frame, queue: seq<Frame>, i: nat, child: Frame)
    requires Lighter(arcs, universe, rest, f, queue, i)
    requires child.node in universe && child.node !in f.path && child.path == f.path + {child.node}
    ensures Lighter(arcs, universe, rest, f, queue + [child], i + 1)
  {
    var u := universe - f.path;
    assert universe - child.path == u - {child.node} && child.node in u;
    assert (queue + [child])[..|queue|] == queue;
    var w := ChildWeight(arcs, universe, f);
    assert (i + 1) * w == i * w + w;
  }

  lemma LighterSkip(arcs: nat, universe: set<Node>, rest: seq<Frame>, f: Frame, queue: seq<Frame>, i: nat)
    requires Lighter(arcs, universe, rest, f, queue, i)
    ensures Lighter(arcs, universe, rest, f, queue, i + 1)
  {
    var w := ChildWeight(arcs, universe, f);
    assert (i + 1) * w == i * w + w;
  }

  lemma LighterDone(arcs: nat, universe: set<Node>, rest: seq<Frame>, f: Frame, queue: seq<Frame>)
    requires Lighter(arcs, universe, rest, f, queue, arcs)
    ensures QueueWeight(arcs, universe, queue) < QueueWeight(arcs, universe, [f] + rest)
  {
    QueueWeightHead(arcs, universe, [f] + rest);
    assert ([f] + rest)[1..] == rest;
    if universe - f.path == {} {
      assert arcs * 0 == 0;
    }
  }

  // ---------------------------------------------------------------------
  // One frame

  /** The child of a frame along an arc out of its last node. */
  lemma ChildFrame(g: seq<Arc>, root: Node, model: QueueModel, states: map<Node, NodeState>,
                   f: Frame, route: seq<Node>, to: Node, hop: QueueHop, spill: real)
    requires FrameFor(model, states, f, route) && SimpleFrom(g, root, route)
    requires HasArc(g, f.node, to) && to !in f.path
    requires hop == HopOf(model, states, route)
    requires spill == if hop.isOverloaded then (hop.arrivalRate - hop.serviceRate) * SPILLOVER_FACTOR else 0.0
    ensures SimpleFrom(g, root, route + [to])
    ensures FrameFor(model, states,
                     Frame(to, hop.accumulatedDelay, hop.causalStrength, f.hopCount + 1, spill,
                           StateOf(states, f.node).timestamp, f.path + {to}), route + [to])
  {
    var r := route + [to];
    assert r[..|r| - 1] == route;
    forall i | 0 <= i < |r| - 1
      ensures HasArc(g, r[i], r[i + 1])
    {
      if i < |route| - 1 {
        assert HasArc(g, route[i], route[i + 1]);
      }
    }
    assert SeqSet(r) == SeqSet(route) + {to};
  }

  /** Computing the hop of a frame from the frame's own fields. */
  method ComputeHop(model: QueueModel, states: map<Node, NodeState>, f: Frame, ghost route: seq<Node>)
    returns (hop: QueueHop)
    requires FrameFor(model, states, f, route)
    ensures hop == HopOf(model, states, route)
  {
    var state := StateOf(states, f.node);
    var temporalValid := state.timestamp >= f.upstreamTimestamp;
    var lambdaEff := state.arrivalRate + f.spilloverIn;
    if lambdaEff < state.arrivalRate {
      lambdaEff := state.arrivalRate;
    }
    var mu := state.serviceRate;
    if mu < SERVICE_FLOOR {
      mu := SERVICE_FLOOR;
    }
    var isOverloaded := lambdaEff > mu;
    var (queueLen, generatedDelay) := model(lambdaEff, mu, isOverloaded, f.hopCount, state);
    var strength := f.strength;
    if f.hopCount > 0 {
      strength := strength * STRENGTH_DECAY_PER_HOP;
    }
    var accDelay := f.accDelay + generatedDelay;
    hop := QueueHop(f.node, lambdaEff, mu, queueLen, isOverloaded, generatedDelay, accDelay, f.hopCount,
                    strength, temporalValid);
  }

  /** Half way through the arcs of a dequeued frame: `children` lists the routes
      appended so far, each one arc longer than the frame's. */
  ghost predicate Extended(g: seq<Arc>, route: seq<Node>, children: seq<seq<Node>>, i: nat) {
    && |route| >= 1 && i <= |g|
    && (forall k :: 0 <= k < |children| ==> |children[k]| == |route| + 1)
    && (forall k :: 0 <= k < i && g[k].from == route[|route| - 1] && g[k].to !in route ==> route + [g[k].to] in children)
  }

  method EnqueueChildren(g: seq<Arc>, model: QueueModel, states: map<Node, NodeState>, root: Node,
                         f: Frame, hop: QueueHop, rest: seq<Frame>,
                         ghost route: seq<Node>, ghost restRoutes: seq<seq<Node>>)
    returns (queue: seq<Frame>, ghost children: seq<seq<Node>>)
    requires FrameFor(model, states, f, route) && SimpleFrom(g, root, route) && hop == HopOf(model, states, route)
    requires FramesFor(g, root, model, states, rest, restRoutes)
    ensures FramesFor(g, root, model, states, queue, restRoutes + children)
    ensures Extended(g, route, children, |g|)
    ensures QueueWeight(|g|, Endpoints(g) + {root}, queue) < QueueWeight(|g|, Endpoints(g) + {root}, [f] + rest)
  {
    hide FrameFor, HopOf, SimpleFrom, QueueWeight, Lighter, FramesFor;
    ghost var universe := Endpoints(g) + {root};
    FrameBasics(g, root, model, states, f, route, hop);
    LighterStart(|g|, universe, rest, f);
    queue, children := rest, [];
    assert restRoutes + children == restRoutes;
    var spillover := 0.0;
    if hop.isOverloaded {
      spillover := (hop.arrivalRate - hop.serviceRate) * SPILLOVER_FACTOR;
    }
    for i := 0 to |g|
      invariant FramesFor(g, root, model, states, queue, restRoutes + children)
      invariant Extended(g, route, children, i)
      invariant Lighter(|g|, universe, rest, f, queue, i)
    {
      var edge := g[i];
      if edge.from == f.node && edge.to !in f.path {
        var child := Frame(edge.to, hop.accumulatedDelay, hop.causalStrength, f.hopCount + 1, spillover,
                           StateOf(states, f.node).timestamp, f.path + {edge.to});
        assert HasArc(g, f.node, edge.to);
        ChildFrame(g, root, model, states, f, route, edge.to, hop, spillover);
        LighterStep(|g|, universe, rest, f, queue, i, child);
        FramesAppend(g, root, model, states, queue, restRoutes + children, child, route + [edge.to]);
        assert restRoutes + (children + [route + [edge.to]]) == restRoutes + children + [route + [edge.to]];
        queue := queue + [child];
        children := children + [route + [edge.to]];
      } else {
        LighterSkip(|g|, universe, rest, f, queue, i);
      }
    }
    LighterDone(|g|, universe, rest, f, queue);
  }

  lemma FramesAppend(g: seq<Arc>, root: Node, model: QueueModel, states: map<Node, NodeState>,
                     queue: seq<Frame>, routes: seq<seq<Node>>, f: Frame, route: seq<Node>)
    requires FramesFor(g, root, model, states, queue, routes)
    requires FrameFor(model, states, f, route) && SimpleFrom(g, root, route)
    ensures FramesFor(g, root, model, states, queue + [f], routes + [route])
  {
  }

  lemma FramesFront(g: seq<Arc>, root: Node, model: QueueModel, states: map<Node, NodeState>,
                    queue: seq<Frame>, routes: seq<seq<Node>>)
    requires FramesFor(g, root, model, states, queue, routes) && |queue| > 0
    ensures |routes| == |queue| && FrameFor(model, states, queue[0], routes[0]) && SimpleFrom(g, root, routes[0])
    ensures FramesFor(g, root, model, states, queue[1..], routes[1..])
  {
  }

  lemma FrameBasics(g: seq<Arc>, root: Node, model: QueueModel, states: map<Node, NodeState>,
                    f: Frame, route: seq<Node>, hop: QueueHop)
    requires FrameFor(model, states, f, route) && SimpleFrom(g, root, route) && hop == HopOf(model, states, route)
    ensures |route| >= 1 && f.node == route[|route| - 1] && f.path == SeqSet(route)
    ensures hop.isOverloaded == (hop.arrivalRate > hop.serviceRate)
  {
  }

  lemma LighterStart(arcs: nat, universe: set<Node>, rest: seq<Frame>, f: Frame)
    ensures Lighter(arcs, universe, rest, f, rest, 0)
  {
  }

  // ---------------------------------------------------------------------
  // The queue as a whole

  lemma ByLengthStep(g: seq<Arc>, route: seq<Node>, rest: seq<seq<Node>>, children: seq<seq<Node>>)
    requires ByLength([route] + rest) && Extended(g, route, children, |g|)
    ensures ByLength(rest + children)
  {
    var before, after := [route] + rest, rest + children;
    forall i | 0 <= i < |after|
      ensures |route| <= |after[i]| <= |route| + 1
      ensures i >= |rest| ==> |after[i]| == |route| + 1
    {
      if i < |rest| {
        assert after[i] == before[i + 1] && before[0] == route;
      }
    }
    forall i, j | 0 <= i < j < |after|
      ensures |after[i]| <= |after[j]|
    {
      if j < |rest| {
        assert after[i] == before[i + 1] && after[j] == before[j + 1];
      }
    }
  }

  lemma CoversStep(g: seq<Arc>, root: Node, target: Node, route: seq<Node>, rest: seq<seq<Node>>, children: seq<seq<Node>>)
    requires Covers(g, root, target, [route] + rest) && Extended(g, route, children, |g|)
    requires route[|route| - 1] != target
    ensures Covers(g, root, target, rest + children)
  {
    forall p | SimpleFrom(g, root, p) && p[|p| - 1] == target
      ensures HasPrefixIn(rest + children, p)
    {
      assert HasPrefixIn([route] + rest, p);
      var i :| 0 <= i < |rest| + 1 && ([route] + rest)[i] <= p;
      if i > 0 {
        assert (rest + children)[i - 1] == ([route] + rest)[i];
      } else {
        NextOnPath(g, root, p, route, children);
        var c :| 0 <= c < |children| && children[c] <= p;
        assert (rest + children)[|rest| + c] == children[c];
      }
    }
  }

  lemma RecordedStep(g: seq<Arc>, model: QueueModel, states: map<Node, NodeState>, root: Node, hops: seq<QueueHop>,
                     route: seq<Node>, rest: seq<seq<Node>>, children: seq<seq<Node>>)
    requires Recorded(g, model, states, root, hops, [route] + rest) && Extended(g, route, children, |g|)
    ensures Recorded(g, model, states, root, hops + [HopOf(model, states, route)], rest + children)
  {
    hide HopOf;
    forall p | SimpleFrom(g, root, p) && HopOf(model, states, p) !in hops + [HopOf(model, states, route)]
      ensures HasPrefixIn(rest + children, p)
    {
      assert HasPrefixIn([route] + rest, p);
      var i :| 0 <= i < |rest| + 1 && ([route] + rest)[i] <= p;
      if i > 0 {
        assert (rest + children)[i - 1] == ([route] + rest)[i];
      } else {
        assert (hops + [HopOf(model, states, route)])[|hops|] == HopOf(model, states, route);
        assert |p| == |route| ==> p == route;
        NextOnPath(g, root, p, route, children);
        var c :| 0 <= c < |children| && children[c] <= p;
        assert (rest + children)[|rest| + c] == children[c];
      }
    }
  }

  ghost predicate RecordedBelow(g: seq<Arc>, model: QueueModel, states: map<Node, NodeState>, root: Node,
                                hops: seq<QueueHop>, n: nat) {
    forall p {:trigger SimpleFrom(g, root, p)} :: SimpleFrom(g, root, p) && |p| < n ==> HopOf(model, states, p) in hops
  }

  /** What waits is no shorter than its front, so everything shorter has been recorded. */
  lemma ShorterRecorded(g: seq<Arc>, model: QueueModel, states: map<Node, NodeState>, root: Node,
                        hops: seq<QueueHop>, hop: QueueHop, routes: seq<seq<Node>>)
    requires Recorded(g, model, states, root, hops, routes) && ByLength(routes) && |routes| > 0
    ensures RecordedBelow(g, model, states, root, hops + [hop], |routes[0]|)
  {
    hide HopOf;
    assert forall i :: 0 <= i < |routes| ==> |routes[0]| <= |routes[i]|;
    forall p | SimpleFrom(g, root, p) && |p| < |routes[0]|
      ensures HopOf(model, states, p) in hops
    {
      assert !HasPrefixIn(routes, p);
    }
  }

  lemma AllRecorded(g: seq<Arc>, model: QueueModel, states: map<Node, NodeState>, root: Node, chain: PropagationChain)
    requires |chain.hops| >= 1
    requires if chain.isPhysicallyValid
             then RecordedBelow(g, model, states, root, chain.hops, chain.hops[|chain.hops| - 1].hopCount + 1)
             else Recorded(g, model, states, root, chain.hops, [])
    ensures NoneLeftOut(g, model, states, root, chain)
  {
    hide HopOf;
  }

  /** A simple path that continues a route continues it through one of its children. */
  lemma NextOnPath(g: seq<Arc>, root: Node, p: seq<Node>, route: seq<Node>, children: seq<seq<Node>>)
    requires SimpleFrom(g, root, p) && Extended(g, route, children, |g|)
    requires route < p
    ensures exists c :: 0 <= c < |children| && children[c] <= p
  {
    var n := |route|;
    assert n < |p|;
    assert HasArc(g, p[n - 1], p[n - 1 + 1]);
    var k :| 0 <= k < |g| && g[k] == Arc(p[n - 1], p[n]);
    assert p[n] !in route;
    assert route + [p[n]] == p[..n + 1];
    assert route + [g[k].to] in children;
  }

  ghost predicate Result(g: seq<Arc>, model: QueueModel, states: map<Node, NodeState>, root: Node, target: Node,
                         chain: PropagationChain) {
    && chain.rootNode == root && chain.targetNode == target && |chain.hops| >= 1
    && (forall h :: h in chain.hops ==> IsRouteHop(g, model, states, root, h))
    && (forall i, j :: 0 <= i < j < |chain.hops| ==> chain.hops[i].hopCount <= chain.hops[j].hopCount)
    && chain.totalDelay == chain.hops[|chain.hops| - 1].accumulatedDelay
    && chain.finalStrength == chain.hops[|chain.hops| - 1].causalStrength
    && (chain.isPhysicallyValid <==> Reaches(g, root, target))
    && (chain.isPhysicallyValid ==> ReachedAt(g, model, states, root, target, chain))
    && (!chain.isPhysicallyValid ==> forall h :: h in chain.hops ==> h.node != target)
    && (forall i :: 0 <= i < |chain.hops| - 1 ==> chain.hops[i].node != target)
    && NoneLeftOut(g, model, states, root, chain)
  }

  /** The hops cover every simple route from the root, up to the length at which the target was met. */
  ghost predicate NoneLeftOut(g: seq<Arc>, model: QueueModel, states: map<Node, NodeState>, root: Node,
                              chain: PropagationChain)
    requires |chain.hops| >= 1
  {
    forall p {:trigger SimpleFrom(g, root, p)} ::
      SimpleFrom(g, root, p) && (chain.isPhysicallyValid ==> |p| - 1 < chain.hops[|chain.hops| - 1].hopCount) ==>
        HopOf(model, states, p) in chain.hops
  }

  /** h is what a simple route from the root accumulates at its end. */
  ghost predicate IsRouteHop(g: seq<Arc>, model: QueueModel, states: map<Node, NodeState>, root: Node, h: QueueHop) {
    exists route :: SimpleFrom(g, root, route) && h == HopOf(model, states, route)
  }

  /** The last hop belongs to a shortest path, and the totals are that path's. */
  ghost predicate ReachedAt(g: seq<Arc>, model: QueueModel, states: map<Node, NodeState>, root: Node, target: Node,
                            chain: PropagationChain) {
    exists route {:trigger SimpleFrom(g, root, route)} ::
      && SimpleFrom(g, root, route) && route[|route| - 1] == target
      && |chain.hops| >= 1 && chain.hops[|chain.hops| - 1] == HopOf(model, states, route)
      && IsDistance(g, root, target, |route| - 1)
      && chain.finalStrength == Decay(|route| - 1)
      && chain.totalDelay == TotalDelay(model, states, route)
  }

  /** A route that ends at the target and is no longer than anything waiting is shortest. */
  lemma FrontIsShortest(g: seq<Arc>, root: Node, target: Node, routes: seq<seq<Node>>)
    requires |routes| > 0 && SimpleFrom(g, root, routes[0]) && routes[0][|routes[0]| - 1] == target
    requires ByLength(routes) && Covers(g, root, target, routes)
    ensures IsDistance(g, root, target, |routes[0]| - 1)
  {
    assert WalkFromTo(g, routes[0], root, target);
    forall w | WalkFromTo(g, w, root, target)
      ensures |w| >= |routes[0]|
    {
      var p := SimpleWalk(g, w);
      assert HasPrefixIn(routes, p);
      var i :| 0 <= i < |routes| && routes[i] <= p;
      assert |routes[0]| <= |routes[i]|;
    }
  }

  lemma NothingWaitingUnreachable(g: seq<Arc>, root: Node, target: Node)
    requires Covers(g, root, target, [])
    ensures !Reaches(g, root, target)
  {
    forall p
      ensures !HasPrefixIn([], p)
    {
    }
    if w :| WalkFromTo(g, w, root, target) {
      var p := SimpleWalk(g, w);
      assert !HasPrefixIn([], p) && SimpleFrom(g, root, p);
    }
  }

  lemma Seed(g: seq<Arc>, model: QueueModel, states: map<Node, NodeState>, root: Node, target: Node)
    ensures FramesFor(g, root, model, states, [Frame(root, 0.0, 1.0, 0, 0.0, StateOf(states, root).timestamp, {root})], [[root]])
    ensures ByLength([[root]]) && Covers(g, root, target, [[root]]) && HopsSorted([], [[root]])
    ensures Recorded(g, model, states, root, [], [[root]])
  {
    hide HopOf;
    forall p | SimpleFrom(g, root, p)
      ensures HasPrefixIn([[root]], p)
    {
      assert [[root]][0] <= p;
    }
    assert SeqSet([root]) == {root};
  }

  method PropagateQueueLoad(graph: seq<Arc>, model: QueueModel, states: map<Node, NodeState>, rootNode: Node, targetNode: Node)
    returns (chain: PropagationChain)
    ensures Result(graph, model, states, rootNode, targetNode, chain)
  {
    hide FrameFor, FramesFor, HopOf, SimpleFrom, QueueWeight, ByLength, Covers, Extended, IsDistance, IsRouteHop, Result,
         HopsSorted, ReachedAt, Reaches, Recorded, RecordedBelow, NoneLeftOut;
    var queue := [Frame(rootNode, 0.0, 1.0, 0, 0.0, StateOf(states, rootNode).timestamp, {rootNode})];
    ghost var routes, universe := [[rootNode]], Endpoints(graph) + {rootNode};
    var hops: seq<QueueHop> := [];
    var reachedTarget := false;
    ghost var reached: seq<Node> := [];
    Seed(graph, model, states, rootNode, targetNode);
    while |queue| > 0
      invariant FramesFor(graph, rootNode, model, states, queue, routes)
      invariant ByLength(routes) && Covers(graph, rootNode, targetNode, routes)
      invariant !reachedTarget
      invariant hops == [] ==> |queue| > 0
      invariant forall h :: h in hops ==> IsRouteHop(graph, model, states, rootNode, h) && h.node != targetNode
      invariant HopsSorted(hops, routes) && Recorded(graph, model, states, rootNode, hops, routes)
      decreases QueueWeight(|graph|, universe, queue)
    {
      FramesFront(graph, rootNode, model, states, queue, routes);
      var f := queue[0];
      ghost var route, rest := routes[0], routes[1..];
      assert queue == [f] + queue[1..] && routes == [route] + rest;
      var hop := ComputeHop(model, states, f, route);
      HopBasics(graph, rootNode, model, states, f, route, hop);
      HopsSortedStep(hops, routes, hop);
      ghost var before := hops;
      hops := hops + [hop];
      if f.node == targetNode {
        reachedTarget := true;
        reached := route;
        ShorterRecorded(graph, model, states, rootNode, before, hop, routes);
        FrontIsShortest(graph, rootNode, targetNode, routes);
        break;
      }
      ghost var children;
      queue, children := EnqueueChildren(graph, model, states, rootNode, f, hop, queue[1..], route, rest);
      ByLengthStep(graph, route, rest, children);
      CoversStep(graph, rootNode, targetNode, route, rest, children);
      RecordedStep(graph, model, states, rootNode, before, route, rest, children);
      HopsStillSorted(graph, hops, route, rest, children);
      routes := rest + children;
    }
    var last := hops[|hops| - 1];
    chain := PropagationChain(rootNode, targetNode, hops, last.accumulatedDelay, last.causalStrength, reachedTarget);
    if reachedTarget {
      Arrived(graph, model, states, rootNode, targetNode, chain, reached);
    } else {
      NoneLeft(graph, rootNode, model, states, queue, routes);
      NothingWaitingUnreachable(graph, rootNode, targetNode);
    }
    AllRecorded(graph, model, states, rootNode, chain);
    Conclude(graph, model, states, rootNode, targetNode, chain, routes);
  }

  lemma NoneLeft(g: seq<Arc>, root: Node, model: QueueModel, states: map<Node, NodeState>,
                 queue: seq<Frame>, routes: seq<seq<Node>>)
    requires FramesFor(g, root, model, states, queue, routes) && |queue| == 0
    ensures routes == []
  {
  }

  lemma Conclude(g: seq<Arc>, model: QueueModel, states: map<Node, NodeState>, root: Node, target: Node,
                 chain: PropagationChain, routes: seq<seq<Node>>)
    requires chain.rootNode == root && chain.targetNode == target && |chain.hops| >= 1
    requires forall h :: h in chain.hops ==> IsRouteHop(g, model, states, root, h)
    requires HopsSorted(chain.hops, routes)
    requires chain.totalDelay == chain.hops[|chain.hops| - 1].accumulatedDelay
    requires chain.finalStrength == chain.hops[|chain.hops| - 1].causalStrength
    requires chain.isPhysicallyValid <==> Reaches(g, root, target)
    requires chain.isPhysicallyValid ==> ReachedAt(g, model, states, root, target, chain)
    requires !chain.isPhysicallyValid ==> forall h :: h in chain.hops ==> h.node != target
    requires forall i :: 0 <= i < |chain.hops| - 1 ==> chain.hops[i].node != target
    requires NoneLeftOut(g, model, states, root, chain)
    ensures Result(g, model, states, root, target, chain)
  {
    hide ReachedAt, IsRouteHop, Reaches, NoneLeftOut;
  }

  /** Hops are recorded in order, and none is longer than what is waiting. */
  ghost predicate HopsSorted(hops: seq<QueueHop>, routes: seq<seq<Node>>) {
    && (forall i, j :: 0 <= i < j < |hops| ==> hops[i].hopCount <= hops[j].hopCount)
    && (forall h, k :: h in hops && 0 <= k < |routes| ==> h.hopCount + 1 <= |routes[k]|)
  }

  lemma HopsSortedStep(hops: seq<QueueHop>, routes: seq<seq<Node>>, hop: QueueHop)
    requires HopsSorted(hops, routes) && |routes| > 0 && hop.hopCount == |routes[0]| - 1 && ByLength(routes)
    ensures HopsSorted(hops + [hop], routes)
  {
  }

  lemma HopsStillSorted(g: seq<Arc>, hops: seq<QueueHop>, route: seq<Node>, rest: seq<seq<Node>>, children: seq<seq<Node>>)
    requires HopsSorted(hops, [route] + rest) && Extended(g, route, children, |g|)
    ensures HopsSorted(hops, rest + children)
  {
    forall h, k | h in hops && 0 <= k < |rest + children|
      ensures h.hopCount + 1 <= |(rest + children)[k]|
    {
      assert ([route] + rest)[0] == route;
      if k < |rest| {
        assert ([route] + rest)[k + 1] == (rest + children)[k];
      }
    }
  }

  lemma HopBasics(g: seq<Arc>, root: Node, model: QueueModel, states: map<Node, NodeState>,
                  f: Frame, route: seq<Node>, hop: QueueHop)
    requires FrameFor(model, states, f, route) && SimpleFrom(g, root, route) && hop == HopOf(model, states, route)
    ensures |route| >= 1 && f.node == route[|route| - 1] == hop.node && hop.hopCount == |route| - 1
    ensures IsRouteHop(g, model, states, root, hop)
  {
  }

  lemma Arrived(g: seq<Arc>, model: QueueModel, states: map<Node, NodeState>, root: Node, target: Node,
                chain: PropagationChain, route: seq<Node>)
    requires SimpleFrom(g, root, route) && route[|route| - 1] == target && IsDistance(g, root, target, |route| - 1)
    requires |chain.hops| >= 1 && chain.hops[|chain.hops| - 1] == HopOf(model, states, route)
    requires chain.totalDelay == chain.hops[|chain.hops| - 1].accumulatedDelay
    requires chain.finalStrength == chain.hops[|chain.hops| - 1].causalStrength
    ensures ReachedAt(g, model, states, root, target, chain) && Reaches(g, root, target)
  {
    assert WalkFromTo(g, route, root, target);
  }

  lemma ShortestRoute(g: seq<Arc>, model: QueueModel, states: map<Node, NodeState>, root: Node, target: Node,
                      chain: PropagationChain) returns (route: seq<Node>)
    requires Result(g, model, states, root, target, chain) && chain.isPhysicallyValid
    ensures SimpleFrom(g, root, route) && route[|route| - 1] == target && IsDistance(g, root, target, |route| - 1)
    ensures chain.hops[|chain.hops| - 1].hopCount == |route| - 1 && chain.finalStrength == Decay(|route| - 1)
    ensures chain.hops[|chain.hops| - 1].temporalValid <==>
              StateOf(states, target).timestamp >= UpstreamTime(states, route)
  {
    hide IsDistance, SimpleFrom, Decay, TotalDelay, Reaches, IsRouteHop, UpstreamTime;
    route :| SimpleFrom(g, root, route) && |route| >= 1 && route[|route| - 1] == target
          && IsDistance(g, root, target, |route| - 1)
          && chain.hops[|chain.hops| - 1] == HopOf(model, states, route)
          && chain.finalStrength == Decay(|route| - 1);
  }

  /** The three searches agree: the last hop count, the distance table and the
      evidence path all measure the same shortest path. */
  lemma SearchesAgree(g: seq<Arc>, model: QueueModel, states: map<Node, NodeState>, root: Node, target: Node,
                      chain: PropagationChain, dist: map<Node, nat>, path: seq<Node>)
    requires Result(g, model, states, root, target, chain) && DistancesTo(g, target, dist)
    requires Reaches(g, root, target) ==> WalkFromTo(g, path, root, target) && IsDistance(g, root, target, |path| - 1)
    ensures chain.isPhysicallyValid <==> root in dist
    ensures chain.isPhysicallyValid ==>
              chain.hops[|chain.hops| - 1].hopCount == dist[root] == |path| - 1 && chain.finalStrength == Decay(dist[root])
  {
    hide IsDistance, Decay, SimpleFrom, ReachedAt, IsRouteHop, UpstreamTime;
    if chain.isPhysicallyValid {
      var route := ShortestRoute(g, model, states, root, target, chain);
      DistanceUnique(g, root, target, |route| - 1, dist[root]);
      DistanceUnique(g, root, target, |path| - 1, dist[root]);
    }
  }

  // ---------------------------------------------------------------------
  // The laws of a route, hop by hop

  /** A route of one node: nothing has arrived from upstream. */
  lemma FirstHop(model: QueueModel, states: map<Node, NodeState>, root: Node)
    ensures var h, s := HopOf(model, states, [root]), StateOf(states, root);
            && h.node == root && h.arrivalRate == s.arrivalRate && h.hopCount == 0
            && h.causalStrength == 1.0 && h.accumulatedDelay == h.generatedDelay && h.temporalValid
    ensures OwnQueue(model, StateOf(states, root), HopOf(model, states, [root]))
  {
    assert TotalDelay(model, states, [root][..0]) == 0.0;
  }

  /** At one node: served at its own rate, which is taken to be at least 10^-9, overloaded when more
      arrives than it serves, with the queue and the delay that the model gives for just that. */
  ghost predicate OwnQueue(model: QueueModel, s: NodeState, h: QueueHop) {
    && h.serviceRate == (if s.serviceRate < 0.000000001 then 0.000000001 else s.serviceRate)
    && (h.isOverloaded <==> h.arrivalRate > h.serviceRate)
    && (h.queueLength, h.generatedDelay) == model(h.arrivalRate, h.serviceRate, h.isOverloaded, h.hopCount, s)
  }

  /** One arc further, six tenths of what an overloaded node could not serve arrives on top of the
      next node's own load, and nothing from a node that is not; delays add up, strength decays. */
  lemma NextHop(model: QueueModel, states: map<Node, NodeState>, route: seq<Node>, n: Node)
    requires |route| >= 1
    ensures var h, h', s := HopOf(model, states, route), HopOf(model, states, route + [n]), StateOf(states, n);
            && h'.node == n && h'.hopCount == h.hopCount + 1
            && h'.arrivalRate - s.arrivalRate == (if h.isOverloaded then 0.6 * (h.arrivalRate - h.serviceRate) else 0.0)
            && h'.causalStrength == 0.72 * h.causalStrength
            && h'.accumulatedDelay == h.accumulatedDelay + h'.generatedDelay
            && (h'.temporalValid <==> StateOf(states, h.node).timestamp <= s.timestamp)
            && OwnQueue(model, s, h')
  {
    var r := route + [n];
    assert r[..|r| - 1] == route;
  }

  /** The strength at the end of a route is 0.72 to the number of its arcs. */
  lemma {:induction false} StrengthAtEnd(model: QueueModel, states: map<Node, NodeState>, route: seq<Node>)
    requires |route| >= 1
    ensures HopOf(model, states, route).causalStrength == Power(0.72, |route| - 1)
  {
    hide HopOf;
    if |route| == 1 {
      FirstHop(model, states, route[0]);
      assert route == [route[0]];
    } else {
      var init := route[..|route| - 1];
      StrengthAtEnd(model, states, init);
      NextHop(model, states, init, route[|route| - 1]);
      assert route == init + [route[|route| - 1]];
    }
  }

  /** The same states, but d more arriving at n. */
  ghost function Raised(states: map<Node, NodeState>, n: Node, d: real): map<Node, NodeState> {
    states[n := StateOf(states, n).(arrivalRate := StateOf(states, n).arrivalRate + d)]
  }

  ghost predicate OverloadedBefore(model: QueueModel, states: map<Node, NodeState>, route: seq<Node>) {
    forall k :: 1 <= k < |route| ==> HopOf(model, states, route[..k]).isOverloaded
  }

  /** d more at the root never lowers an arrival downstream and raises the arrival k arcs on by at
      most 0.6 to the k times d; by exactly that much when every node before it is overloaded. */
  lemma {:induction false} RaisedRoot(model: QueueModel, states: map<Node, NodeState>, route: seq<Node>, d: real)
    requires |route| >= 1 && Distinct(route) && d >= 0.0
    ensures var was, now := HopOf(model, states, route), HopOf(model, Raised(states, route[0], d), route);
            && 0.0 <= now.arrivalRate - was.arrivalRate <= Times(Power(0.6, |route| - 1), d)
            && now.serviceRate == was.serviceRate
            && (OverloadedBefore(model, states, route) ==>
                  now.arrivalRate - was.arrivalRate == Times(Power(0.6, |route| - 1), d))
  {
    hide HopOf, Power, Times, OwnQueue;
    var raised := Raised(states, route[0], d);
    if |route| == 1 {
      assert route == [route[0]];
      FirstHop(model, states, route[0]);
      FirstHop(model, raised, route[0]);
      SixTenths(0, d);
      hide Raised;
      SameService(model, states, raised, route);
    } else {
      var init, n := route[..|route| - 1], route[|route| - 1];
      assert route == init + [n] && StateOf(raised, n) == StateOf(states, n);
      hide Raised;
      RaisedRoot(model, states, init, d);
      NextHop(model, states, init, n);
      NextHop(model, raised, init, n);
      RouteServed(model, states, init);
      RouteServed(model, raised, init);
      SameService(model, states, raised, route);
      SixTenths(|init|, d);
      OverflowRises(HopOf(model, states, init), HopOf(model, raised, init), StateOf(states, init[|init| - 1]),
                    StateOf(raised, init[|init| - 1]), model, Times(Power(0.6, |init| - 1), d));
      if OverloadedBefore(model, states, route) {
        assert route[..|init|] == init;
        assert forall k :: 1 <= k < |init| ==> init[..k] == route[..k];
        assert OverloadedBefore(model, states, init);
      }
    }
  }

  lemma SixTenths(k: nat, d: real)
    ensures Times(Power(0.6, k), d) == if k == 0 then d else 0.6 * Times(Power(0.6, k - 1), d)
  {
  }

  /** The overflow of one node rises by at most six tenths of what its arrival rises by. */
  lemma OverflowRises(was: QueueHop, now: QueueHop, s: NodeState, t: NodeState, model: QueueModel, rise: real)
    requires OwnQueue(model, s, was) && OwnQueue(model, t, now) && was.serviceRate == now.serviceRate
    requires 0.0 <= now.arrivalRate - was.arrivalRate <= rise
    ensures var before := if was.isOverloaded then 0.6 * (was.arrivalRate - was.serviceRate) else 0.0;
            var after := if now.isOverloaded then 0.6 * (now.arrivalRate - now.serviceRate) else 0.0;
            && 0.0 <= after - before <= 0.6 * rise
            && (was.isOverloaded && now.arrivalRate - was.arrivalRate == rise ==> after - before == 0.6 * rise)
  {
  }

  lemma SameService(model: QueueModel, states: map<Node, NodeState>, raised: map<Node, NodeState>, route: seq<Node>)
    requires |route| >= 1
    requires StateOf(raised, route[|route| - 1]).serviceRate == StateOf(states, route[|route| - 1]).serviceRate
    ensures HopOf(model, raised, route).serviceRate == HopOf(model, states, route).serviceRate
  {
    RouteServed(model, states, route);
    RouteServed(model, raised, route);
  }

  lemma RouteServed(model: QueueModel, states: map<Node, NodeState>, route: seq<Node>)
    requires |route| >= 1
    ensures OwnQueue(model, StateOf(states, route[|route| - 1]), HopOf(model, states, route))
  {
    if |route| == 1 {
      assert route == [route[0]];
      FirstHop(model, states, route[0]);
    } else {
      NextHop(model, states, route[..|route| - 1], route[|route| - 1]);
      assert route == route[..|route| - 1] + [route[|route| - 1]];
    }
  }

  // ---------------------------------------------------------------------
  // What a valid chain does not promise

  ghost predicate ForwardInTime(g: seq<Arc>, states: map<Node, NodeState>) {
    forall p, n :: HasArc(g, p, n) ==> StateOf(states, p).timestamp <= StateOf(states, n).timestamp
  }

  ghost predicate EveryHopTimed(chain: PropagationChain) {
    forall h :: h in chain.hops ==> h.temporalValid
  }

  lemma ForwardHopsTimed(g: seq<Arc>, model: QueueModel, states: map<Node, NodeState>, root: Node, target: Node,
                         chain: PropagationChain)
    requires ForwardInTime(g, states) && Result(g, model, states, root, target, chain)
    ensures EveryHopTimed(chain)
  {
    forall h | h in chain.hops
      ensures h.temporalValid
    {
      assert IsRouteHop(g, model, states, root, h);
      var route :| SimpleFrom(g, root, route) && h == HopOf(model, states, route);
      if |route| > 1 {
        assert HasArc(g, route[|route| - 2], route[|route| - 2 + 1]);
      }
    }
  }

  /** The chain along one arc ends with that arc's hop, valid or not. */
  lemma ArcChain(g: seq<Arc>, model: QueueModel, states: map<Node, NodeState>, a: Node, b: Node, chain: PropagationChain)
    requires HasArc(g, a, b) && a != b && Result(g, model, states, a, b, chain)
    ensures chain.isPhysicallyValid
    ensures chain.hops[|chain.hops| - 1].temporalValid <==> StateOf(states, a).timestamp <= StateOf(states, b).timestamp
  {
    assert WalkFromTo(g, [a, b], a, b);
    var route := ShortestRoute(g, model, states, a, b, chain);
    assert |route| == 2;
  }

  /** Validity means only that the target was reached: taking the chains from everywhere to
      everywhere, every hop of every valid one respects time exactly when no arc runs back. */
  lemma ValidChainsTimedIff(g: seq<Arc>, model: QueueModel, states: map<Node, NodeState>,
                            chains: (Node, Node) -> PropagationChain)
    requires forall r, t :: Result(g, model, states, r, t, chains(r, t))
    ensures (forall r, t :: chains(r, t).isPhysicallyValid ==> EveryHopTimed(chains(r, t))) <==> ForwardInTime(g, states)
  {
    if ForwardInTime(g, states) {
      forall r, t
        ensures EveryHopTimed(chains(r, t))
      {
        ForwardHopsTimed(g, model, states, r, t, chains(r, t));
      }
    } else {
      var a, b :| HasArc(g, a, b) && StateOf(states, a).timestamp > StateOf(states, b).timestamp;
      var chain := chains(a, b);
      ArcChain(g, model, states, a, b, chain);
      assert chain.hops[|chain.hops| - 1] in chain.hops;
    }
  }
}
